/** The `Lexer` of packages/kora_lexer/src/lexer.rs: a cursor over the source
    text whose `consume_*` methods slice tokens off the front of the part not
    yet lexed. Each method is proved to return its rule function in
    `LexerRules`: `ConsumeToken` returns `NextToken`, `ConsumeTwoCharsToken`
    `TwoCharToken`, `ConsumeOneCharToken` `OneCharToken`,
    `ConsumeKeywordOrIdentifierToken` `IdentifierToken`, `ConsumeTrivia`
    `TriviaToken`, `ConsumeWhitespace` `WhitespaceToken` and `ConsumeComment`
    `CommentToken`. */
module KoraLexer {
  import opened Wrappers
  import opened Utf8
  import opened Unicode
  import opened Tokens
  import opened LexerRules

  /** The lexer's syntax-error type; its definition is not part of this model,
      and no lexer path ever records one. */
  datatype SyntaxError = SyntaxError

  class Lexer {
    /** Original, unmodified source code. */
    const originalSourceCode: string
    /** The identifier tables behind `is_xid_start` and `is_xid_continue`. */
    const unicode: UnicodeIdent
    /** Source code that has yet to be lexed. */
    var sourceCode: string
    /** Syntax errors. */
    var errors: seq<SyntaxError>
    /** Every token returned so far, in order. */
    ghost var emitted: seq<Token>

    /** The tokens returned so far and the text not yet lexed make up the
        original source, and no error has been recorded. */
    ghost predicate Valid()
      reads this
      ensures Valid() ==> |sourceCode| <= |originalSourceCode|
    {
      originalSourceCode == Texts(emitted) + sourceCode && errors == []
    }

    /** The unlexed text is the tail of the original source. */
    lemma UnlexedIsSuffix()
      requires Valid()
      ensures originalSourceCode[|originalSourceCode| - |sourceCode|..] == sourceCode
    {
      assert |originalSourceCode| - |sourceCode| == |Texts(emitted)|;
    }

    /** How the state moved during a call that ended with `r`: a returned
        token was sliced off the front and recorded; otherwise nothing
        changed. */
    ghost predicate Advanced(r: Exit<Option<Token>>, before: string, emittedBefore: seq<Token>)
      reads this
    {
      if Emitted(r) then
        before == r.value.value.text + sourceCode && emitted == emittedBefore + [r.value.value]
      else
        sourceCode == before && emitted == emittedBefore
    }

    /** `Lexer::new`. */
    constructor (source: string, unicode: UnicodeIdent)
      ensures Valid()
      ensures originalSourceCode == source && sourceCode == source && this.unicode == unicode
      ensures emitted == []
    {
      originalSourceCode := source;
      this.unicode := unicode;
      sourceCode := source;
      errors := [];
      emitted := [];
    }

    /** The two statements every rule ends with: take the first `n`
        characters as the token text and keep the rest. */
    method Take(kind: TokenKind, n: nat) returns (t: Token)
      requires Valid() && 0 < n <= |sourceCode|
      modifies this
      ensures Valid()
      ensures t == Token(kind, old(sourceCode)[..n]) && sourceCode == old(sourceCode)[n..]
      ensures Advanced(Returned(Some(t)), old(sourceCode), old(emitted))
    {
      t := Token(kind, sourceCode[..n]);
      sourceCode := sourceCode[n..];
      emitted := emitted + [t];
      TextsSnoc(old(emitted), t);
      assert old(sourceCode) == t.text + sourceCode;
    }

    /** `consume_token`. */
    method ConsumeToken() returns (r: Exit<Option<Token>>)
      requires Valid()
      modifies this
      ensures Valid()
      ensures r == NextToken(unicode, old(sourceCode))
      ensures Advanced(r, old(sourceCode), old(emitted))
    {
      if ByteLen(sourceCode) == 0 {
        return Returned(None);
      }
      var trivia := ConsumeTrivia();
      if trivia != Returned(None) {
        return trivia;
      }
      var currentChar := sourceCode[0];
      if |sourceCode| >= 2 {
        var nextChar := sourceCode[1];
        var twoCharToken := ConsumeTwoCharsToken(currentChar, nextChar);
        if twoCharToken != Returned(None) {
          return twoCharToken;
        }
      }
      var oneCharToken := ConsumeOneCharToken(currentChar);
      if oneCharToken != Returned(None) {
        return oneCharToken;
      }
      var keywordOrIdentifierToken := ConsumeKeywordOrIdentifierToken();
      if keywordOrIdentifierToken.Some? {
        return Returned(keywordOrIdentifierToken);
      }
      // No rule matched: the first byte is an Illegal token.
      var k := CharIndexAt(sourceCode, 1);
      if k.None? {
        return Panicked;
      }
      var t := Take(Illegal, k.value);
      r := Returned(Some(t));
    }

    /** `consume_two_chars_token(current_char, next_char)`. */
    method ConsumeTwoCharsToken(currentChar: char, nextChar: char) returns (r: Exit<Option<Token>>)
      requires Valid()
      modifies this
      ensures Valid()
      ensures r == TwoCharToken(old(sourceCode), currentChar, nextChar)
      ensures Advanced(r, old(sourceCode), old(emitted))
    {
      var tokenKind := TwoCharKind(currentChar, nextChar);
      if tokenKind.None? {
        return Returned(None);
      }
      var k := CharIndexAt(sourceCode, 2);
      if k.None? {
        return Panicked;
      }
      var t := Take(tokenKind.value, k.value);
      r := Returned(Some(t));
    }

    /** `consume_one_char_token(current_char)`. */
    method ConsumeOneCharToken(currentChar: char) returns (r: Exit<Option<Token>>)
      requires Valid()
      modifies this
      ensures Valid()
      ensures r == OneCharToken(old(sourceCode), currentChar)
      ensures Advanced(r, old(sourceCode), old(emitted))
    {
      var tokenKind := OneCharKind(currentChar);
      if tokenKind.None? {
        return Returned(None);
      }
      var k := CharIndexAt(sourceCode, 1);
      if k.None? {
        return Panicked;
      }
      var t := Take(tokenKind.value, k.value);
      r := Returned(Some(t));
    }

    /** `consume_keyword_or_identifier_token`. */
    method ConsumeKeywordOrIdentifierToken() returns (r: Option<Token>)
      requires Valid()
      modifies this
      ensures Valid()
      ensures r == IdentifierToken(unicode, old(sourceCode))
      ensures Advanced(Returned(r), old(sourceCode), old(emitted))
    {
      // `chars` is the snapshot the `chars()` iterator walks over.
      var chars := sourceCode;
      if |chars| == 0 {
        return None;
      }
      var firstChar := chars[0];
      if !unicode.isXidStart(firstChar) {
        return None;
      }
      var keywordWidth: nat := Utf8Len(firstChar);
      ByteLenSnoc(chars, 0);
      // `i` is the position of the `chars()` iterator, in characters.
      var i := 1;
      while i < |chars|
        invariant unchanged(this)
        invariant 1 <= i <= |chars|
        invariant keywordWidth == ByteLen(chars[..i])
        invariant forall j :: 1 <= j < i ==> unicode.isXidContinue(chars[j])
      {
        var c := chars[i];
        if !unicode.isXidContinue(c) {
          break;
        }
        ByteLenSnoc(chars, i);
        keywordWidth := keywordWidth + Utf8Len(c);
        i := i + 1;
      }
      RunUnique(unicode.isXidContinue, chars[1..], i - 1);
      CharIndexAtPrefix(chars, i);
      var k := CharIndexAt(sourceCode, keywordWidth).value;
      var tokenKind := KeywordKind(sourceCode[..k]);
      var t := Take(tokenKind, k);
      r := Some(t);
    }

    /** `consume_trivia`: whitespace, or else a comment, never both. */
    method ConsumeTrivia() returns (r: Exit<Option<Token>>)
      requires Valid()
      modifies this
      ensures Valid()
      ensures r == TriviaToken(old(sourceCode))
      ensures Advanced(r, old(sourceCode), old(emitted))
    {
      var whitespace := ConsumeWhitespace();
      if whitespace.Some? {
        return Returned(whitespace);
      }
      r := ConsumeComment();
    }

    /** `consume_whitespace`. */
    method ConsumeWhitespace() returns (r: Option<Token>)
      requires Valid()
      modifies this
      ensures Valid()
      ensures r == WhitespaceToken(old(sourceCode))
      ensures Advanced(Returned(r), old(sourceCode), old(emitted))
    {
      // `chars` is the snapshot the `chars()` iterator walks over.
      var chars := sourceCode;
      var whitespaceWidth: nat := 0;
      var i := 0;
      while i < |chars|
        invariant unchanged(this)
        invariant i <= |chars|
        invariant whitespaceWidth == ByteLen(chars[..i])
        invariant forall j :: 0 <= j < i ==> IsWhitespace(chars[j])
      {
        var currentChar := chars[i];
        if !IsWhitespace(currentChar) {
          break;
        }
        ByteLenSnoc(chars, i);
        whitespaceWidth := whitespaceWidth + Utf8Len(currentChar);
        i := i + 1;
      }
      RunUnique(IsWhitespace, chars, i);
      ByteLenAtLeastLength(chars[..i]);
      if whitespaceWidth > 0 {
        CharIndexAtPrefix(chars, i);
        var k := CharIndexAt(sourceCode, whitespaceWidth).value;
        var t := Take(Trivia, k);
        r := Some(t);
      } else {
        r := None;
      }
    }

    /** `consume_comment`. Its `comment_width > 0` test always holds (the
        width starts at 2), so its else branch is not modelled. */
    method ConsumeComment() returns (r: Exit<Option<Token>>)
      requires Valid()
      modifies this
      ensures Valid()
      ensures r == CommentToken(old(sourceCode))
      ensures Advanced(r, old(sourceCode), old(emitted))
    {
      // `chars` is the snapshot the `chars()` iterator walks over.
      var chars := sourceCode;
      if !StartsWithSlashes(sourceCode) {
        return Returned(None);
      }
      var commentWidth: nat := 2;
      var i := 0;
      while i < |chars|
        invariant unchanged(this)
        invariant i <= |chars|
        invariant commentWidth == 2 + ByteLen(chars[..i])
        invariant forall j :: 0 <= j < i ==> chars[j] != '\n'
      {
        var currentChar := chars[i];
        ByteLenSnoc(chars, i);
        commentWidth := commentWidth + Utf8Len(currentChar);
        i := i + 1;
        if currentChar == '\n' {
          break;
        }
      }
      LineLengthUnique(chars, i);
      assert commentWidth == CommentWidth(chars);
      var k := CharIndexAt(sourceCode, commentWidth);
      if k.None? {
        return Panicked;
      }
      var t := Take(Trivia, k.value);
      r := Returned(Some(t));
    }

    /** `Iterator::next`. */
    method Next() returns (r: Exit<Option<Token>>)
      requires Valid()
      modifies this
      ensures Valid()
      ensures r == NextToken(unicode, old(sourceCode))
      ensures Advanced(r, old(sourceCode), old(emitted))
    {
      r := ConsumeToken();
    }

    /** Drains the iterator, as `collect` does; a panic ends the run. */
    method Collect() returns (tokens: seq<Token>, panicked: bool)
      requires Valid()
      modifies this
      ensures Valid()
      ensures Scan(tokens, panicked) == Tokenize(unicode, old(sourceCode))
      ensures emitted == old(emitted) + tokens
      ensures !panicked ==> sourceCode == []
    {
      tokens, panicked := [], false;
      ghost var source := sourceCode;
      assert tokens + Tokenize(unicode, source).tokens == Tokenize(unicode, source).tokens;
      while true
        invariant Valid()
        invariant emitted == old(emitted) + tokens
        invariant Tokenize(unicode, source) == Scan(tokens + Tokenize(unicode, sourceCode).tokens, Tokenize(unicode, sourceCode).panicked)
        decreases |sourceCode|
      {
        ghost var before := sourceCode;
        var r := Next();
        if !Emitted(r) {
          TokenizeStop(unicode, source, tokens, before);
          panicked := r.Panicked?;
          return;
        }
        var t := r.value.value;
        TokenizeStep(unicode, source, tokens, before, t, sourceCode);
        SnocRegroup(old(emitted), tokens, t);
        tokens := tokens + [t];
      }
    }
  }
}
