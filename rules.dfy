/** The lexing rules of packages/kora_lexer/src/lexer.rs as functions of the
    remaining source text: the lookup tables, and for each `consume_*` method
    the token it returns (or its panic). The methods of `KoraLexer.Lexer` are
    proved to compute exactly these. */
module LexerRules {
  import opened Wrappers
  import opened Utf8
  import opened Unicode
  import opened Tokens

  /** The two-character operator table. Every entry is a pair of ASCII
      characters that either ends in `=` or doubles its character; none
      starts with whitespace or is `//`, and `==` is not one of them. */
  function TwoCharKind(c: char, d: char): (r: Option<TokenKind>)
    ensures r.Some? ==> c as int < 0x80 && d as int < 0x80
    ensures r.Some? ==> d == '=' || d == c
    ensures r.Some? ==> !IsWhitespace(c) && (c, d) != ('/', '/')
    ensures r != Some(EqualEqual)
    ensures (c, d) == ('=', '=') ==> r.None?
  {
    match (c, d)
    case ('+', '=') => Some(PlusEqual)
    case ('-', '=') => Some(MinusEqual)
    case ('*', '=') => Some(MultiplyEqual)
    case ('/', '=') => Some(DivideEqual)
    case ('%', '=') => Some(ModuloEqual)
    case ('&', '&') => Some(AndAnd)
    case ('|', '|') => Some(OrOr)
    case ('!', '=') => Some(NotEqual)
    case ('<', '=') => Some(LessThanEqual)
    case ('>', '=') => Some(GreaterThanEqual)
    case ('<', '<') => Some(LessThanLessThan)
    case ('>', '>') => Some(GreaterThanGreaterThan)
    case _ => None
  }

  /** The one-character operator and punctuation table. Its entries are
      ASCII characters that are neither letters, digits, `_` nor whitespace,
      so it never competes with the identifier or whitespace rules. */
  function OneCharKind(c: char): (r: Option<TokenKind>)
    ensures r.Some? ==> c as int < 0x80
    ensures r.Some? ==> !IsAsciiLetter(c) && !IsAsciiDigit(c) && c != '_' && !IsWhitespace(c)
  {
    match c
    case '=' => Some(Equal)
    case '+' => Some(Plus)
    case '-' => Some(Minus)
    case '*' => Some(Multiply)
    case '/' => Some(Divide)
    case '%' => Some(Modulo)
    case '&' => Some(And)
    case '|' => Some(Or)
    case '^' => Some(Caret)
    case '!' => Some(Not)
    case '<' => Some(LessThan)
    case '>' => Some(GreaterThan)
    case '(' => Some(LeftParenthesis)
    case ')' => Some(RightParenthesis)
    case '[' => Some(LeftBracket)
    case ']' => Some(RightBracket)
    case '{' => Some(LeftBrace)
    case '}' => Some(RightBrace)
    case ',' => Some(Comma)
    case '.' => Some(Dot)
    case ';' => Some(Semicolon)
    case ':' => Some(Colon)
    case _ => None
  }

  /** The keyword table: an exact, case-sensitive match on the whole text. */
  function KeywordKind(text: string): (r: TokenKind)
    ensures r == Identifier || IsKeyword(r)
    ensures r != Identifier ==> Spelling(r) == Some(text)
  {
    if text == "def" then Def
    else if text == "extend" then Extend
    else if text == "with" then With
    else if text == "if" then If
    else if text == "else" then Else
    else if text == "for" then For
    else if text == "struct" then Struct
    else Identifier
  }

  /** The length of the longest prefix of `s` whose characters all satisfy `p`. */
  function Run(p: char -> bool, s: string): (n: nat)
    ensures n <= |s|
    ensures forall i :: 0 <= i < n ==> p(s[i])
    ensures n < |s| ==> !p(s[n])
  {
    if s == [] || !p(s[0]) then 0 else 1 + Run(p, s[1..])
  }

  /** A prefix length whose characters all satisfy `p` and that cannot be
      extended is the run length. */
  lemma {:induction false} RunUnique(p: char -> bool, s: string, n: nat)
    requires n <= |s|
    requires forall i :: 0 <= i < n ==> p(s[i])
    requires n < |s| ==> !p(s[n])
    ensures n == Run(p, s)
  {
    if n > 0 {
      RunUnique(p, s[1..], n - 1);
    }
  }

  /** The number of characters up to and including the first newline, or
      all of `s` when it holds no newline. */
  function LineLength(s: string): (n: nat)
    ensures n <= |s|
    ensures forall i :: 0 <= i < n - 1 ==> s[i] != '\n'
    ensures n < |s| ==> 0 < n && s[n - 1] == '\n'
  {
    if s == [] then 0 else if s[0] == '\n' then 1 else 1 + LineLength(s[1..])
  }

  /** The end of the first line is determined by the same three facts that
      `LineLength` promises. */
  lemma {:induction false} LineLengthUnique(s: string, n: nat)
    requires n <= |s|
    requires forall i :: 0 <= i < n - 1 ==> s[i] != '\n'
    requires n < |s| ==> 0 < n && s[n - 1] == '\n'
    ensures n == LineLength(s)
  {
    if s != [] && s[0] != '\n' {
      LineLengthUnique(s[1..], n - 1);
    }
  }

  /** `str::starts_with("//")`. */
  predicate StartsWithSlashes(s: string): (b: bool)
    ensures b <==> "//" <= s
  {
    |s| >= 2 && s[0] == '/' && s[1] == '/'
  }

  /** The byte width `consume_comment` computes: it starts at 2 for the
      `//` marker and then adds the bytes of every character from the start
      of the text up to and including the first newline. */
  function CommentWidth(s: string): (n: nat)
    ensures n >= 2 + LineLength(s)
    ensures (forall i :: 0 <= i < LineLength(s) ==> s[i] as int < 0x80) ==> n == 2 + LineLength(s)
  {
    ByteLenAtLeastLength(s[..LineLength(s)]);
    // Both branches give the same width; the split exists only to call
    // ByteLenAscii where its precondition holds, for the second ensures.
    if forall i :: 0 <= i < LineLength(s) ==> s[i] as int < 0x80 then
      ByteLenAscii(s[..LineLength(s)]);
      2 + ByteLen(s[..LineLength(s)])
    else
      2 + ByteLen(s[..LineLength(s)])
  }

  /** The call returned a token. */
  predicate Emitted(r: Exit<Option<Token>>)
  {
    r.Returned? && r.value.Some?
  }

  /** `consume_whitespace`. */
  function WhitespaceToken(s: string): (r: Option<Token>)
    ensures r.Some? <==> s != [] && IsWhitespace(s[0])
    ensures r.Some? ==> r.value.kind == Trivia && r.value.text != [] && r.value.text <= s
    ensures r.Some? ==> forall i :: 0 <= i < |r.value.text| ==> IsWhitespace(r.value.text[i])
    ensures r.Some? && |r.value.text| < |s| ==> !IsWhitespace(s[|r.value.text|])
  {
    var n := Run(IsWhitespace, s);
    if n > 0 then Some(Token(Trivia, s[..n])) else None
  }

  /** `consume_comment`: the slice at `CommentWidth(s)` panics when that
      offset is not a character boundary of the remaining text. */
  function CommentToken(s: string): (r: Exit<Option<Token>>)
    ensures r == Returned(None) <==> !StartsWithSlashes(s)
    ensures Emitted(r) ==> r.value.value.kind == Trivia && r.value.value.text <= s
    ensures Emitted(r) ==> ByteLen(r.value.value.text) == CommentWidth(s)
  {
    if !StartsWithSlashes(s) then Returned(None)
    else
      match CharIndexAt(s, CommentWidth(s))
      case None => Panicked
      case Some(k) => Returned(Some(Token(Trivia, s[..k])))
  }

  /** `consume_trivia`: whitespace first, then a comment. */
  function TriviaToken(s: string): (r: Exit<Option<Token>>)
    ensures r == Returned(None) <==> !(s != [] && IsWhitespace(s[0])) && !StartsWithSlashes(s)
    ensures Emitted(r) ==> r.value.value.kind == Trivia && r.value.value.text != [] && r.value.value.text <= s
  {
    var whitespace := WhitespaceToken(s);
    if whitespace.Some? then Returned(whitespace) else CommentToken(s)
  }

  /** `consume_two_chars_token(c, d)`: a table hit slices two bytes. */
  function TwoCharToken(s: string, c: char, d: char): (r: Exit<Option<Token>>)
    ensures r == Returned(None) <==> TwoCharKind(c, d).None?
    ensures Emitted(r) ==> Some(r.value.value.kind) == TwoCharKind(c, d)
    ensures Emitted(r) ==> r.value.value.text != [] && r.value.value.text <= s
    ensures Emitted(r) ==> ByteLen(r.value.value.text) == 2
  {
    match TwoCharKind(c, d)
    case None => Returned(None)
    case Some(kind) =>
      match CharIndexAt(s, 2)
      case None => Panicked
      case Some(k) => Returned(Some(Token(kind, s[..k])))
  }

  /** `consume_one_char_token(c)`: a table hit slices one byte. */
  function OneCharToken(s: string, c: char): (r: Exit<Option<Token>>)
    ensures r == Returned(None) <==> OneCharKind(c).None?
    ensures Emitted(r) ==> Some(r.value.value.kind) == OneCharKind(c)
    ensures Emitted(r) ==> r.value.value.text != [] && r.value.value.text <= s
    ensures Emitted(r) ==> ByteLen(r.value.value.text) == 1
  {
    match OneCharKind(c)
    case None => Returned(None)
    case Some(kind) =>
      match CharIndexAt(s, 1)
      case None => Panicked
      case Some(k) => Returned(Some(Token(kind, s[..k])))
  }

  /** `consume_keyword_or_identifier_token`: an XID_Start character, then
      every XID_Continue character that follows, classified by the keyword
      table. */
  function IdentifierToken(u: UnicodeIdent, s: string): (r: Option<Token>)
    ensures r.Some? <==> s != [] && u.isXidStart(s[0])
    ensures r.Some? ==> r.value.text != [] && r.value.text <= s && r.value.kind == KeywordKind(r.value.text)
    ensures r.Some? ==> forall i :: 1 <= i < |r.value.text| ==> u.isXidContinue(r.value.text[i])
    ensures r.Some? && |r.value.text| < |s| ==> !u.isXidContinue(s[|r.value.text|])
  {
    if s == [] || !u.isXidStart(s[0]) then None
    else
      var n := 1 + Run(u.isXidContinue, s[1..]);
      Some(Token(KeywordKind(s[..n]), s[..n]))
  }

  /** The fallback of `consume_token`: the first byte, as Illegal. */
  function IllegalToken(s: string): (r: Exit<Option<Token>>)
    ensures r != Returned(None)
    ensures Emitted(r) ==> r.value.value.kind == Illegal && r.value.value.text != [] && r.value.value.text <= s
    ensures Emitted(r) ==> ByteLen(r.value.value.text) == 1
  {
    match CharIndexAt(s, 1)
    case None => Panicked
    case Some(k) => Returned(Some(Token(Illegal, s[..k])))
  }

  /** `consume_token`: the rules in priority order, the first that returns
      a token (or panics) deciding the outcome. */
  function NextToken(u: UnicodeIdent, s: string): (r: Exit<Option<Token>>)
    ensures r == Returned(None) <==> s == []
    ensures Emitted(r) ==> r.value.value.text != [] && r.value.value.text <= s
  {
    ByteLenAtLeastLength(s);
    if ByteLen(s) == 0 then Returned(None)
    else if TriviaToken(s) != Returned(None) then TriviaToken(s)
    else if |s| >= 2 && TwoCharToken(s, s[0], s[1]) != Returned(None) then TwoCharToken(s, s[0], s[1])
    else if OneCharToken(s, s[0]) != Returned(None) then OneCharToken(s, s[0])
    else if IdentifierToken(u, s).Some? then Returned(IdentifierToken(u, s))
    else IllegalToken(s)
  }

  /** What draining the lexer yields: the tokens in order, and whether the
      run ended in a panic rather than at the end of the input. */
  datatype Scan = Scan(tokens: seq<Token>, panicked: bool)

  /** Repeated `Iterator::next` until it returns None or panics. */
  function Tokenize(u: UnicodeIdent, s: string): (r: Scan)
    ensures |r.tokens| <= |s|
    decreases |s|
  {
    match NextToken(u, s)
    case Panicked => Scan([], true)
    case Returned(None) => Scan([], false)
    case Returned(Some(t)) =>
      var rest := Tokenize(u, s[|t.text|..]);
      Scan([t] + rest.tokens, rest.panicked)
  }

  /** Losslessness of a whole run: unless the run panicked, the tokens
      spell the whole input. */
  lemma {:induction false} TokenizeLossless(u: UnicodeIdent, s: string)
    ensures !Tokenize(u, s).panicked ==> Texts(Tokenize(u, s).tokens) == s
    decreases |s|
  {
    if Emitted(NextToken(u, s)) {
      var t := NextToken(u, s).value.value;
      var rest := s[|t.text|..];
      TokenizeLossless(u, rest);
      TokenizeCons(u, s, t);
      TextsCons(t, Tokenize(u, rest).tokens);
      assert s == t.text + rest;
    }
  }

  /** A run that panicked spells a prefix of the input that stops short of
      the end. */
  lemma {:induction false} TokenizePanicStopsShort(u: UnicodeIdent, s: string)
    ensures Tokenize(u, s).panicked ==> Texts(Tokenize(u, s).tokens) <= s && |Texts(Tokenize(u, s).tokens)| < |s|
    decreases |s|
  {
    if Emitted(NextToken(u, s)) {
      var t := NextToken(u, s).value.value;
      var rest := s[|t.text|..];
      TokenizePanicStopsShort(u, rest);
      TokenizeCons(u, s, t);
      var tail := Texts(Tokenize(u, rest).tokens);
      TextsCons(t, Tokenize(u, rest).tokens);
      if Tokenize(u, rest).panicked {
        assert s == t.text + rest;
        ProperPrefixAppend(t.text, tail, rest);
      }
    }
  }

  /** A proper prefix stays one under a common front. */
  lemma ProperPrefixAppend(a: string, b: string, c: string)
    requires b <= c && |b| < |c|
    ensures a + b <= a + c && |a + b| < |a + c|
  {
    assert (a + c)[..|a + b|] == a + c[..|b|];
  }

  /** `Tokenize` unfolded once on a returned token. */
  lemma TokenizeCons(u: UnicodeIdent, s: string, t: Token)
    requires NextToken(u, s) == Returned(Some(t))
    ensures Tokenize(u, s) == Scan([t] + Tokenize(u, s[|t.text|..]).tokens, Tokenize(u, s[|t.text|..]).panicked)
  {
  }

  /** A run is the first token followed by the run over what it leaves. */
  lemma TokenizeConsRun(u: UnicodeIdent, s: string, t: Token, rest: string, tokens: seq<Token>, panicked: bool)
    requires NextToken(u, s) == Returned(Some(t)) && s == t.text + rest
    requires Tokenize(u, rest) == Scan(tokens, panicked)
    ensures Tokenize(u, s) == Scan([t] + tokens, panicked)
  {
    assert rest == s[|t.text|..];
    TokenizeCons(u, s, t);
  }

  /** One step of `Tokenize`: after the token `NextToken` returns, the run
      goes on over what remains. */
  lemma TokenizeStep(u: UnicodeIdent, source: string, done: seq<Token>, s: string, t: Token, rest: string)
    requires Tokenize(u, source) == Scan(done + Tokenize(u, s).tokens, Tokenize(u, s).panicked)
    requires NextToken(u, s) == Returned(Some(t)) && s == t.text + rest
    ensures Tokenize(u, source) == Scan((done + [t]) + Tokenize(u, rest).tokens, Tokenize(u, rest).panicked)
  {
    assert rest == s[|t.text|..];
    TokenizeCons(u, s, t);
    var tail := Tokenize(u, rest).tokens;
    assert done + ([t] + tail) == (done + [t]) + tail;
  }

  /** A run stops where `NextToken` returns None or panics. */
  lemma TokenizeStop(u: UnicodeIdent, source: string, done: seq<Token>, s: string)
    requires Tokenize(u, source) == Scan(done + Tokenize(u, s).tokens, Tokenize(u, s).panicked)
    requires !Emitted(NextToken(u, s))
    ensures Tokenize(u, source) == Scan(done, NextToken(u, s).Panicked?)
  {
    assert done + [] == done;
  }
}
