/** The lexing rules as their comments and the token definitions evidently
    intend them, where the code of packages/kora_lexer/src/lexer.rs does
    otherwise: a comment ends at its newline, an illegal token is one whole
    character, and `==` is an EqualEqual token. With these three changes
    lexing never panics and always gives back the whole input. */
module Corrected {
  import opened Wrappers
  import opened Utf8
  import opened Unicode
  import opened Tokens
  import opened LexerRules
  import opened LexerProperties

  /** A comment runs from `//` up to and including the first newline (or to
      the end of the text); it is never sliced off by a byte count. */
  function CorrectedCommentToken(s: string): (r: Option<Token>)
    ensures r.Some? <==> StartsWithSlashes(s)
    ensures r.Some? ==> r.value.kind == Trivia && r.value.text <= s && StartsWithSlashes(r.value.text)
    ensures r.Some? ==> forall i :: 0 <= i < |r.value.text| - 1 ==> r.value.text[i] != '\n'
    ensures r.Some? && |r.value.text| < |s| ==> r.value.text[|r.value.text| - 1] == '\n'
  {
    if StartsWithSlashes(s) then Some(Token(Trivia, s[..LineLength(s)])) else None
  }

  /** Where the comment rule as written does return a token, that token is
      two bytes longer than the intended one. */
  lemma CommentTwoBytesTooLong(s: string, t: Token)
    requires CommentToken(s) == Returned(Some(t))
    ensures CorrectedCommentToken(s).Some?
    ensures ByteLen(t.text) == ByteLen(CorrectedCommentToken(s).value.text) + 2
    ensures CorrectedCommentToken(s).value.text < t.text
  {
    CommentOverrun(s, t);
    var n := LineLength(s);
    assert CorrectedCommentToken(s).value.text == t.text[..n];
  }

  /** The two-character table with `==` added: every entry is the
      documented spelling of its kind, and EqualEqual is the entry for `==`
      alone. */
  function CorrectedTwoCharKind(c: char, d: char): (r: Option<TokenKind>)
    ensures r.Some? ==> Spelling(r.value) == Some([c, d])
    ensures r == Some(EqualEqual) <==> (c, d) == ('=', '=')
  {
    if (c, d) == ('=', '=') then Some(EqualEqual) else TwoCharKind(c, d)
  }

  /** The corrected table maps a pair to a kind exactly when the pair is that
      kind's documented two-character spelling: every such kind, EqualEqual
      included, is reachable. */
  lemma CorrectedTwoCharTable(c: char, d: char, k: TokenKind)
    ensures CorrectedTwoCharKind(c, d) == Some(k) <==>
      k in TwoCharKinds + {EqualEqual} && Spelling(k) == Some([c, d])
  {
    TwoCharTable(c, d, k);
    if (c, d) == ('=', '=') {
      assert TwoCharKind(c, d).None?;
    }
  }

  /** The first character, whole, as Illegal. */
  function CorrectedIllegalToken(s: string): (r: Token)
    requires s != []
    ensures r.kind == Illegal && r.text <= s && |r.text| == 1
    ensures ByteLen(r.text) == Utf8Len(s[0])
  {
    assert s[..1] == [s[0]];
    Token(Illegal, s[..1])
  }

  /** `consume_token` with the three corrected rules, in the same priority
      order. */
  function CorrectedNextToken(u: UnicodeIdent, s: string): (r: Option<Token>)
    ensures r.None? <==> s == []
    ensures r.Some? ==> r.value.text != [] && r.value.text <= s
  {
    if s == [] then None
    else if WhitespaceToken(s).Some? then WhitespaceToken(s)
    else if CorrectedCommentToken(s).Some? then CorrectedCommentToken(s)
    else if |s| >= 2 && CorrectedTwoCharKind(s[0], s[1]).Some? then
      Some(Token(CorrectedTwoCharKind(s[0], s[1]).value, s[..2]))
    else if OneCharKind(s[0]).Some? then Some(Token(OneCharKind(s[0]).value, s[..1]))
    else if IdentifierToken(u, s).Some? then IdentifierToken(u, s)
    else Some(CorrectedIllegalToken(s))
  }

  /** Away from the three corrected cases the lexer as written takes the
      same step as the corrected one. */
  lemma SameStepElsewhere(u: UnicodeIdent, s: string)
    requires !StartsWithSlashes(s)
    requires !(|s| >= 2 && s[0] == '=' && s[1] == '=')
    requires s != [] && !IsWhitespace(s[0]) && !u.isXidStart(s[0]) ==> Utf8Len(s[0]) == 1
    ensures NextToken(u, s) == Returned(CorrectedNextToken(u, s))
  {
    ByteLenAtLeastLength(s);
    if s != [] {
      if |s| >= 2 {
        TwoCharFromSource(s);
      }
      OneCharFromSource(s);
      SliceOneByte(s);
    }
  }

  /** Repeated corrected steps until the input is used up. */
  function CorrectedTokenize(u: UnicodeIdent, s: string): (r: seq<Token>)
    ensures |r| <= |s|
    decreases |s|
  {
    match CorrectedNextToken(u, s)
    case None => []
    case Some(t) => [t] + CorrectedTokenize(u, s[|t.text|..])
  }

  /** Losslessness, for every input: the corrected tokens spell the input. */
  lemma {:induction false} CorrectedLossless(u: UnicodeIdent, s: string)
    ensures Texts(CorrectedTokenize(u, s)) == s
    decreases |s|
  {
    match CorrectedNextToken(u, s)
    case None =>
    case Some(t) =>
      var rest := CorrectedTokenize(u, s[|t.text|..]);
      CorrectedLossless(u, s[|t.text|..]);
      assert ([t] + rest)[1..] == rest;
      assert s == t.text + s[|t.text|..];
  }

  /** A comment is never preceded by another rule. */
  lemma CorrectedCommentFirst(u: UnicodeIdent, s: string)
    requires StartsWithSlashes(s)
    ensures CorrectedNextToken(u, s) == CorrectedCommentToken(s)
  {
  }

  lemma CorrectedNextOfCommentAtEnd(u: UnicodeIdent)
    ensures CorrectedNextToken(u, "// hi\n") == Some(Token(Trivia, "// hi\n"))
  {
    var s := "// hi\n";
    CorrectedCommentFirst(u, s);
    LineLengthUnique(s, 6);
    assert s[..6] == s;
  }

  /** A comment on the last line is one Trivia token, newline included. */
  lemma CorrectedCommentAtEnd(u: UnicodeIdent)
    ensures CorrectedTokenize(u, "// hi\n") == [Token(Trivia, "// hi\n")]
  {
    CorrectedNextOfCommentAtEnd(u);
    assert "// hi\n"[6..] == [];
  }

  /** `==` is one EqualEqual token. */
  lemma CorrectedEqualEqual(u: UnicodeIdent)
    ensures CorrectedTokenize(u, "==") == [Token(EqualEqual, "==")]
  {
    assert "=="[..2] == "==";
    assert "=="[2..] == [];
  }

  /** A multi-byte character that starts no identifier is one Illegal
      token holding that character. */
  lemma CorrectedEuroSign(u: UnicodeIdent)
    requires !u.isXidStart('\U{20AC}')
    ensures CorrectedTokenize(u, "\U{20AC}") == [Token(Illegal, "\U{20AC}")]
  {
    var s := "\U{20AC}";
    assert s[..1] == s;
    assert s[1..] == [];
  }
}
