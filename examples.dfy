/** The lexer on concrete inputs. The lemmas that look at letters assume
    the identifier tables agree with Unicode on ASCII. */
module LexerExamples {
  import opened Wrappers
  import opened Utf8
  import opened Unicode
  import opened Tokens
  import opened LexerRules
  import opened LexerProperties

  /** `&&` is one AndAnd token, not two And tokens. */
  lemma AndAndIsOneToken(u: UnicodeIdent)
    ensures Tokenize(u, "&&") == Scan([Token(AndAnd, "&&")], false)
  {
    TwoCharFirst(u, "&&");
    assert "&&"[..2] == "&&";
    TokenizeCons(u, "&&", Token(AndAnd, "&&"));
    assert "&&"[2..] == [];
  }

  /** `==` is not in the two-character table: it is two Equal tokens. */
  lemma EqualEqualIsTwoEquals(u: UnicodeIdent)
    ensures Tokenize(u, "==") == Scan([Token(Equal, "="), Token(Equal, "=")], false)
  {
    OneCharFirst(u, "==");
    assert "=="[..1] == "=";
    TokenizeCons(u, "==", Token(Equal, "="));
    assert "=="[1..] == "=";
    OneCharFirst(u, "=");
    assert "="[..1] == "=";
    TokenizeCons(u, "=", Token(Equal, "="));
    assert "="[1..] == [];
  }

  /** `/=` is DivideEqual: the two-character rule comes before Divide. */
  lemma SlashEqualIsDivideEqual(u: UnicodeIdent)
    ensures Tokenize(u, "/=") == Scan([Token(DivideEqual, "/=")], false)
  {
    TwoCharFirst(u, "/=");
    assert "/="[..2] == "/=";
    TokenizeCons(u, "/=", Token(DivideEqual, "/="));
    assert "/="[2..] == [];
  }

  /** Maximal munch: `ifx` is one identifier, not the keyword `if`
      followed by `x`. */
  lemma IfxIsOneIdentifier(u: UnicodeIdent)
    requires AsciiAgrees(u)
    ensures Tokenize(u, "ifx") == Scan([Token(Identifier, "ifx")], false)
  {
    IdentifierFirst(u, "ifx", 3);
    assert "ifx"[..3] == "ifx";
    TokenizeCons(u, "ifx", Token(Identifier, "ifx"));
    assert "ifx"[3..] == [];
  }

  // Single steps of `NextToken` on concrete texts, each proved on its own
  // so that the runs below only combine them. They are one lemma per text,
  // not one lemma over a character parameter: each goes through a different
  // rule, and the facts about a literal text are cheap in a lemma this small
  // and costly inside the runs.

  lemma NextOfAPlusB(u: UnicodeIdent)
    requires AsciiAgrees(u)
    ensures NextToken(u, "a+b") == Returned(Some(Token(Identifier, "a")))
    ensures NextToken(u, "+b") == Returned(Some(Token(Plus, "+")))
  {
    IdentifierFirst(u, "a+b", 1);
    assert "a+b"[..1] == "a";
    OneCharFirst(u, "+b");
    assert "+b"[..1] == "+";
  }

  lemma NextOfB(u: UnicodeIdent)
    requires AsciiAgrees(u)
    ensures NextToken(u, "b") == Returned(Some(Token(Identifier, "b")))
  {
    IdentifierFirst(u, "b", 1);
    assert "b"[..1] == "b";
  }

  /** Operators need no surrounding whitespace. */
  lemma APlusB(u: UnicodeIdent)
    requires AsciiAgrees(u)
    ensures Tokenize(u, "a+b") ==
      Scan([Token(Identifier, "a"), Token(Plus, "+"), Token(Identifier, "b")], false)
  {
    NextOfAPlusB(u);
    NextOfB(u);
    TokenizeCons(u, "b", Token(Identifier, "b"));
    assert "b"[1..] == [];
    TokenizeCons(u, "+b", Token(Plus, "+"));
    assert "+b"[1..] == "b";
    TokenizeCons(u, "a+b", Token(Identifier, "a"));
    assert "a+b"[1..] == "+b";
  }

  lemma NextOfXPlusEqualOne(u: UnicodeIdent)
    requires AsciiAgrees(u)
    ensures NextToken(u, "x += 1") == Returned(Some(Token(Identifier, "x")))
  {
    IdentifierFirst(u, "x += 1", 1);
    assert "x += 1"[..1] == "x";
  }

  lemma NextOfSpacePlusEqualOne(u: UnicodeIdent)
    ensures NextToken(u, " += 1") == Returned(Some(Token(Trivia, " ")))
  {
    WhitespaceTokenIsWholeRun(u, " ", "+= 1");
    CompoundAssignmentSplits();
  }

  lemma NextOfPlusEqualOne(u: UnicodeIdent)
    ensures NextToken(u, "+= 1") == Returned(Some(Token(PlusEqual, "+=")))
  {
    TwoCharFirst(u, "+= 1");
    assert "+= 1"[..2] == "+=";
  }

  lemma NextOfSpaceOne(u: UnicodeIdent)
    ensures NextToken(u, " 1") == Returned(Some(Token(Trivia, " ")))
  {
    WhitespaceTokenIsWholeRun(u, " ", "1");
    CompoundAssignmentSplits();
  }

  lemma NextOfOne(u: UnicodeIdent)
    requires AsciiAgrees(u)
    ensures NextToken(u, "1") == Returned(Some(Token(Illegal, "1")))
  {
    IllegalLast(u, "1");
    assert "1"[..1] == "1";
  }

  /** The tail ` 1` of the run below: Trivia, then the digit as Illegal. */
  lemma SpaceOneRun(u: UnicodeIdent)
    requires AsciiAgrees(u)
    ensures Tokenize(u, " 1") == Scan([Token(Trivia, " "), Token(Illegal, "1")], false)
  {
    NextOfSpaceOne(u);
    NextOfOne(u);
    TokenizeCons(u, "1", Token(Illegal, "1"));
    assert "1"[1..] == [];
    TokenizeCons(u, " 1", Token(Trivia, " "));
    assert " 1"[1..] == "1";
  }

  // A token put in front of a short list. Dafny proves these unaided; they
  // are stated on their own because the same equalities are costly to
  // prove inside the runs below, where the lexer's definitions are in scope.

  lemma PrependToOne(t: Token, a: Token)
    ensures [t] + [a] == [t, a]
  {
  }

  lemma PrependToTwo(t: Token, a: Token, b: Token)
    ensures [t] + [a, b] == [t, a, b]
  {
  }

  lemma PrependToThree(t: Token, a: Token, b: Token, c: Token)
    ensures [t] + [a, b, c] == [t, a, b, c]
  {
  }

  lemma PrependToFour(t: Token, a: Token, b: Token, c: Token, d: Token)
    ensures [t] + [a, b, c, d] == [t, a, b, c, d]
  {
  }

  /** Where the tokens of `x += 1` divide it; stated apart from the runs
      for the same reason as the lemmas above. */
  lemma CompoundAssignmentSplits()
    ensures "x += 1" == "x" + " += 1" && " += 1" == " " + "+= 1" && "+= 1" == "+=" + " 1"
    ensures " 1" == " " + "1"
  {
  }

  lemma PlusEqualOneRun(u: UnicodeIdent)
    requires AsciiAgrees(u)
    ensures Tokenize(u, "+= 1") ==
      Scan([Token(PlusEqual, "+="), Token(Trivia, " "), Token(Illegal, "1")], false)
  {
    NextOfPlusEqualOne(u);
    SpaceOneRun(u);
    CompoundAssignmentSplits();
    TokenizeConsRun(u, "+= 1", Token(PlusEqual, "+="), " 1",
      [Token(Trivia, " "), Token(Illegal, "1")], false);
    PrependToTwo(Token(PlusEqual, "+="), Token(Trivia, " "), Token(Illegal, "1"));
  }

  lemma SpacePlusEqualOneRun(u: UnicodeIdent)
    requires AsciiAgrees(u)
    ensures Tokenize(u, " += 1") ==
      Scan([Token(Trivia, " "), Token(PlusEqual, "+="), Token(Trivia, " "), Token(Illegal, "1")], false)
  {
    NextOfSpacePlusEqualOne(u);
    PlusEqualOneRun(u);
    CompoundAssignmentSplits();
    TokenizeConsRun(u, " += 1", Token(Trivia, " "), "+= 1",
      [Token(PlusEqual, "+="), Token(Trivia, " "), Token(Illegal, "1")], false);
    PrependToThree(Token(Trivia, " "), Token(PlusEqual, "+="), Token(Trivia, " "), Token(Illegal, "1"));
  }

  /** A digit starts no token rule: `x += 1` ends in an Illegal `1`, not an
      identifier or a number. */
  lemma CompoundAssignmentOfDigit(u: UnicodeIdent)
    requires AsciiAgrees(u)
    ensures Tokenize(u, "x += 1") ==
      Scan([Token(Identifier, "x"), Token(Trivia, " "), Token(PlusEqual, "+="),
            Token(Trivia, " "), Token(Illegal, "1")], false)
  {
    NextOfXPlusEqualOne(u);
    SpacePlusEqualOneRun(u);
    CompoundAssignmentSplits();
    TokenizeConsRun(u, "x += 1", Token(Identifier, "x"), " += 1",
      [Token(Trivia, " "), Token(PlusEqual, "+="), Token(Trivia, " "), Token(Illegal, "1")], false);
    PrependToFour(Token(Identifier, "x"), Token(Trivia, " "), Token(PlusEqual, "+="), Token(Trivia, " "),
      Token(Illegal, "1"));
  }

  // Single steps of the `_x` run, stated apart like the ones above.

  lemma NextOfUnderscoreX(u: UnicodeIdent)
    requires AsciiAgrees(u)
    ensures NextToken(u, "_x") == Returned(Some(Token(Illegal, "_")))
  {
    IllegalLast(u, "_x");
    assert "_x"[..1] == "_";
  }

  lemma NextOfX(u: UnicodeIdent)
    requires AsciiAgrees(u)
    ensures NextToken(u, "x") == Returned(Some(Token(Identifier, "x")))
  {
    IdentifierFirst(u, "x", 1);
    assert "x"[..1] == "x";
  }

  /** An underscore is not XID_Start: `_x` is Illegal `_` then `x`. */
  lemma UnderscoreIsIllegal(u: UnicodeIdent)
    requires AsciiAgrees(u)
    ensures Tokenize(u, "_x") == Scan([Token(Illegal, "_"), Token(Identifier, "x")], false)
  {
    NextOfUnderscoreX(u);
    NextOfX(u);
    TokenizeCons(u, "x", Token(Identifier, "x"));
    assert "x"[1..] == [];
    TokenizeCons(u, "_x", Token(Illegal, "_"));
    assert "_x"[1..] == "x";
  }

  /** A comment on the last line, ending in its newline, makes the slice
      run past the end of the text: the first call panics. */
  lemma CommentAtEndPanics(u: UnicodeIdent)
    ensures Tokenize(u, "// hi\n") == Scan([], true)
  {
    var s := "// hi\n";
    LineLengthUnique(s, 6);
    CommentPanics(s);
    assert s[6..] == [];
    CommentFirst(u, s);
  }

  lemma NextOfCommentSwallowingNextLine(u: UnicodeIdent)
    ensures NextToken(u, "// hi\nab") == Returned(Some(Token(Trivia, "// hi\nab")))
  {
    var s := "// hi\nab";
    LineLengthUnique(s, 6);
    CommentWithTwoAsciiAfter(s);
    assert s[..8] == s;
    CommentFirst(u, s);
  }

  /** When two ASCII characters follow the newline, the comment token
      takes them too. */
  lemma CommentSwallowsNextLine(u: UnicodeIdent)
    ensures Tokenize(u, "// hi\nab") == Scan([Token(Trivia, "// hi\nab")], false)
  {
    NextOfCommentSwallowingNextLine(u);
    TokenizeCons(u, "// hi\nab", Token(Trivia, "// hi\nab"));
    assert "// hi\nab"[8..] == [];
  }

  lemma NextOfSpacesComment(u: UnicodeIdent)
    ensures NextToken(u, "  //x\nab") == Returned(Some(Token(Trivia, "  ")))
  {
    WhitespaceTokenIsWholeRun(u, "  ", "//x\nab");
    SpacesCommentSplits();
  }

  lemma NextOfComment(u: UnicodeIdent)
    ensures NextToken(u, "//x\nab") == Returned(Some(Token(Trivia, "//x\nab")))
  {
    var c := "//x\nab";
    LineLengthUnique(c, 4);
    CommentWithTwoAsciiAfter(c);
    assert c[..6] == c;
    CommentFirst(u, c);
  }

  lemma CommentRun(u: UnicodeIdent)
    ensures Tokenize(u, "//x\nab") == Scan([Token(Trivia, "//x\nab")], false)
  {
    NextOfComment(u);
    TokenizeCons(u, "//x\nab", Token(Trivia, "//x\nab"));
    assert "//x\nab"[6..] == [];
  }

  /** Where the spaces and the comment of the text below divide it; stated
      apart for the reason given at `PrependToOne`. */
  lemma SpacesCommentSplits()
    ensures "  //x\nab" == "  " + "//x\nab"
  {
  }

  /** Whitespace and a comment are separate Trivia tokens; the comment again
      reaches two bytes past its newline. */
  lemma WhitespaceThenComment(u: UnicodeIdent)
    ensures Tokenize(u, "  //x\nab") == Scan([Token(Trivia, "  "), Token(Trivia, "//x\nab")], false)
  {
    NextOfSpacesComment(u);
    CommentRun(u);
    SpacesCommentSplits();
    TokenizeConsRun(u, "  //x\nab", Token(Trivia, "  "), "//x\nab", [Token(Trivia, "//x\nab")], false);
    PrependToOne(Token(Trivia, "  "), Token(Trivia, "//x\nab"));
  }

  /** A multi-byte character that starts no identifier panics at the
      one-byte slice of the Illegal rule. */
  lemma EuroSignPanics(u: UnicodeIdent)
    requires !u.isXidStart('\U{20AC}')
    ensures Tokenize(u, "\U{20AC}") == Scan([], true)
  {
    PanicsExactly(u, "\U{20AC}");
  }
}
