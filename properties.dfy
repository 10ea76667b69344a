/** What the lexing rules promise: the lookup tables against the documented
    spellings, the shape of each kind of token, rule priority, maximal munch,
    and exactly when lexing panics. */
module LexerProperties {
  import opened Wrappers
  import opened Utf8
  import opened Unicode
  import opened Tokens
  import opened LexerRules

  /** The kinds of the two-character table. */
  const TwoCharKinds: set<TokenKind> :=
    {PlusEqual, MinusEqual, MultiplyEqual, DivideEqual, ModuloEqual, AndAnd, OrOr,
     NotEqual, LessThanEqual, GreaterThanEqual, LessThanLessThan, GreaterThanGreaterThan}

  /** The kinds of the one-character table: twelve operators and ten
      punctuation marks. */
  const OneCharOperatorKinds: set<TokenKind> :=
    {Equal, Plus, Minus, Multiply, Divide, Modulo, And, Or, Caret, Not, LessThan, GreaterThan}
  const PunctuationKinds: set<TokenKind> :=
    {LeftParenthesis, RightParenthesis, LeftBracket, RightBracket, LeftBrace, RightBrace,
     Comma, Dot, Semicolon, Colon}
  const OneCharKinds: set<TokenKind> := OneCharOperatorKinds + PunctuationKinds

  /** The rule of `consume_token` that produces each kind; the literal
      kinds and EqualEqual are produced by none. */
  datatype Rule = TriviaRule | TwoCharRule | OneCharRule | IdentifierRule | IllegalRule | NoRule

  function RuleFor(k: TokenKind): Rule
  {
    match k
    case IntegerLiteral | FloatLiteral | StringLiteral | EqualEqual => NoRule
    case Identifier | Def | Extend | With | If | Else | For | Struct => IdentifierRule
    case PlusEqual | MinusEqual | MultiplyEqual | DivideEqual | ModuloEqual | AndAnd | OrOr
      | NotEqual | LessThanEqual | GreaterThanEqual | LessThanLessThan | GreaterThanGreaterThan => TwoCharRule
    case Trivia => TriviaRule
    case Illegal => IllegalRule
    case _ => OneCharRule
  }

  /** The kind sets are the kinds of their rules. */
  lemma TwoCharKindsRule(k: TokenKind)
    ensures k in TwoCharKinds <==> RuleFor(k) == TwoCharRule
  {
  }

  lemma OneCharOperatorKindsRule(k: TokenKind)
    ensures k in OneCharOperatorKinds ==> RuleFor(k) == OneCharRule
  {
  }

  lemma PunctuationKindsRule(k: TokenKind)
    ensures k in PunctuationKinds ==> RuleFor(k) == OneCharRule
  {
  }

  lemma OneCharRuleKinds(k: TokenKind)
    requires RuleFor(k) == OneCharRule
    ensures k in OneCharKinds
  {
  }

  lemma RuleForSets(k: TokenKind)
    ensures k in TwoCharKinds <==> RuleFor(k) == TwoCharRule
    ensures k in OneCharKinds <==> RuleFor(k) == OneCharRule
  {
    TwoCharKindsRule(k);
    OneCharOperatorKindsRule(k);
    PunctuationKindsRule(k);
    if RuleFor(k) == OneCharRule {
      OneCharRuleKinds(k);
    }
  }

  /** Every table entry is a kind of its own rule. */
  lemma TwoCharKindRule(c: char, d: char)
    ensures TwoCharKind(c, d).Some? ==> RuleFor(TwoCharKind(c, d).value) == TwoCharRule
  {
  }

  lemma OneCharKindRule(c: char)
    ensures OneCharKind(c).Some? ==> RuleFor(OneCharKind(c).value) == OneCharRule
  {
  }

  lemma KeywordKindRule(text: string)
    ensures RuleFor(KeywordKind(text)) == IdentifierRule
  {
  }

  lemma TableRules(c: char, d: char, text: string)
    ensures TwoCharKind(c, d).Some? ==> RuleFor(TwoCharKind(c, d).value) == TwoCharRule
    ensures OneCharKind(c).Some? ==> RuleFor(OneCharKind(c).value) == OneCharRule
    ensures RuleFor(KeywordKind(text)) == IdentifierRule
  {
    TwoCharKindRule(c, d);
    OneCharKindRule(c);
    KeywordKindRule(text);
  }

  /** Every two-character table entry is spelled by its pair. */
  lemma TwoCharEntrySpelled(c: char, d: char)
    requires TwoCharKind(c, d).Some?
    ensures Spelling(TwoCharKind(c, d).value) == Some([c, d])
  {
  }

  /** Every two-character kind is the table entry of its spelling. */
  lemma TwoCharSpellingEntry(k: TokenKind, c: char, d: char)
    requires RuleFor(k) == TwoCharRule && Spelling(k) == Some([c, d])
    ensures TwoCharKind(c, d) == Some(k)
  {
    assert [c, d][0] == c && [c, d][1] == d;
  }

  lemma TwoCharKindsCount()
    ensures |TwoCharKinds| == 12
  {
  }

  /** The two-character table maps a pair to a kind exactly when the pair is
      that kind's documented spelling, for 12 kinds; `==` is documented for
      EqualEqual but is not in the table. */
  lemma TwoCharTable(c: char, d: char, k: TokenKind)
    ensures TwoCharKind(c, d) == Some(k) <==> k in TwoCharKinds && Spelling(k) == Some([c, d])
    ensures |TwoCharKinds| == 12 && EqualEqual !in TwoCharKinds && Spelling(EqualEqual) == Some("==")
  {
    RuleForSets(k);
    RuleForSets(EqualEqual);
    TwoCharKindsCount();
    if TwoCharKind(c, d) == Some(k) {
      TwoCharKindRule(c, d);
      TwoCharEntrySpelled(c, d);
    }
    if RuleFor(k) == TwoCharRule && Spelling(k) == Some([c, d]) {
      TwoCharSpellingEntry(k, c, d);
    }
  }

  /** Every one-character table entry is a character spelling its kind. */
  lemma OneCharEntrySpelled(c: char)
    requires OneCharKind(c).Some?
    ensures Spelling(OneCharKind(c).value) == Some([c])
  {
  }

  /** Every one-character table entry is ASCII. */
  lemma OneCharEntryAscii(c: char)
    ensures OneCharKind(c).Some? ==> c as int < 0x80
  {
  }

  /** Every one-character kind is the table entry of its spelling. */
  lemma OneCharSpellingEntry(k: TokenKind, c: char)
    requires RuleFor(k) == OneCharRule && Spelling(k) == Some([c])
    ensures OneCharKind(c) == Some(k)
  {
    assert [c][0] == c;
  }

  /** The one-character table maps a character to a kind exactly when it is
      that kind's documented spelling, for 22 kinds, all of them ASCII. */
  lemma OneCharTable(c: char, k: TokenKind)
    ensures OneCharKind(c) == Some(k) <==> k in OneCharKinds && Spelling(k) == Some([c])
    ensures OneCharKind(c).Some? ==> c as int < 0x80
  {
    RuleForSets(k);
    OneCharEntryAscii(c);
    if OneCharKind(c).Some? {
      OneCharKindRule(c);
      OneCharEntrySpelled(c);
    }
    if RuleFor(k) == OneCharRule && Spelling(k) == Some([c]) {
      OneCharSpellingEntry(k, c);
    }
  }

  lemma OneCharOperatorKindsCount()
    ensures |OneCharOperatorKinds| == 12
  {
  }

  lemma PunctuationKindsCount()
    ensures |PunctuationKinds| == 10
  {
  }

  /** No kind is both an operator and punctuation. */
  lemma OneCharKindsDisjoint()
    ensures OneCharOperatorKinds * PunctuationKinds == {}
  {
  }

  /** The one-character table has 22 entries. */
  lemma OneCharKindsCount()
    ensures |OneCharKinds| == 22
  {
    OneCharOperatorKindsCount();
    PunctuationKindsCount();
    OneCharKindsDisjoint();
  }

  /** Keyword lookup: a text gets a keyword kind exactly when it is that
      keyword's spelling, and Identifier otherwise. */
  lemma KeywordTable(text: string, k: TokenKind)
    ensures IsKeyword(k) ==> (KeywordKind(text) == k <==> Spelling(k) == Some(text))
    ensures KeywordKind(text) == Identifier || IsKeyword(KeywordKind(text))
    ensures KeywordKind(text) == Identifier <==> text !in {"def", "extend", "with", "if", "else", "for", "struct"}
  {
    match k
    case Def => assert Spelling(k) == Some("def");
    case Extend => assert Spelling(k) == Some("extend");
    case With => assert Spelling(k) == Some("with");
    case If => assert Spelling(k) == Some("if");
    case Else => assert Spelling(k) == Some("else");
    case For => assert Spelling(k) == Some("for");
    case Struct => assert Spelling(k) == Some("struct");
    case _ => assert !IsKeyword(k);
  }

  /** A prefix of ASCII characters can be sliced off by byte count. */
  lemma AsciiSlice(s: string, n: nat)
    requires n <= |s|
    requires forall i :: 0 <= i < n ==> s[i] as int < 0x80
    ensures CharIndexAt(s, n) == Some(n)
  {
    ByteLenAscii(s[..n]);
    CharIndexAtPrefix(s, n);
  }

  /** Called with the first two characters of the remaining text, the
      two-character rule never panics and takes exactly those two. */
  lemma TwoCharFromSource(s: string)
    requires |s| >= 2
    ensures TwoCharKind(s[0], s[1]).Some? ==> s[0] as int < 0x80 && s[1] as int < 0x80 && s[..2] == [s[0], s[1]]
    ensures TwoCharKind(s[0], s[1]).Some? ==>
      TwoCharToken(s, s[0], s[1]) == Returned(Some(Token(TwoCharKind(s[0], s[1]).value, s[..2])))
  {
    if TwoCharKind(s[0], s[1]).Some? {
      AsciiSlice(s, 2);
      assert s[..2] == [s[0], s[1]];
    }
  }

  /** Called with the first character of the remaining text, the
      one-character rule never panics and takes exactly that one. */
  lemma OneCharFromSource(s: string)
    requires |s| >= 1
    ensures OneCharKind(s[0]).Some? ==> s[0] as int < 0x80 && s[..1] == [s[0]]
    ensures OneCharKind(s[0]).Some? ==>
      OneCharToken(s, s[0]) == Returned(Some(Token(OneCharKind(s[0]).value, s[..1])))
  {
    if OneCharKind(s[0]).Some? {
      AsciiSlice(s, 1);
      assert s[..1] == [s[0]];
    }
  }

  /** Slicing one byte succeeds exactly when the first character is one
      byte wide, and then takes that character. */
  lemma SliceOneByte(s: string)
    requires s != []
    ensures CharIndexAt(s, 1) == if Utf8Len(s[0]) == 1 then Some(1) else None
  {
    CharIndexAtExact(s, 1, 1);
    PrefixByteLenStep(s, 1);
    if CharIndexAt(s, 1).Some? {
      var k := CharIndexAt(s, 1).value;
      PrefixByteLenStep(s, k);
      ByteLenAtLeastLength(s[1..][..k - 1]);
    }
  }

  predicate AllWhitespace(text: string)
  {
    forall i :: 0 <= i < |text| ==> IsWhitespace(text[i])
  }

  /** A token with a Trivia kind came from the trivia rule. */
  lemma TriviaRuleFired(u: UnicodeIdent, s: string, t: Token)
    requires NextToken(u, s) == Returned(Some(t))
    requires RuleFor(t.kind) == TriviaRule
    ensures TriviaToken(s) == Returned(Some(t))
  {
    ByteLenAtLeastLength(s);
    if TriviaToken(s) == Returned(None) {
      if s != [] {
        TableRules(s[0], if |s| >= 2 then s[1] else s[0], s);
      }
      if IdentifierToken(u, s).Some? {
        TableRules(s[0], s[0], IdentifierToken(u, s).value.text);
      }
    }
  }

  /** A token with a two-character kind came from the two-character rule. */
  lemma TwoCharRuleFired(u: UnicodeIdent, s: string, t: Token)
    requires NextToken(u, s) == Returned(Some(t))
    requires RuleFor(t.kind) == TwoCharRule
    ensures TriviaToken(s) == Returned(None)
    ensures |s| >= 2 && TwoCharToken(s, s[0], s[1]) == Returned(Some(t))
  {
    ByteLenAtLeastLength(s);
    if TriviaToken(s) == Returned(None) && !(|s| >= 2 && TwoCharToken(s, s[0], s[1]) != Returned(None)) {
      TableRules(s[0], s[0], s);
      if IdentifierToken(u, s).Some? {
        TableRules(s[0], s[0], IdentifierToken(u, s).value.text);
      }
    }
  }

  /** A token with a one-character kind came from the one-character rule,
      where no two-character operator starts. */
  lemma OneCharRuleFired(u: UnicodeIdent, s: string, t: Token)
    requires NextToken(u, s) == Returned(Some(t))
    requires RuleFor(t.kind) == OneCharRule
    ensures TriviaToken(s) == Returned(None) && s != []
    ensures |s| < 2 || TwoCharKind(s[0], s[1]).None?
    ensures OneCharToken(s, s[0]) == Returned(Some(t))
  {
    ByteLenAtLeastLength(s);
    if TriviaToken(s) == Returned(None) {
      TableRules(s[0], if |s| >= 2 then s[1] else s[0], s);
      if IdentifierToken(u, s).Some? {
        TableRules(s[0], s[0], IdentifierToken(u, s).value.text);
      }
    }
  }

  /** A token with an identifier or keyword kind came from the identifier
      rule, where no operator starts. */
  lemma IdentifierRuleFired(u: UnicodeIdent, s: string, t: Token)
    requires NextToken(u, s) == Returned(Some(t))
    requires RuleFor(t.kind) == IdentifierRule
    ensures TriviaToken(s) == Returned(None) && s != []
    ensures (|s| < 2 || TwoCharKind(s[0], s[1]).None?) && OneCharKind(s[0]).None?
    ensures IdentifierToken(u, s) == Some(t)
  {
    ByteLenAtLeastLength(s);
    if TriviaToken(s) == Returned(None) {
      TableRules(s[0], if |s| >= 2 then s[1] else s[0], s);
    }
  }

  /** An Illegal token came from the fallback, where no other rule applies. */
  lemma IllegalRuleFired(u: UnicodeIdent, s: string, t: Token)
    requires NextToken(u, s) == Returned(Some(t))
    requires RuleFor(t.kind) == IllegalRule
    ensures TriviaToken(s) == Returned(None) && s != []
    ensures (|s| < 2 || TwoCharKind(s[0], s[1]).None?) && OneCharKind(s[0]).None?
    ensures IdentifierToken(u, s).None? && IllegalToken(s) == Returned(Some(t))
  {
    ByteLenAtLeastLength(s);
    if TriviaToken(s) == Returned(None) {
      TableRules(s[0], if |s| >= 2 then s[1] else s[0], s);
      if IdentifierToken(u, s).Some? {
        TableRules(s[0], s[0], IdentifierToken(u, s).value.text);
      }
    }
  }

  /** No returned token has a kind that no rule produces. */
  lemma SomeRuleFired(u: UnicodeIdent, s: string, t: Token)
    requires NextToken(u, s) == Returned(Some(t))
    ensures RuleFor(t.kind) != NoRule
  {
    ByteLenAtLeastLength(s);
    if TriviaToken(s) == Returned(None) {
      TableRules(s[0], if |s| >= 2 then s[1] else s[0], s);
      if IdentifierToken(u, s).Some? {
        TableRules(s[0], s[0], IdentifierToken(u, s).value.text);
      }
    }
  }

  /** Two-character operator tokens: their text is the kind's documented
      spelling, taken from the front of the input. */
  lemma TwoCharTokens(u: UnicodeIdent, s: string, t: Token)
    requires NextToken(u, s) == Returned(Some(t))
    requires t.kind in TwoCharKinds
    ensures |s| >= 2 && t.text == s[..2] && Spelling(t.kind) == Some(t.text)
    ensures !IsWhitespace(s[0]) && !StartsWithSlashes(s)
  {
    RuleForSets(t.kind);
    TwoCharRuleFired(u, s, t);
    TwoCharFromSource(s);
    TwoCharEntrySpelled(s[0], s[1]);
  }

  /** One-character operator and punctuation tokens: their text is the
      kind's documented spelling, taken from the front of the input, and
      they are produced only where no comment or two-character operator
      starts (maximal munch). */
  lemma OneCharTokens(u: UnicodeIdent, s: string, t: Token)
    requires NextToken(u, s) == Returned(Some(t))
    requires t.kind in OneCharKinds
    ensures s != [] && t.text == s[..1] && Spelling(t.kind) == Some(t.text)
    ensures !StartsWithSlashes(s) && (|s| < 2 || TwoCharKind(s[0], s[1]).None?)
  {
    RuleForSets(t.kind);
    OneCharRuleFired(u, s, t);
    OneCharFromSource(s);
    OneCharEntrySpelled(s[0]);
  }

  /** The shape of a token the identifier rule returns. */
  lemma IdentifierTokenShape(u: UnicodeIdent, s: string, t: Token)
    requires IdentifierToken(u, s) == Some(t)
    ensures t.text != [] && t.text <= s && u.isXidStart(t.text[0])
    ensures forall i :: 1 <= i < |t.text| ==> u.isXidContinue(t.text[i])
    ensures |t.text| < |s| ==> !u.isXidContinue(s[|t.text|])
    ensures t.kind == KeywordKind(t.text)
  {
  }

  /** A token classified by the keyword table is an Identifier only when
      its text is no keyword, and a keyword only under its own spelling. */
  lemma KeywordTokenText(t: Token)
    requires t.kind == KeywordKind(t.text)
    ensures t.kind == Identifier ==> t.text !in {"def", "extend", "with", "if", "else", "for", "struct"}
    ensures IsKeyword(t.kind) ==> Spelling(t.kind) == Some(t.text)
  {
    KeywordTable(t.text, t.kind);
  }

  /** Keyword and identifier tokens: an XID_Start character followed by the
      longest run of XID_Continue characters; a keyword kind exactly when the
      whole text is that keyword's spelling, so an identifier's text is never
      a keyword. */
  lemma IdentifierTokens(u: UnicodeIdent, s: string, t: Token)
    requires NextToken(u, s) == Returned(Some(t))
    requires RuleFor(t.kind) == IdentifierRule
    ensures t.text != [] && t.text <= s && u.isXidStart(t.text[0])
    ensures forall i :: 1 <= i < |t.text| ==> u.isXidContinue(t.text[i])
    ensures |t.text| < |s| ==> !u.isXidContinue(s[|t.text|])
    ensures t.kind == KeywordKind(t.text)
    ensures t.kind == Identifier ==> t.text !in {"def", "extend", "with", "if", "else", "for", "struct"}
    ensures IsKeyword(t.kind) ==> Spelling(t.kind) == Some(t.text)
  {
    IdentifierRuleFired(u, s, t);
    IdentifierTokenShape(u, s, t);
    KeywordTokenText(t);
  }

  /** Every token has a kind some rule produces (never a literal kind or
      EqualEqual), and a kind with a documented spelling has exactly that
      text. */
  lemma ProducedKinds(u: UnicodeIdent, s: string, t: Token)
    requires NextToken(u, s) == Returned(Some(t))
    ensures RuleFor(t.kind) != NoRule
    ensures Spelling(t.kind).Some? ==> Spelling(t.kind) == Some(t.text)
  {
    SomeRuleFired(u, s, t);
    RuleForSets(t.kind);
    match RuleFor(t.kind)
    case TwoCharRule => TwoCharTokens(u, s, t);
    case OneCharRule => OneCharTokens(u, s, t);
    case IdentifierRule => IdentifierTokens(u, s, t);
    case TriviaRule => assert t.kind == Trivia;
    case IllegalRule => assert t.kind == Illegal;
  }

  /** What the trivia rule returns: a maximal run of whitespace, or a
      comment starting with `//` of the width `consume_comment` computes,
      never both. */
  lemma TriviaTokenShape(s: string, t: Token)
    requires TriviaToken(s) == Returned(Some(t))
    ensures AllWhitespace(t.text) != StartsWithSlashes(t.text)
    ensures AllWhitespace(t.text) ==> t.text != [] && t.text <= s && (|t.text| < |s| ==> !IsWhitespace(s[|t.text|]))
    ensures StartsWithSlashes(t.text) ==> t.text <= s && ByteLen(t.text) == CommentWidth(s)
  {
    if WhitespaceToken(s).None? {
      var k := CharIndexAt(s, CommentWidth(s)).value;
      assert t.text == s[..k];
      PrefixByteLenStep(s, 1);
      ByteLenAtLeastLength(s[..0]);
      assert k >= 2;
      assert !IsWhitespace(t.text[0]);
    }
  }

  /** Trivia tokens come only from the whitespace and comment rules. */
  lemma TriviaTokens(u: UnicodeIdent, s: string, t: Token)
    requires NextToken(u, s) == Returned(Some(t))
    requires t.kind == Trivia
    ensures AllWhitespace(t.text) != StartsWithSlashes(t.text)
    ensures AllWhitespace(t.text) ==> t.text != [] && t.text <= s && (|t.text| < |s| ==> !IsWhitespace(s[|t.text|]))
    ensures StartsWithSlashes(t.text) ==> t.text <= s && ByteLen(t.text) == CommentWidth(s)
  {
    TriviaRuleFired(u, s, t);
    TriviaTokenShape(s, t);
  }

  /** The Illegal fallback fires only when no other rule applies to the
      first character, which must then be one byte wide; it takes exactly
      that character. */
  lemma IllegalTokens(u: UnicodeIdent, s: string, t: Token)
    requires NextToken(u, s) == Returned(Some(t))
    requires t.kind == Illegal
    ensures s != [] && t.text == s[..1] && Utf8Len(s[0]) == 1
    ensures !IsWhitespace(s[0]) && !StartsWithSlashes(s) && !u.isXidStart(s[0])
    ensures OneCharKind(s[0]).None? && (|s| < 2 || TwoCharKind(s[0], s[1]).None?)
  {
    IllegalRuleFired(u, s, t);
    SliceOneByte(s);
  }

  /** `consume_token` panics in exactly two situations: a comment whose
      computed width is not a character boundary of the input, and a first
      character wider than one byte that no rule accepts. */
  lemma PanicsExactly(u: UnicodeIdent, s: string)
    ensures NextToken(u, s) == Panicked <==>
      || (StartsWithSlashes(s) && CharIndexAt(s, CommentWidth(s)).None?)
      || (s != [] && !IsWhitespace(s[0]) && !u.isXidStart(s[0]) && Utf8Len(s[0]) > 1)
  {
    ByteLenAtLeastLength(s);
    if s != [] && !IsWhitespace(s[0]) && !StartsWithSlashes(s) {
      SliceOneByte(s);
      if |s| >= 2 {
        TwoCharFromSource(s);
      }
      OneCharFromSource(s);
    }
  }

  /** A comment token, when `consume_comment` does not panic, runs exactly
      two bytes past the end of its line. */
  lemma CommentOverrun(s: string, t: Token)
    requires CommentToken(s) == Returned(Some(t))
    ensures LineLength(s) < |t.text|
    ensures ByteLen(t.text[LineLength(s)..]) == 2
  {
    var n := LineLength(s);
    var k := |t.text|;
    assert t.text == s[..k];
    if k <= n {
      assert s[..n] == s[..k] + s[k..n];
      ByteLenAppend(s[..k], s[k..n]);
      assert false;
    }
    assert s[..k] == s[..n] + s[n..k];
    ByteLenAppend(s[..n], s[n..k]);
  }

  /** `consume_comment` panics whenever fewer than two bytes follow the end
      of the line, in particular when the input holds no newline. */
  lemma CommentPanics(s: string)
    requires StartsWithSlashes(s)
    ensures ByteLen(s[LineLength(s)..]) < 2 ==> CommentToken(s) == Panicked
    ensures (forall i :: 0 <= i < |s| ==> s[i] != '\n') ==> CommentToken(s) == Panicked
  {
    var n := LineLength(s);
    assert s == s[..n] + s[n..];
    ByteLenAppend(s[..n], s[n..]);
    if ByteLen(s[n..]) < 2 {
      CharIndexAtBeyondEnd(s, CommentWidth(s));
    }
    if forall i :: 0 <= i < |s| ==> s[i] != '\n' {
      assert n == |s|;
      assert s[n..] == [];
      CharIndexAtBeyondEnd(s, CommentWidth(s));
    }
  }

  /** When two ASCII characters follow the end of the line, the comment
      token is the line and those two characters. */
  lemma CommentWithTwoAsciiAfter(s: string)
    requires StartsWithSlashes(s)
    requires LineLength(s) + 2 <= |s|
    requires s[LineLength(s)] as int < 0x80 && s[LineLength(s) + 1] as int < 0x80
    ensures CommentToken(s) == Returned(Some(Token(Trivia, s[..LineLength(s) + 2])))
  {
    var n := LineLength(s);
    ByteLenSnoc(s, n);
    ByteLenSnoc(s, n + 1);
    assert ByteLen(s[..n + 2]) == CommentWidth(s);
    CharIndexAtPrefix(s, n + 2);
  }

  /** Rule priority, comment rule: input starting with `//` is a comment
      (or the comment's panic), whatever follows. */
  lemma CommentFirst(u: UnicodeIdent, s: string)
    requires StartsWithSlashes(s)
    ensures NextToken(u, s) == CommentToken(s)
  {
    ByteLenAtLeastLength(s);
  }

  /** Rule priority, two-character rule: a table pair in front, other than
      the start of a comment, is taken as one token. */
  lemma TwoCharFirst(u: UnicodeIdent, s: string)
    requires |s| >= 2 && TwoCharKind(s[0], s[1]).Some?
    ensures NextToken(u, s) == Returned(Some(Token(TwoCharKind(s[0], s[1]).value, s[..2])))
  {
    ByteLenAtLeastLength(s);
    TwoCharFromSource(s);
  }

  /** Rule priority, one-character rule: a table character in front that
      does not start a comment or a two-character operator is one token. */
  lemma OneCharFirst(u: UnicodeIdent, s: string)
    requires s != [] && OneCharKind(s[0]).Some?
    requires !StartsWithSlashes(s) && (|s| < 2 || TwoCharKind(s[0], s[1]).None?)
    ensures NextToken(u, s) == Returned(Some(Token(OneCharKind(s[0]).value, s[..1])))
  {
    ByteLenAtLeastLength(s);
    OneCharFromSource(s);
  }

  /** Rule priority, identifier rule: an XID_Start character that no earlier
      rule takes begins an identifier or keyword spanning the following run
      of `n - 1` XID_Continue characters. */
  lemma IdentifierFirst(u: UnicodeIdent, s: string, n: nat)
    requires 0 < n <= |s| && u.isXidStart(s[0])
    requires !IsWhitespace(s[0]) && s[0] != '/' && OneCharKind(s[0]).None?
    requires |s| < 2 || TwoCharKind(s[0], s[1]).None?
    requires forall i :: 1 <= i < n ==> u.isXidContinue(s[i])
    requires n < |s| ==> !u.isXidContinue(s[n])
    ensures NextToken(u, s) == Returned(Some(Token(KeywordKind(s[..n]), s[..n])))
  {
    ByteLenAtLeastLength(s);
    RunUnique(u.isXidContinue, s[1..], n - 1);
  }

  /** The Illegal fallback: a one-byte character that no rule takes is an
      Illegal token of its own. */
  lemma IllegalLast(u: UnicodeIdent, s: string)
    requires s != [] && s[0] as int < 0x80 && !u.isXidStart(s[0])
    requires !IsWhitespace(s[0]) && s[0] != '/' && OneCharKind(s[0]).None?
    requires |s| < 2 || TwoCharKind(s[0], s[1]).None?
    ensures NextToken(u, s) == Returned(Some(Token(Illegal, s[..1])))
  {
    ByteLenAtLeastLength(s);
    SliceOneByte(s);
  }

  /** A digit starts no rule but the fallback: it is an Illegal token of
      its own, whatever follows it. */
  lemma DigitIsIllegal(u: UnicodeIdent, s: string)
    requires AsciiAgrees(u)
    requires s != [] && IsAsciiDigit(s[0])
    ensures NextToken(u, s) == Returned(Some(Token(Illegal, s[..1])))
  {
    IllegalLast(u, s);
  }

  /** A whitespace token is the whole run of whitespace in front of the
      first non-whitespace character, whatever that character starts. */
  lemma WhitespaceTokenIsWholeRun(u: UnicodeIdent, ws: string, rest: string)
    requires ws != [] && AllWhitespace(ws)
    requires rest == [] || !IsWhitespace(rest[0])
    ensures NextToken(u, ws + rest) == Returned(Some(Token(Trivia, ws)))
  {
    var s := ws + rest;
    ByteLenAtLeastLength(s);
    RunUnique(IsWhitespace, s, |ws|);
    assert s[..|ws|] == ws;
  }

  /** No step panics on ASCII input that does not start with `//`. */
  lemma AsciiStepNeverPanics(u: UnicodeIdent, s: string)
    requires s != [] ==> s[0] as int < 0x80
    requires !StartsWithSlashes(s)
    ensures NextToken(u, s) != Panicked
  {
    PanicsExactly(u, s);
  }

  /** ASCII without `//` stays so after a token is taken off the front. */
  lemma AsciiWithoutCommentsSuffix(s: string, k: nat)
    requires k <= |s|
    requires forall i :: 0 <= i < |s| ==> s[i] as int < 0x80
    requires forall i :: 0 <= i < |s| - 1 ==> !(s[i] == '/' && s[i + 1] == '/')
    ensures forall i :: 0 <= i < |s[k..]| ==> s[k..][i] as int < 0x80
    ensures forall i :: 0 <= i < |s[k..]| - 1 ==> !(s[k..][i] == '/' && s[k..][i + 1] == '/')
  {
    assert forall i :: 0 <= i < |s[k..]| ==> s[k..][i] == s[i + k];
  }

  /** On ASCII input with no `//` the lexer never panics, so the tokens
      spell out the whole input. */
  lemma {:induction false} AsciiWithoutCommentsNeverPanics(u: UnicodeIdent, s: string)
    requires forall i :: 0 <= i < |s| ==> s[i] as int < 0x80
    requires forall i :: 0 <= i < |s| - 1 ==> !(s[i] == '/' && s[i + 1] == '/')
    ensures !Tokenize(u, s).panicked
    ensures Texts(Tokenize(u, s).tokens) == s
    decreases |s|
  {
    TokenizeLossless(u, s);
    AsciiStepNeverPanics(u, s);
    if Emitted(NextToken(u, s)) {
      var t := NextToken(u, s).value.value;
      AsciiWithoutCommentsSuffix(s, |t.text|);
      AsciiWithoutCommentsNeverPanics(u, s[|t.text|..]);
      TokenizeCons(u, s, t);
    }
  }
}
