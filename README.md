# Kora lexer, modelled in Dafny

This project models the lexer of the Kora language in
`packages/kora_lexer`. A `Lexer` holds three things: the original source
text, the part not yet lexed, and a list of syntax errors. Each call to
`consume_token` tries six rules in a fixed order:

1. whitespace;
2. a `//` comment;
3. the two-character operator table;
4. the one-character operator and punctuation table;
5. an XID identifier or keyword;
6. a one-byte `Illegal` fallback.

The first rule that matches slices its text off the front of the
unlexed part and returns it as a `Token { kind, text }`. `Iterator::next`
just calls `consume_token`.

Layout:

- `wrappers.dfy` has `Option`. It also has `Exit`: a call either returns a
  value or panics.
- `utf8.dfy` holds the UTF-8 byte widths of characters and texts. It also
  has `CharIndexAt`, which models Rust's `&s[..w]`: slicing at byte
  offset `w` succeeds only on a character boundary within the text.
- `unicode.dfy` has `char::is_whitespace`, written out as the 25 Unicode
  White_Space code points. The XID_Start and XID_Continue tables are a
  parameter, `UnicodeIdent`.
  - `AsciiAgrees` states what Unicode says about the ASCII range. The
    worked examples and `DigitIsIllegal` use it. Every other property
    holds for any identifier tables.
- `token.rs` becomes `token.dfy`: `TokenKind` (all 48 variants, in order)
  and `Token`. It also has `Spelling`, the text that each variant's doc
  comment names.
- `rules.dfy` defines each rule as a function of the unlexed text.
  - It has the three lookup tables and one function per `consume_*`
    method.
  - `NextToken` is `consume_token`.
  - `Tokenize` drains the iterator. Its result records whether the run
    ended in a panic.
- `lexer.dfy` is the `Lexer` class. Its fields follow the struct. It adds a
  ghost record of the tokens returned so far and a constant `unicode` that
  holds the identifier tables. The constructor therefore takes the tables
  as a second argument, where `Lexer::new` takes only the source.
  - Every `consume_*` method changes `sourceCode` and is proved to return
    exactly its rule function: `ConsumeToken` returns `NextToken`,
    `ConsumeTwoCharsToken` returns `TwoCharToken`, `ConsumeOneCharToken`
    returns `OneCharToken`, `ConsumeKeywordOrIdentifierToken` returns
    `IdentifierToken`, and `ConsumeTrivia`, `ConsumeWhitespace` and
    `ConsumeComment` return `TriviaToken`, `WhitespaceToken` and
    `CommentToken`.
  - Every method keeps `Valid()`: the tokens returned so far, followed by
    the unlexed text, spell the original source, and `errors` stays empty.
- `properties.dfy` holds the lemmas about the rules. They cover the tables
  against the doc-comment spellings, the shape of each kind of token, rule
  priority, maximal munch, kinds that are never produced, and exactly when
  a call panics.
- `examples.dfy` proves what the lexer as written returns on concrete
  inputs.
- `corrected.dfy` holds the evidently intended comment, Illegal and `==`
  rules (see "## Findings"). It proves that they lex every input
  losslessly.

Panics are modelled as the outcome `Panicked`, with the state unchanged.
Every slice the lexer takes happens before it assigns anything. The class
and `LexerRules` follow the code as written, panics included. The module
`Corrected` holds the intended definitions.

Where the code's own comments say one thing and its statements another,
the model follows the statements:

- The doc comment on `consume_comment` (lexer.rs line 239) says a comment
  includes its newline. The width it then slices at line 261 starts at 2
  and counts `//` a second time, so `"// hi\n"` at the end of the input
  asks for 8 bytes of a 6-byte text and panics. See
  `LexerExamples.CommentAtEndPanics` and the first row of "## Findings".
- The lexer has no number rule, and a digit is not XID_Start (the check at
  lexer.rs line 155), so a digit is always an Illegal token of its own:
  `x += 1` ends in `Illegal "1"`. See `LexerProperties.DigitIsIllegal` and
  `LexerExamples.CompoundAssignmentOfDigit`.

## Model

| member | source | states |
|---|---|---|
| Tokens.Spelling | packages/kora_lexer/src/token.rs:21-112 | Exactly the kinds with a fixed text have a spelling: every kind but the identifier and literal kinds, Trivia and Illegal. Each spelling is 1 to 6 characters. |
| Utf8.ByteLen | packages/kora_lexer/src/lexer.rs:32 | A text of n characters has at most 4n bytes; the lower bound n is `ByteLenAtLeastLength`. |
| Unicode.IsWhitespace | packages/kora_lexer/src/lexer.rs:211 | On ASCII it holds exactly for space and `\t` through `\r`. No whitespace character is a letter, digit, `_` or `/`. |
| Tokens.TextsAppend | packages/kora_lexer/src/token.rs:1-5 | The texts of two token lists, joined, are the texts of the joined list. |
| Tokens.TextsCons | packages/kora_lexer/src/token.rs:1-5 | A token in front adds its text in front. |
| Tokens.TextsSnoc | packages/kora_lexer/src/token.rs:1-5 | A token at the end adds its text at the end. |
| Utf8.Utf8Len | packages/kora_lexer/src/lexer.rs:159 | A character is 1 to 4 bytes wide in UTF-8. It is 1 byte exactly when it is ASCII. |
| Utf8.ByteLenAtLeastLength | packages/kora_lexer/src/lexer.rs:32-34 | A text has at least as many bytes as characters. It has zero bytes exactly when it is empty, so `len() == 0` is the empty-input test. |
| Utf8.CharIndexAt | packages/kora_lexer/src/lexer.rs:261 | If slicing at a byte offset succeeds, the character count it gives is within the text, and the prefix it gives has exactly that many bytes. |
| Utf8.CharIndexAtExact | packages/kora_lexer/src/lexer.rs:223 | A byte offset slices successfully at k characters exactly when the first k characters have that many bytes. |
| Utf8.CharIndexAtBeyondEnd | packages/kora_lexer/src/lexer.rs:261 | A byte offset beyond the end of the text fails to slice, which is a panic. |
| LexerRules.TwoCharKind | packages/kora_lexer/src/lexer.rs:88-101 | Every entry is an ASCII pair that ends in `=` or doubles its character. No entry starts with whitespace or is `//`, so the table never competes with the trivia rules. `==` has no entry and EqualEqual is never returned. The spellings are `TwoCharTable`. |
| LexerRules.OneCharKind | packages/kora_lexer/src/lexer.rs:115-139 | Every entry is an ASCII character that is no letter, digit, `_` or whitespace, so the table never competes with the identifier or whitespace rules. The spellings are `OneCharTable`. |
| LexerRules.KeywordKind | packages/kora_lexer/src/lexer.rs:172-181 | The lookup yields Identifier or a keyword, and a keyword only when the text is its spelling. The converse is `KeywordTable`. |
| LexerRules.StartsWithSlashes | packages/kora_lexer/src/lexer.rs:242 | It holds exactly when `//` is a prefix of the text. |
| LexerRules.CommentWidth | packages/kora_lexer/src/lexer.rs:246-257 | The width is at least 2 plus the characters through the first newline, and exactly that when those characters are ASCII. |
| LexerRules.Run | packages/kora_lexer/src/lexer.rs:209-217 | The width the loop accumulates covers a prefix whose characters all pass the test. The character after it fails the test. |
| LexerRules.RunUnique | packages/kora_lexer/src/lexer.rs:209-217 | Any prefix length whose characters all pass and that cannot be extended equals the run. |
| LexerRules.LineLength | packages/kora_lexer/src/lexer.rs:249-257 | The comment loop stops after the first newline: it has seen no newline before that point, and the last character before the stop is a newline unless the text ended. |
| LexerRules.LineLengthUnique | packages/kora_lexer/src/lexer.rs:249-257 | That stopping point is unique. |
| LexerRules.WhitespaceToken | packages/kora_lexer/src/lexer.rs:206-237 | There is a token exactly when the text starts with whitespace. The token is Trivia and is the longest all-whitespace prefix. |
| LexerRules.CommentToken | packages/kora_lexer/src/lexer.rs:240-272 | It returns None exactly when the text does not start with `//`. A returned token is a Trivia prefix whose byte width is 2 plus the bytes up to and including the first newline. |
| LexerRules.TriviaToken | packages/kora_lexer/src/lexer.rs:192-203 | It returns None exactly when neither whitespace nor `//` starts the text. A returned token is a nonempty Trivia prefix. |
| LexerRules.TwoCharToken | packages/kora_lexer/src/lexer.rs:83-111 | It returns None exactly when the pair is not in the table. A returned token has the table's kind and is a nonempty prefix 2 bytes long. |
| LexerRules.OneCharToken | packages/kora_lexer/src/lexer.rs:114-146 | It returns None exactly when the character is not in the table. A returned token has the table's kind and is a nonempty prefix 1 byte long. |
| LexerRules.IdentifierToken | packages/kora_lexer/src/lexer.rs:149-187 | There is a token exactly when the first character is XID_Start. It then extends over the maximal run of XID_Continue characters, and its kind is the keyword lookup of its text. |
| LexerRules.IllegalToken | packages/kora_lexer/src/lexer.rs:69-76 | The fallback never returns None. A returned token is a nonempty Illegal prefix 1 byte long. |
| LexerRules.NextToken | packages/kora_lexer/src/lexer.rs:30-80 | It returns None exactly when the unlexed text is empty. Otherwise it returns a token with nonempty text that is a prefix of the unlexed text, or it panics. |
| LexerRules.Tokenize | packages/kora_lexer/src/lexer.rs:275-280 | Draining the iterator never yields more tokens than the input has characters. |
| LexerRules.TokenizeLossless | packages/kora_lexer/src/lexer.rs:275-280 | Losslessness: when the run ends without a panic, the token texts joined in order are exactly the input. |
| LexerRules.TokenizePanicStopsShort | packages/kora_lexer/src/lexer.rs:275-280 | When the run panics, the token texts joined spell a proper prefix of the input. |
| LexerRules.TokenizeCons | packages/kora_lexer/src/lexer.rs:275-280 | Draining the iterator is one call of `next` followed by draining the rest. |
| LexerRules.TokenizeConsRun | packages/kora_lexer/src/lexer.rs:275-280 | A run is its first token followed by the run over the text that token leaves. |
| LexerRules.TokenizeStep | packages/kora_lexer/src/lexer.rs:275-280 | After a returned token, the run continues over what is left. |
| LexerRules.TokenizeStop | packages/kora_lexer/src/lexer.rs:275-280 | The run ends at the first None or panic. |
| KoraLexer.Lexer.Valid | packages/kora_lexer/src/lexer.rs:8-19 | The tokens returned so far and the unlexed text make up the original source, and no error is recorded; then the unlexed text is no longer than the original. |
| KoraLexer.Lexer.UnlexedIsSuffix | packages/kora_lexer/src/lexer.rs:8-19 | Under `Valid()` the unlexed text is the tail of the original source. |
| KoraLexer.Lexer.constructor | packages/kora_lexer/src/lexer.rs:22-28 | Both texts are the input, no token has been returned, no error is recorded, and `Valid()` holds. |
| KoraLexer.Lexer.Take | packages/kora_lexer/src/lexer.rs:104-105 | The slice-then-advance pair every rule ends with, shared by all rules: the token is the first `n` characters of the old unlexed text, the new unlexed text is the rest, the token is appended to the record, and `Valid()` still holds. |
| KoraLexer.Lexer.ConsumeToken | packages/kora_lexer/src/lexer.rs:30-80 | It returns `NextToken` of the old unlexed text. A returned token was sliced off the front, so old text == token text + new text. Otherwise the state is unchanged. It keeps `Valid()`. |
| KoraLexer.Lexer.ConsumeTwoCharsToken | packages/kora_lexer/src/lexer.rs:83-111 | It returns `TwoCharToken` of the old text and the two characters. The same slicing rule holds, and it keeps `Valid()`. |
| KoraLexer.Lexer.ConsumeOneCharToken | packages/kora_lexer/src/lexer.rs:114-146 | It returns `OneCharToken` of the old text and the character. The same slicing rule holds, and it keeps `Valid()`. |
| KoraLexer.Lexer.ConsumeKeywordOrIdentifierToken | packages/kora_lexer/src/lexer.rs:149-187 | Its loop accumulates the width, and it returns `IdentifierToken` of the old text. The same slicing rule holds, and it keeps `Valid()`. |
| KoraLexer.Lexer.ConsumeTrivia | packages/kora_lexer/src/lexer.rs:192-203 | It returns `TriviaToken` of the old text. The same slicing rule holds, and it keeps `Valid()`. |
| KoraLexer.Lexer.ConsumeWhitespace | packages/kora_lexer/src/lexer.rs:206-237 | Its loop accumulates the whitespace width, and it returns `WhitespaceToken` of the old text. The same slicing rule holds, and it keeps `Valid()`. |
| KoraLexer.Lexer.ConsumeComment | packages/kora_lexer/src/lexer.rs:240-272 | Its loop accumulates the comment width from 2, and it returns `CommentToken` of the old text, panic included. The same slicing rule holds, and it keeps `Valid()`. |
| KoraLexer.Lexer.Next | packages/kora_lexer/src/lexer.rs:275-280 | It is `consume_token`: the same result and the same state change. |
| KoraLexer.Lexer.Collect | packages/kora_lexer/src/lexer.rs:275-280 | Draining the iterator yields exactly `Tokenize` of the unlexed text, and the ghost record grows by those tokens. The unlexed text is empty unless the run panicked. |
| LexerProperties.RuleForSets | packages/kora_lexer/src/token.rs:9-117 | The table kind sets are exactly the kinds that the two-character and one-character rules produce. |
| LexerProperties.TableRules | packages/kora_lexer/src/lexer.rs:88-139 | Every table entry and every keyword lookup result belongs to its own rule. |
| LexerProperties.TwoCharEntrySpelled | packages/kora_lexer/src/lexer.rs:88-101 | Every two-character table entry is the documented spelling of the kind it maps to. |
| LexerProperties.TwoCharSpellingEntry | packages/kora_lexer/src/lexer.rs:88-101 | Every kind of the two-character rule is the table entry of its documented spelling. |
| LexerProperties.TwoCharKindsCount | packages/kora_lexer/src/lexer.rs:88-101 | The two-character rule produces 12 kinds. |
| LexerProperties.TwoCharTable | packages/kora_lexer/src/lexer.rs:88-101 | A pair maps to a kind exactly when the pair is that kind's documented spelling, for 12 kinds. EqualEqual, whose spelling is `==`, is not among them. |
| LexerProperties.OneCharEntrySpelled | packages/kora_lexer/src/lexer.rs:115-139 | Every one-character table entry is the documented spelling of the kind it maps to. |
| LexerProperties.OneCharEntryAscii | packages/kora_lexer/src/lexer.rs:115-139 | Every one-character table entry is ASCII. |
| LexerProperties.OneCharSpellingEntry | packages/kora_lexer/src/lexer.rs:115-139 | Every kind of the one-character rule is the table entry of its documented spelling. |
| LexerProperties.OneCharTable | packages/kora_lexer/src/lexer.rs:115-139 | A character maps to a kind exactly when it is that kind's documented spelling. Every entry is ASCII. |
| LexerProperties.OneCharOperatorKindsCount | packages/kora_lexer/src/lexer.rs:116-127 | The one-character table has 12 operator kinds. |
| LexerProperties.PunctuationKindsCount | packages/kora_lexer/src/lexer.rs:128-137 | The one-character table has 10 punctuation kinds. |
| LexerProperties.OneCharKindsDisjoint | packages/kora_lexer/src/lexer.rs:115-139 | No kind is both an operator and punctuation. |
| LexerProperties.OneCharKindsCount | packages/kora_lexer/src/lexer.rs:115-139 | The one-character table has 22 kinds. |
| LexerProperties.KeywordTable | packages/kora_lexer/src/lexer.rs:172-181 | A text gets a keyword kind exactly when it is that keyword's documented spelling. Otherwise it gets Identifier, which happens exactly for the texts outside the seven keywords. |
| LexerProperties.AsciiSlice | packages/kora_lexer/src/lexer.rs:104 | An ASCII prefix can be sliced by its byte count. |
| LexerProperties.TwoCharFromSource | packages/kora_lexer/src/lexer.rs:104-105 | A table pair is ASCII, so the two-byte slice succeeds and takes exactly those two characters. |
| LexerProperties.OneCharFromSource | packages/kora_lexer/src/lexer.rs:140-141 | A table character is ASCII, so the one-byte slice succeeds and takes exactly that character. |
| LexerProperties.SliceOneByte | packages/kora_lexer/src/lexer.rs:71 | The one-byte slice succeeds exactly when the first character is 1 byte wide. |
| LexerProperties.TriviaRuleFired | packages/kora_lexer/src/lexer.rs:36-40 | A Trivia token is what the trivia rule returned. |
| LexerProperties.TwoCharRuleFired | packages/kora_lexer/src/lexer.rs:47-55 | A two-character kind comes only from the two-character rule, after trivia declined. |
| LexerProperties.OneCharRuleFired | packages/kora_lexer/src/lexer.rs:57-61 | A one-character kind comes only from the one-character rule, after trivia and the pair table declined. |
| LexerProperties.IdentifierRuleFired | packages/kora_lexer/src/lexer.rs:63-67 | An identifier or keyword kind comes only from the identifier rule, after trivia and both tables declined. |
| LexerProperties.IllegalRuleFired | packages/kora_lexer/src/lexer.rs:69-76 | An Illegal token comes only from the fallback, after every other rule declined. |
| LexerProperties.SomeRuleFired | packages/kora_lexer/src/lexer.rs:30-80 | Every returned token has a kind that some rule produces. |
| LexerProperties.TwoCharTokens | packages/kora_lexer/src/lexer.rs:47-55 | A two-character token is the first two characters, spelled as its doc comment says. It is never taken over whitespace or `//`. |
| LexerProperties.OneCharTokens | packages/kora_lexer/src/lexer.rs:57-61 | A one-character token is the first character, spelled as documented. It is taken only where no `//` and no table pair starts the text. |
| LexerProperties.IdentifierTokenShape | packages/kora_lexer/src/lexer.rs:149-187 | The identifier rule's token is an XID_Start character and the maximal XID_Continue run after it, with the keyword lookup of its text as kind. |
| LexerProperties.KeywordTokenText | packages/kora_lexer/src/lexer.rs:172-181 | A token classified by the keyword lookup is Identifier only off the seven keywords, and a keyword only under its own spelling. |
| LexerProperties.IdentifierTokens | packages/kora_lexer/src/lexer.rs:149-187 | An identifier or keyword token starts with XID_Start and extends over the maximal XID_Continue run. Its kind is the keyword lookup of its text. Identifier text is never a keyword, and keyword text is its spelling. |
| LexerProperties.ProducedKinds | packages/kora_lexer/src/token.rs:13-24 | No returned token is IntegerLiteral, FloatLiteral, StringLiteral or EqualEqual. Every kind with a documented spelling has exactly that text. |
| LexerProperties.TriviaTokenShape | packages/kora_lexer/src/lexer.rs:192-203 | The trivia rule's token is either a maximal whitespace run or a comment of the comment rule's width, never both. |
| LexerProperties.TriviaTokens | packages/kora_lexer/src/lexer.rs:189-203 | A Trivia token is either all whitespace or a comment, never both. A whitespace token is the maximal run. A comment token has the comment rule's byte width. |
| LexerProperties.IllegalTokens | packages/kora_lexer/src/lexer.rs:69-76 | An Illegal token is exactly the first character, and that character is 1 byte wide. No earlier rule applies to it. |
| LexerProperties.PanicsExactly | packages/kora_lexer/src/lexer.rs:30-80 | `consume_token` panics exactly when there is a `//` comment whose width is not a character boundary, or when a multi-byte character matches no rule. |
| LexerProperties.CommentOverrun | packages/kora_lexer/src/lexer.rs:247-257 | A returned comment token runs past the first line, by exactly 2 bytes. |
| LexerProperties.CommentPanics | packages/kora_lexer/src/lexer.rs:261 | The comment slice panics when fewer than 2 bytes follow the first newline, or when there is no newline. |
| LexerProperties.CommentWithTwoAsciiAfter | packages/kora_lexer/src/lexer.rs:247-262 | When two ASCII characters follow the newline, the comment token is the line plus those two characters. |
| LexerProperties.CommentFirst | packages/kora_lexer/src/lexer.rs:36-40 | A text starting with `//` is decided by the comment rule alone. |
| LexerProperties.TwoCharFirst | packages/kora_lexer/src/lexer.rs:49-55 | A table pair in front is one two-character token. |
| LexerProperties.OneCharFirst | packages/kora_lexer/src/lexer.rs:57-61 | A table character with no table pair and no `//` in front is one one-character token. |
| LexerProperties.IdentifierFirst | packages/kora_lexer/src/lexer.rs:63-67 | An XID_Start character that no operator rule takes starts the maximal identifier, classified by the keyword table. |
| LexerProperties.IllegalLast | packages/kora_lexer/src/lexer.rs:69-76 | An ASCII character that no rule takes is one Illegal token. |
| LexerProperties.DigitIsIllegal | packages/kora_lexer/src/lexer.rs:69-76 | When the identifier tables agree with Unicode on ASCII, a digit in front is always one Illegal token, whatever follows it. |
| LexerProperties.WhitespaceTokenIsWholeRun | packages/kora_lexer/src/lexer.rs:206-226 | A whitespace run followed by non-whitespace is exactly one token. |
| LexerProperties.AsciiStepNeverPanics | packages/kora_lexer/src/lexer.rs:30-80 | A step on text that starts with an ASCII character and not with `//` never panics. |
| LexerProperties.AsciiWithoutCommentsNeverPanics | packages/kora_lexer/src/lexer.rs:275-280 | On ASCII text without `//`, lexing never panics, and the tokens spell the whole input. |
| LexerExamples.AndAndIsOneToken | packages/kora_lexer/src/lexer.rs:94 | `&&` is one AndAnd token. |
| LexerExamples.EqualEqualIsTwoEquals | packages/kora_lexer/src/lexer.rs:88-101 | `==` is two Equal tokens. |
| LexerExamples.SlashEqualIsDivideEqual | packages/kora_lexer/src/lexer.rs:92 | `/=` is DivideEqual, not a comment and not Divide. |
| LexerExamples.IfxIsOneIdentifier | packages/kora_lexer/src/lexer.rs:162-181 | `ifx` is one Identifier. |
| LexerExamples.APlusB | packages/kora_lexer/src/lexer.rs:30-80 | `a+b` is Identifier, Plus, Identifier. |
| LexerExamples.CompoundAssignmentOfDigit | packages/kora_lexer/src/lexer.rs:69-76 | `x += 1` lexes to Identifier, Trivia, PlusEqual, Trivia, Illegal `1`. |
| LexerExamples.UnderscoreIsIllegal | packages/kora_lexer/src/lexer.rs:155 | `_x` is Illegal `_` then Identifier `x`. |
| LexerExamples.CommentAtEndPanics | packages/kora_lexer/src/lexer.rs:247-262 | `// hi` followed by its newline, at the end of the input, panics. |
| LexerExamples.CommentSwallowsNextLine | packages/kora_lexer/src/lexer.rs:247-262 | In `// hi`, newline, `ab`, the comment token takes `ab` too. |
| LexerExamples.WhitespaceThenComment | packages/kora_lexer/src/lexer.rs:189-203 | Whitespace and the comment after it are two separate Trivia tokens. |
| LexerExamples.EuroSignPanics | packages/kora_lexer/src/lexer.rs:71 | A `€` that is not XID_Start panics at the one-byte slice. |
| Corrected.CorrectedCommentToken | packages/kora_lexer/src/lexer.rs:239-244 | A comment runs from `//` to the first newline, which it includes, or to the end of the text. |
| Corrected.CommentTwoBytesTooLong | packages/kora_lexer/src/lexer.rs:247-257 | Whenever the comment rule as written returns a token, that token is the intended one plus 2 bytes. |
| Corrected.CorrectedTwoCharKind | packages/kora_lexer/src/token.rs:23-24 | Every entry of the corrected table is its kind's documented spelling, and EqualEqual is the entry for `==` and for no other pair. |
| Corrected.CorrectedTwoCharTable | packages/kora_lexer/src/token.rs:23-24 | With `==` added, a pair maps to a kind exactly when it is that kind's documented spelling, EqualEqual included. |
| Corrected.CorrectedIllegalToken | packages/kora_lexer/src/lexer.rs:69-70 | An illegal token is one whole character, of whatever width. |
| Corrected.CorrectedNextToken | packages/kora_lexer/src/lexer.rs:30-80 | It returns None exactly on empty text. Otherwise it returns a nonempty prefix and never panics. |
| Corrected.SameStepElsewhere | packages/kora_lexer/src/lexer.rs:30-80 | Away from `//`, `==` and a multi-byte character that matches no rule, the lexer as written takes the corrected step. |
| Corrected.CorrectedTokenize | packages/kora_lexer/src/lexer.rs:275-280 | Draining with the corrected rules never yields more tokens than the input has characters. |
| Corrected.CorrectedLossless | packages/kora_lexer/src/lexer.rs:275-280 | With the corrected rules, the tokens spell the whole input, for every input. |
| Corrected.CorrectedCommentAtEnd | packages/kora_lexer/src/lexer.rs:239 | `// hi` followed by its newline is one Trivia token. |
| Corrected.CorrectedEqualEqual | packages/kora_lexer/src/token.rs:23-24 | `==` is one EqualEqual token. |
| Corrected.CorrectedEuroSign | packages/kora_lexer/src/lexer.rs:69-70 | `€` that is not XID_Start is one Illegal token. |

## Left out

- The XID_Start and XID_Continue tables of the `unicode_ident` crate are foreign. They are a parameter, `UnicodeIdent`, and `AsciiAgrees` states their ASCII facts for the examples and `DigitIsIllegal`. `KoraLexer.Lexer.constructor` takes them as a second argument, which `Lexer::new` does not have.
- `char::is_whitespace` is written out from Unicode's White_Space property rather than taken from the Rust standard library.
- Rust lifetimes and zero-copy borrowing are not modelled. Token texts are sequences rather than slices of the original.
- UTF-8 validity of `&str` is not modelled. Texts are sequences of Unicode scalar values, and their byte widths are computed.
- `SyntaxError` is opaque. Its definition is not part of this model, and no code path records one. `Valid()` keeps `errors` empty.
- KoraLexer.Lexer.ConsumeComment: the `comment_width > 0` else branch is dead, because the width starts at 2, so it is not modelled.
- KoraLexer.Lexer.ConsumeToken: the `None => return None` arm is dead, because the text was just found nonempty, so it is not modelled.
- KoraLexer.Lexer.Collect: a client-side model of `collect::<Vec<_>>()`. A panic ends the run, and its flag replaces unwinding.
- A panic is an outcome, not an abort: the state is unchanged and nothing after it runs.
- `packages/kora_cli/src/main.rs` is a REPL doing terminal I/O, with no lexing. It is not part of this model.
- `packages/kora_lexer/tests/test_lexer.rs` compares snapshots of input files that are not part of this model. `LexerExamples` gives concrete runs instead.
- `packages/kora_lexer/src/lib.rs` only declares modules and re-exports them.

## Findings

| source | as written | input that shows it | evidently intended | confidence | as-written member | corrected member |
|---|---|---|---|---|---|---|
| packages/kora_lexer/src/lexer.rs:247-257 | `comment_width` starts at 2 for `//`, then the loop adds the bytes of `//` again. Every comment token runs 2 bytes past its newline, and the slice panics when fewer than 2 bytes follow the newline. | `// hi` followed by its newline, at the end of the input, panics. `// hi`, newline, `ab` yields one Trivia token containing `ab`. | The comment ends at and includes its newline, as the doc comment at line 239 says. | not executed | LexerExamples.CommentAtEndPanics | Corrected.CorrectedCommentToken |
| packages/kora_lexer/src/lexer.rs:71-72 | The Illegal fallback slices one byte. | `€`, which is 3 bytes wide and not XID_Start, panics. | The illegal token is the whole next character, as the comment at lines 69-70 says. | not executed | LexerExamples.EuroSignPanics | Corrected.CorrectedIllegalToken |
| packages/kora_lexer/src/lexer.rs:88-101 | The two-character table has no `==` entry, so EqualEqual is never produced. | `==` lexes to two Equal tokens. | `==` is EqualEqual, the kind token.rs declares and documents. | not executed | LexerExamples.EqualEqualIsTwoEquals | Corrected.CorrectedTwoCharTable |
