/** Tokens and their kinds (packages/kora_lexer/src/token.rs). */
module Tokens {
  import opened Wrappers

  /** The closed set of token kinds, in declaration order. */
  datatype TokenKind =
    // Literals.
    | Identifier | IntegerLiteral | FloatLiteral | StringLiteral
    // Arithmetic operators.
    | Equal | EqualEqual | NotEqual | Plus | Minus | Multiply | Divide | Modulo
    | PlusEqual | MinusEqual | MultiplyEqual | DivideEqual | ModuloEqual
    // Logical operators.
    | Not | OrOr | AndAnd | LessThan | GreaterThan | LessThanEqual | GreaterThanEqual
    // Bitwise operators.
    | And | Or | Caret | LessThanLessThan | GreaterThanGreaterThan
    // Punctuation.
    | LeftParenthesis | RightParenthesis | LeftBracket | RightBracket
    | LeftBrace | RightBrace | Comma | Dot | Semicolon | Colon
    // Keywords.
    | Def | Extend | With | If | Else | For | Struct
    // Whitespace or a comment.
    | Trivia
    // A character no rule accepts.
    | Illegal

  /** A token: its kind and the exact slice of source text it covers. */
  datatype Token = Token(kind: TokenKind, text: string)

  /** The text each operator, punctuation and keyword kind stands for, as
      its documentation gives it; None for the kinds whose text varies. */
  function Spelling(k: TokenKind): (r: Option<string>)
    ensures r.None? <==> IsLiteral(k) || k == Trivia || k == Illegal
    ensures r.Some? ==> 1 <= |r.value| <= 6
  {
    match k
    case Identifier | IntegerLiteral | FloatLiteral | StringLiteral | Trivia | Illegal => None
    case Equal => Some("=")
    case EqualEqual => Some("==")
    case NotEqual => Some("!=")
    case Plus => Some("+")
    case Minus => Some("-")
    case Multiply => Some("*")
    case Divide => Some("/")
    case Modulo => Some("%")
    case PlusEqual => Some("+=")
    case MinusEqual => Some("-=")
    case MultiplyEqual => Some("*=")
    case DivideEqual => Some("/=")
    case ModuloEqual => Some("%=")
    case Not => Some("!")
    case OrOr => Some("||")
    case AndAnd => Some("&&")
    case LessThan => Some("<")
    case GreaterThan => Some(">")
    case LessThanEqual => Some("<=")
    case GreaterThanEqual => Some(">=")
    case And => Some("&")
    case Or => Some("|")
    case Caret => Some("^")
    case LessThanLessThan => Some("<<")
    case GreaterThanGreaterThan => Some(">>")
    case LeftParenthesis => Some("(")
    case RightParenthesis => Some(")")
    case LeftBracket => Some("[")
    case RightBracket => Some("]")
    case LeftBrace => Some("{")
    case RightBrace => Some("}")
    case Comma => Some(",")
    case Dot => Some(".")
    case Semicolon => Some(";")
    case Colon => Some(":")
    case Def => Some("def")
    case Extend => Some("extend")
    case With => Some("with")
    case If => Some("if")
    case Else => Some("else")
    case For => Some("for")
    case Struct => Some("struct")
  }

  predicate IsKeyword(k: TokenKind)
  {
    k in {Def, Extend, With, If, Else, For, Struct}
  }

  /** The kinds whose text is not fixed by the kind. */
  predicate IsLiteral(k: TokenKind)
  {
    k in {Identifier, IntegerLiteral, FloatLiteral, StringLiteral}
  }

  /** The concatenated text of a run of tokens. */
  function Texts(ts: seq<Token>): string
  {
    if ts == [] then [] else ts[0].text + Texts(ts[1..])
  }

  lemma {:induction false} TextsAppend(a: seq<Token>, b: seq<Token>)
    ensures Texts(a + b) == Texts(a) + Texts(b)
  {
    if a == [] {
      assert a + b == b;
    } else {
      assert (a + b)[1..] == a[1..] + b;
      TextsAppend(a[1..], b);
    }
  }

  /** A token in front puts its text in front. */
  lemma TextsCons(t: Token, ts: seq<Token>)
    ensures Texts([t] + ts) == t.text + Texts(ts)
  {
    assert ([t] + ts)[1..] == ts;
  }

  /** Appending one token appends exactly its text. */
  lemma TextsSnoc(ts: seq<Token>, t: Token)
    ensures Texts(ts + [t]) == Texts(ts) + t.text
  {
    TextsAppend(ts, [t]);
    assert Texts([t]) == t.text + Texts([]);
  }

  /** Appending one token after a concatenation regroups. Dafny proves
      this unaided; stated apart so that `Collect` need not prove it among
      its many other facts. */
  lemma SnocRegroup(front: seq<Token>, ts: seq<Token>, t: Token)
    ensures front + (ts + [t]) == (front + ts) + [t]
  {
  }
}
