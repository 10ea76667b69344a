/** The character classes the lexer asks about. */
module Unicode {

  /** Rust's `char::is_whitespace`: the Unicode White_Space property, which
      holds of exactly these 25 code points. */
  predicate IsWhitespace(c: char): (b: bool)
    ensures c as int < 0x80 ==> (b <==> c == ' ' || '\t' <= c <= '\r')
    ensures b ==> !IsAsciiLetter(c) && !IsAsciiDigit(c) && c != '_' && c != '/'
  {
    var n := c as int;
    (0x09 <= n <= 0x0D) || n == 0x20 || n == 0x85 || n == 0xA0 || n == 0x1680
    || (0x2000 <= n <= 0x200A) || n == 0x2028 || n == 0x2029 || n == 0x202F
    || n == 0x205F || n == 0x3000
  }

  /** The XID_Start and XID_Continue tables of the `unicode_ident` crate.
      They are large generated tables outside this model, so the lexer is
      parameterised by them. */
  datatype UnicodeIdent = UnicodeIdent(isXidStart: char -> bool, isXidContinue: char -> bool)

  predicate IsAsciiLetter(c: char)
  {
    'a' <= c <= 'z' || 'A' <= c <= 'Z'
  }

  predicate IsAsciiDigit(c: char)
  {
    '0' <= c <= '9'
  }

  /** What the Unicode standard says of the ASCII range: XID_Start is the
      ASCII letters (not `_`, not digits), XID_Continue adds digits and `_`. */
  ghost predicate AsciiAgrees(u: UnicodeIdent)
  {
    && (forall c: char :: c as int < 0x80 ==> (u.isXidStart(c) <==> IsAsciiLetter(c)))
    && (forall c: char :: c as int < 0x80 ==>
          (u.isXidContinue(c) <==> IsAsciiLetter(c) || IsAsciiDigit(c) || c == '_'))
  }
}
