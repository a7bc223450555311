/** Byte classifiers of the RFC 5322 addr-spec parser (rfc5322.c, rfc5322.h).
    A C `char` is modelled as a byte 0..255; under either signedness of `char`
    every classifier is false for bytes 128..255, so the choice does not matter. */
module Chars {

  type Byte = b: int | 0 <= b < 256

  const NUL: Byte := 0
  const HTAB: Byte := 9
  const LF: Byte := 10
  const CR: Byte := 13
  const SP: Byte := 32
  const DQUOTE: Byte := 34
  const LPAREN: Byte := 40
  const RPAREN: Byte := 41
  const DOT: Byte := 46
  const AT: Byte := 64
  const LBRACKET: Byte := 91
  const BACKSLASH: Byte := 92
  const RBRACKET: Byte := 93

  /** atext: letters, digits and the switch of specials (rfc5322.c:3-34). */
  predicate IsAtext(c: Byte) {
    if 'A' as int <= c <= 'Z' as int then true
    else if 'a' as int <= c <= 'z' as int then true
    else if '0' as int <= c <= '9' as int then true
    else (c == '!' as int || c == '#' as int || c == '$' as int || c == '%' as int
          || c == '&' as int || c == '\'' as int || c == '*' as int || c == '+' as int
          || c == '-' as int || c == '/' as int || c == '=' as int || c == '?' as int
          || c == '^' as int || c == '_' as int || c == '`' as int || c == '{' as int
          || c == '}' as int || c == '|' as int || c == '~' as int)
  }

  /** The WSP macro: space or horizontal tab. */
  predicate IsWsp(c: Byte) {
    c == SP || c == HTAB
  }

  /** obs-NO-WS-CTL (rfc5322.c:68-80). */
  predicate IsObsNoWsCtl(c: Byte) {
    if 1 <= c <= 8 then true
    else if 14 <= c <= 31 then true
    else c == 11 || c == 12 || c == 127
  }

  /** ctext: the exclusions are checked first, then the printable range,
      then the obsolete controls (rfc5322.c:82-91). */
  predicate IsCtext(c: Byte) {
    if c == LPAREN || c == RPAREN || c == BACKSLASH then false
    else if 33 <= c <= 126 then true
    else IsObsNoWsCtl(c)
  }

  /** The VCHAR macro of RFC 5234 appendix B.1. */
  predicate IsVchar(c: Byte) {
    0x21 <= c <= 0x7e
  }

  /** qtext (rfc5322.c:171-179). */
  predicate IsQtext(c: Byte) {
    if c == DQUOTE || c == BACKSLASH then false
    else if 33 <= c <= 126 then true
    else IsObsNoWsCtl(c)
  }

  /** dtext, without quoted-pairs (rfc5322.c:246-255). */
  predicate IsDtext(c: Byte) {
    if c == LBRACKET || c == RBRACKET || c == BACKSLASH then false
    else if 33 <= c <= 126 then true
    else IsObsNoWsCtl(c)
  }

  /** The 19 specials that RFC 5322 section 3.2.3 admits in atext besides letters and digits. */
  const AtextSpecials: string := "!#$%&'*+-/=?^_`{|}~"

  ghost predicate RfcAtext(c: Byte) {
    ('A' as int <= c <= 'Z' as int) || ('a' as int <= c <= 'z' as int)
    || ('0' as int <= c <= '9' as int)
    || exists k :: 0 <= k < |AtextSpecials| && AtextSpecials[k] as int == c
  }

  lemma AtextExactly(c: Byte)
    ensures IsAtext(c) <==> RfcAtext(c)
  {
    if IsAtext(c) && !(('A' as int <= c <= 'Z' as int) || ('a' as int <= c <= 'z' as int)
      || ('0' as int <= c <= '9' as int))
    {
      var k :| 0 <= k < 19 && k < |AtextSpecials| && AtextSpecials[k] as int == c
        by {
          if c == '!' as int { assert AtextSpecials[0] as int == c; }
          else if c == '#' as int { assert AtextSpecials[1] as int == c; }
          else if c == '$' as int { assert AtextSpecials[2] as int == c; }
          else if c == '%' as int { assert AtextSpecials[3] as int == c; }
          else if c == '&' as int { assert AtextSpecials[4] as int == c; }
          else if c == '\'' as int { assert AtextSpecials[5] as int == c; }
          else if c == '*' as int { assert AtextSpecials[6] as int == c; }
          else if c == '+' as int { assert AtextSpecials[7] as int == c; }
          else if c == '-' as int { assert AtextSpecials[8] as int == c; }
          else if c == '/' as int { assert AtextSpecials[9] as int == c; }
          else if c == '=' as int { assert AtextSpecials[10] as int == c; }
          else if c == '?' as int { assert AtextSpecials[11] as int == c; }
          else if c == '^' as int { assert AtextSpecials[12] as int == c; }
          else if c == '_' as int { assert AtextSpecials[13] as int == c; }
          else if c == '`' as int { assert AtextSpecials[14] as int == c; }
          else if c == '{' as int { assert AtextSpecials[15] as int == c; }
          else if c == '|' as int { assert AtextSpecials[16] as int == c; }
          else if c == '}' as int { assert AtextSpecials[17] as int == c; }
          else { assert AtextSpecials[18] as int == c; }
        }
    }
  }

  /** ctext, qtext and dtext are VCHAR minus their delimiters, plus obs-NO-WS-CTL. */
  lemma TextClassesExactly(c: Byte)
    ensures IsCtext(c) <==> (IsVchar(c) && c != LPAREN && c != RPAREN && c != BACKSLASH) || IsObsNoWsCtl(c)
    ensures IsQtext(c) <==> (IsVchar(c) && c != DQUOTE && c != BACKSLASH) || IsObsNoWsCtl(c)
    ensures IsDtext(c) <==> (IsVchar(c) && c != LBRACKET && c != RBRACKET && c != BACKSLASH) || IsObsNoWsCtl(c)
    ensures IsObsNoWsCtl(c) <==> (1 <= c <= 8 || c == 11 || c == 12 || 14 <= c <= 31 || c == 127)
  {
  }

  /** No text class admits NUL, HTAB, LF, CR, SP or a byte of 128 or more. */
  lemma ClassesExcludeSeparators(c: Byte)
    requires c == NUL || c == HTAB || c == LF || c == CR || c == SP || c >= 128
    ensures !IsAtext(c) && !IsCtext(c) && !IsQtext(c) && !IsDtext(c)
    ensures !IsObsNoWsCtl(c) && !IsVchar(c)
  {
  }

  /** An atext byte opens no other token and is no separator. */
  lemma AtextIsNoDelimiter(c: Byte)
    requires IsAtext(c)
    ensures !IsWsp(c) && c != NUL && c != CR && c != LF
    ensures c != LPAREN && c != RPAREN && c != DQUOTE && c != LBRACKET && c != RBRACKET
    ensures c != DOT && c != AT && c != BACKSLASH
  {
  }
}
