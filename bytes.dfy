/**
 * Octets and the byte classes the keymap lexer tests them against: the two
 * helpers isOcta and isHex, and hand-written predicates in place of the four
 * anchored regular expressions AltIsMetaRe, HexRe, UnicodeRe and LiteralRe.
 */
module Bytes {

  /** An octet. It is written as the character with the same code (0..255),
      so that the lexer's byte constants ('0', '"', '\n') read as they do in
      the source and a keyword spelling is simply a string literal. */
  type byte = c: char | c as int < 256 witness '\0'

  /** isOcta: an octal digit. */
  predicate IsOcta(c: byte) {
    '0' <= c <= '7'
  }

  /** isHex: a hexadecimal digit of either case. */
  predicate IsHex(c: byte) {
    '0' <= c <= '9' || 'a' <= c <= 'f' || 'A' <= c <= 'F'
  }

  /** The two classes as the sets of bytes they accept. */
  lemma ByteClasses(c: byte)
    ensures IsOcta(c) <==> c in "01234567"
    ensures IsHex(c) <==> c in "0123456789abcdefABCDEF"
  {
  }

  /** The class [0-9]. */
  predicate IsDigit(c: byte) {
    '0' <= c <= '9'
  }

  /** The class [a-zA-Z]. */
  predicate IsLetter(c: byte) {
    'a' <= c <= 'z' || 'A' <= c <= 'Z'
  }

  /** ^[aA][lL][tT][-_][iI][sS][-_][mM][eE][tT][aA]$ */
  predicate MatchesAltIsMeta(b: seq<byte>) {
    |b| == 11 &&
    b[0] in "aA" && b[1] in "lL" && b[2] in "tT" && b[3] in "-_" &&
    b[4] in "iI" && b[5] in "sS" && b[6] in "-_" &&
    b[7] in "mM" && b[8] in "eE" && b[9] in "tT" && b[10] in "aA"
  }

  /** ^0[xX][0-9a-fA-F]+$ */
  predicate MatchesHex(b: seq<byte>) {
    |b| >= 3 && b[0] == '0' && b[1] in "xX" &&
    forall i | 2 <= i < |b| :: IsHex(b[i])
  }

  /** ^U[+]([0-9a-fA-F]){4}$ */
  predicate MatchesUnicode(b: seq<byte>) {
    |b| == 6 && b[0] == 'U' && b[1] == '+' &&
    forall i | 2 <= i < 6 :: IsHex(b[i])
  }

  /** ^[a-zA-Z][a-zA-Z_0-9]*$ */
  predicate MatchesLiteral(b: seq<byte>) {
    |b| >= 1 && IsLetter(b[0]) &&
    forall i | 1 <= i < |b| :: IsLetter(b[i]) || b[i] == '_' || IsDigit(b[i])
  }

  /** A hex numeral stays one while hex digits are appended, and stops
      being one at the first other byte: the basis of the greedy hex rule. */
  lemma HexExtends(b: seq<byte>, c: byte)
    requires MatchesHex(b)
    ensures MatchesHex(b + [c]) <==> IsHex(c)
  {
    if IsHex(c) {
      forall i | 2 <= i < |b + [c]| ensures IsHex((b + [c])[i]) {
        if i < |b| { assert (b + [c])[i] == b[i]; }
      }
    } else {
      assert (b + [c])[|b|] == c;
    }
  }

  /** The numeric patterns are disjoint from each other and from the
      identifier pattern, so the order in which the lexer tries them decides
      nothing among them. (alt_is_meta, by contrast, is also an identifier.) */
  lemma PatternsDisjoint(b: seq<byte>)
    ensures !(MatchesUnicode(b) && MatchesHex(b))
    ensures !(MatchesUnicode(b) && MatchesLiteral(b))
    ensures !(MatchesHex(b) && MatchesLiteral(b))
    ensures !(MatchesAltIsMeta(b) && (MatchesHex(b) || MatchesUnicode(b)))
  {
  }
}
