/** The glyph table: which segments each supported character lights, and the
    binary formatting the driver uses to walk a glyph's bits.

    A glyph code is an 8-bit number whose most significant bit is segment A,
    then B, C, D, E, F, G, and whose least significant bit is the decimal
    point P. */
module Glyphs {

  import opened Errors

  /** Codes of '0' .. '9', in character order. */
  const DigitCodes: seq<nat> :=
    [0xFC, 0x60, 0xDA, 0xF2, 0x66, 0xB6, 0xBE, 0xE0, 0xFE, 0xF6]

  /** Codes of 'A' .. 'Z', in character order. */
  const LetterCodes: seq<nat> :=
    [0xEE, 0x3E, 0x9C, 0x7A, 0x9E, 0x8E, 0xBC, 0x6E, 0x0C, 0x70, 0x6E, 0x1C, 0x00,
     0x2A, 0xFC, 0xCE, 0xE6, 0x0A, 0xB6, 0x1E, 0x7C, 0x7C, 0x00, 0x6E, 0x76, 0xDA]

  /** The glyph table: the code of each supported character
      (bit 7 = A ... bit 0 = P), `None` for every other character. */
  function Lookup(c: char): Option<nat>
  {
    if '0' <= c <= '9' then Some(DigitCodes[c as int - '0' as int])
    else if 'A' <= c <= 'Z' then Some(LetterCodes[c as int - 'A' as int])
    else if c == ' ' then Some(0x00)
    else if c == '-' then Some(0x02)
    else if c == '.' then Some(0x01)
    else if c == '*' then Some(0xC6)
    else if c == '_' then Some(0x10)
    else None
  }

  /** `c in CHARS` */
  predicate InTable(c: char)
  {
    Lookup(c).Some?
  }

  /** `CHARS[c]` */
  function Code(c: char): nat
    requires InTable(c)
  {
    Lookup(c).value
  }

  /** The code of the decimal point: only bit 0 (segment P) set. */
  const DotCode: nat := 0x01

  function Pow2(k: nat): (r: nat)
    ensures r >= 1
  {
    if k == 0 then 1 else 2 * Pow2(k - 1)
  }

  /** Bit `k` of `v` (bit 0 is the least significant). */
  predicate TestBit(v: nat, k: nat)
  {
    if k == 0 then v % 2 == 1 else TestBit(v / 2, k - 1)
  }

  /** Python's `'{0:0<width>b}'.format(v)` for `width >= 1`: the binary
      digits of `v`, most significant first, left-padded with '0' to at least
      `width` digits. At width 0 Python still writes "0" for zero, where this
      gives the empty string; the driver only uses width 8. */
  function Binary(v: nat, width: nat): string
    decreases v + width
  {
    if v == 0 && width == 0 then ""
    else Binary(v / 2, if width == 0 then 0 else width - 1) + [if v % 2 == 1 then '1' else '0']
  }

  /** Reads a string of '0'/'1' digits, most significant first. */
  function FromBinary(s: string): nat
  {
    if s == [] then 0
    else 2 * FromBinary(s[..|s| - 1]) + (if s[|s| - 1] == '1' then 1 else 0)
  }

  /** Formatting a number narrower than `width` bits yields exactly `width`
      digits, and digit `width - 1 - k` is '1' exactly when bit `k` is set;
      every other digit is '0'. */
  lemma {:induction false} BinaryDigits(v: nat, width: nat)
    requires v < Pow2(width)
    ensures |Binary(v, width)| == width
    ensures forall k :: 0 <= k < width ==>
      (Binary(v, width)[width - 1 - k] == '1' <==> TestBit(v, k))
    ensures forall j :: 0 <= j < width ==>
      Binary(v, width)[j] == '1' || Binary(v, width)[j] == '0'
    decreases width
  {
    if width == 0 {
    } else {
      var w := width - 1;
      assert v / 2 < Pow2(w);
      BinaryDigits(v / 2, w);
      var s := Binary(v, width);
      assert s == Binary(v / 2, w) + [if v % 2 == 1 then '1' else '0'];
      forall k | 0 <= k < width
        ensures s[width - 1 - k] == '1' <==> TestBit(v, k)
      {
        if k > 0 {
          assert s[width - 1 - k] == Binary(v / 2, w)[w - 1 - (k - 1)];
        }
      }
    }
  }

  /** Reading the formatted digits back gives the number: formatting loses
      nothing, whatever the padding width. */
  lemma {:induction false} BinaryRoundTrip(v: nat, width: nat)
    ensures FromBinary(Binary(v, width)) == v
    decreases v + width
  {
    if v == 0 && width == 0 {
    } else {
      var w := if width == 0 then 0 else width - 1;
      BinaryRoundTrip(v / 2, w);
      var s := Binary(v, width);
      assert s[..|s| - 1] == Binary(v / 2, w);
    }
  }

  /** The table is defined for exactly the digits, the upper-case letters,
      blank, dash, dot, star and underscore, and every code fits in 8 bits. */
  lemma TableDomain()
    ensures forall c :: InTable(c) <==>
      ('0' <= c <= '9' || 'A' <= c <= 'Z' || c == ' ' || c == '-' || c == '.' || c == '*' || c == '_')
    ensures forall c :: InTable(c) ==> Code(c) < 256
  {
  }

  /** The comma, and every lower-case letter, is not in the table. */
  lemma Unsupported()
    ensures !InTable(',')
    ensures forall c :: 'a' <= c <= 'z' ==> !InTable(c)
  {
  }

  /** The characters a seven-segment cell cannot tell apart share a code. */
  lemma LookAlikes()
    ensures Code('K') == Code('H') && Code('X') == Code('H')
    ensures Code('V') == Code('U')
    ensures Code('Z') == Code('2')
    ensures Code('O') == Code('0')
    ensures Code('S') == Code('5')
  {
  }

  /** 'M' and 'W' have no pattern and show blank, like ' '; the dot is
      segment P alone. */
  lemma Blanks()
    ensures Code('M') == 0 && Code('W') == 0 && Code(' ') == 0
    ensures Code('.') == DotCode
  {
  }

  /** The representative of a character's look-alike class. */
  function Canonical(c: char): char
  {
    match c
    case 'K' => 'H' case 'X' => 'H'
    case 'V' => 'U' case 'Z' => '2' case 'O' => '0' case 'S' => '5'
    case 'M' => ' ' case 'W' => ' '
    case _ => c
  }

  /** The character a reader takes a code for: the inverse of the table up
      to look-alikes. */
  function Representative(code: nat): Option<char>
  {
    if code == 0xFC then Some('0') else if code == 0x60 then Some('1')
    else if code == 0xDA then Some('2') else if code == 0xF2 then Some('3')
    else if code == 0x66 then Some('4') else if code == 0xB6 then Some('5')
    else if code == 0xBE then Some('6') else if code == 0xE0 then Some('7')
    else if code == 0xFE then Some('8') else if code == 0xF6 then Some('9')
    else if code == 0xEE then Some('A') else if code == 0x3E then Some('B')
    else if code == 0x9C then Some('C') else if code == 0x7A then Some('D')
    else if code == 0x9E then Some('E') else if code == 0x8E then Some('F')
    else if code == 0xBC then Some('G') else if code == 0x6E then Some('H')
    else if code == 0x0C then Some('I') else if code == 0x70 then Some('J')
    else if code == 0x1C then Some('L') else if code == 0x2A then Some('N')
    else if code == 0xCE then Some('P') else if code == 0xE6 then Some('Q')
    else if code == 0x0A then Some('R') else if code == 0x1E then Some('T')
    else if code == 0x7C then Some('U') else if code == 0x76 then Some('Y')
    else if code == 0x00 then Some(' ') else if code == 0x02 then Some('-')
    else if code == 0x01 then Some('.') else if code == 0xC6 then Some('*')
    else if code == 0x10 then Some('_')
    else None
  }

  /** Reading a character's code back yields the character itself, or the
      representative of its look-alike class. */
  lemma ReadBack(c: char)
    requires InTable(c)
    ensures Representative(Code(c)) == Some(Canonical(c))
    ensures InTable(Canonical(c)) && Code(Canonical(c)) == Code(c)
  {
    if '0' <= c <= '9' {
      DigitsReadBack(c);
    } else if 'A' <= c <= 'M' {
      FirstLettersReadBack(c);
    } else if 'N' <= c <= 'S' {
      MiddleLettersReadBack(c);
    } else if 'T' <= c <= 'Z' {
      LastLettersReadBack(c);
    }
  }

  lemma DigitsReadBack(c: char)
    requires '0' <= c <= '9'
    ensures Representative(Code(c)) == Some(Canonical(c))
    ensures InTable(Canonical(c)) && Code(Canonical(c)) == Code(c)
  {
  }

  lemma FirstLettersReadBack(c: char)
    requires 'A' <= c <= 'M'
    ensures Representative(Code(c)) == Some(Canonical(c))
    ensures InTable(Canonical(c)) && Code(Canonical(c)) == Code(c)
  {
  }

  lemma MiddleLettersReadBack(c: char)
    requires 'N' <= c <= 'S'
    ensures Representative(Code(c)) == Some(Canonical(c))
    ensures InTable(Canonical(c)) && Code(Canonical(c)) == Code(c)
  {
  }

  lemma LastLettersReadBack(c: char)
    requires 'T' <= c <= 'Z'
    ensures Representative(Code(c)) == Some(Canonical(c))
    ensures InTable(Canonical(c)) && Code(Canonical(c)) == Code(c)
  {
  }

  /** Two supported characters share a code exactly when they are
      look-alikes: the aliases above are the only ones. */
  lemma {:induction false} SameCodeIffAlias(a: char, b: char)
    requires InTable(a) && InTable(b)
    ensures Code(a) == Code(b) <==> Canonical(a) == Canonical(b)
  {
    ReadBack(a);
    ReadBack(b);
  }
}
