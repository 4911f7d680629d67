/** The per-digit setters: `setDigitSegment` merges one segment into a digit,
    `setDigit` replaces a digit by a glyph, `setComma` replaces it by the dot. */
module Buffer {

  import opened Errors
  import opened Masks
  import opened Glyphs
  import opened SevSeg

  /** The state of the display after a setter returns (`Done`) or raises
      (`Raised`); a raising setter may already have changed the buffer. */
  datatype Outcome = Done(display: Display) | Raised(error: Error, display: Display)

  /** The pins of the segments a glyph code lights: segment `j` (A = 0 ...
      P = 7) is lit when bit `7 - j` of the code is set. */
  function LitPins(c: Config, code: nat): Mask
    requires |c.segments| == 8
  {
    set j | 0 <= j < 8 && TestBit(code, 7 - j) :: c.segments[j]
  }

  /** The mask a supported character shows. */
  function Glyph(c: Config, ch: char): Mask
    requires |c.segments| == 8 && InTable(ch)
  {
    LitPins(c, Code(ch))
  }

  /** Reads a buffer entry back as a glyph code: bit `7 - j` is set when
      segment `j`'s pin is in the mask. */
  function Decode(c: Config, m: Mask): nat
    requires |c.segments| == 8
  {
    FromBinary(seq(8, j requires 0 <= j < 8 => if c.segments[j] in m then '1' else '0'))
  }

  /** `setDigitSegment(digit, segment)`: ORs one segment's pin into a digit. */
  function SetDigitSegment(d: Display, digit: nat, segment: nat): (r: Outcome)
    requires Valid(d)
    ensures Valid(r.display) && r.display.config == d.config
    ensures r.Done? <==> digit < |d.buffer| && segment < 8
    ensures r.Raised? ==> r.display == d
    ensures digit >= |d.buffer| ==> r.Raised? && r.error == DigitOutOfRange
    ensures digit < |d.buffer| && segment >= 8 ==> r.Raised? && r.error == SegmentOutOfRange
    ensures r.Done? ==>
      && (forall k :: 0 <= k < |d.buffer| && k != digit ==> r.display.buffer[k] == d.buffer[k])
      && (forall p :: p in r.display.buffer[digit] <==> p in d.buffer[digit] || p == d.config.segments[segment])
  {
    if digit > |d.config.digits| - 1 then Raised(DigitOutOfRange, d)
    else if segment > |d.config.segments| - 1 then Raised(SegmentOutOfRange, d)
    else
      var entry := d.buffer[digit] + d.config.segmentsBin[segment];
      Done(d.(buffer := d.buffer[digit := entry]))
  }

  /** The loop of `setDigit` over the formatted glyph: for each position `i`
      holding '1', `setDigitSegment(digit, i)`. */
  function OverlayBits(d: Display, digit: nat, bits: string, i: nat): (r: Outcome)
    requires Valid(d) && digit < |d.buffer| && i <= |bits| <= 8
    ensures r.Done? && Valid(r.display) && r.display.config == d.config
    ensures forall k :: 0 <= k < |d.buffer| && k != digit ==> r.display.buffer[k] == d.buffer[k]
    ensures forall p :: p in r.display.buffer[digit] <==>
      p in d.buffer[digit] || exists j :: i <= j < |bits| && bits[j] == '1' && p == d.config.segments[j]
    decreases |bits| - i
  {
    if i == |bits| then Done(d)
    else if bits[i] == '1' then
      match SetDigitSegment(d, digit, i)
      case Raised(e, d') => Raised(e, d')
      case Done(d') => OverlayBits(d', digit, bits, i + 1)
    else OverlayBits(d, digit, bits, i + 1)
  }

  /** Overlaying the formatted code of a glyph onto an empty entry yields
      exactly the glyph's pins. */
  lemma OverlayGlyph(d: Display, digit: nat, code: nat)
    requires Valid(d) && digit < |d.buffer| && d.buffer[digit] == {} && code < 256
    ensures |Binary(code, 8)| == 8
    ensures OverlayBits(d, digit, Binary(code, 8), 0).display.buffer == d.buffer[digit := LitPins(d.config, code)]
  {
    BinaryDigits(code, 8);
    var bits := Binary(code, 8);
    var r := OverlayBits(d, digit, bits, 0).display;
    var lit := LitPins(d.config, code);
    forall p
      ensures p in r.buffer[digit] <==> p in lit
    {
      if p in lit {
        var j :| 0 <= j < 8 && TestBit(code, 7 - j) && p == d.config.segments[j];
        assert bits[8 - 1 - (7 - j)] == '1';
      }
      if p in r.buffer[digit] {
        var j :| 0 <= j < 8 && bits[j] == '1' && p == d.config.segments[j];
        assert bits[8 - 1 - (7 - j)] == '1';
      }
    }
    assert r.buffer[digit] == lit;
  }

  /** `setDigit(digit, ch)`: replaces the digit's entry by the glyph of `ch`.
      The earlier content is discarded; an out-of-range digit or an
      unsupported character raises and changes nothing. */
  function SetDigit(d: Display, digit: nat, ch: char): (r: Outcome)
    requires Valid(d)
    ensures Valid(r.display) && r.display.config == d.config
    ensures r.Done? <==> digit < |d.buffer| && InTable(ch)
    ensures r.Raised? ==> r.display == d
    ensures digit >= |d.buffer| ==> r.Raised? && r.error == DigitOutOfRange
    ensures digit < |d.buffer| && !InTable(ch) ==> r.Raised? && r.error == UnsupportedCharacter([ch])
    ensures r.Done? ==> r.display.buffer == d.buffer[digit := Glyph(d.config, ch)]
  {
    if digit > |d.config.digits| - 1 then Raised(DigitOutOfRange, d)
    else if !InTable(ch) then Raised(UnsupportedCharacter([ch]), d)
    else
      var cleared := d.(buffer := d.buffer[digit := {}]);
      TableDomain();
      OverlayGlyph(cleared, digit, Code(ch));
      OverlayBits(cleared, digit, Binary(Code(ch), 8), 0)
  }

  /** `setDigit(digit, character)` as the driver receives it: the character
      is a string, and only a one-character string that the table holds is a
      key. Any other string, the empty one included, passes the type check
      and is refused as unsupported, after the range check. */
  function SetDigitText(d: Display, digit: nat, text: string): (r: Outcome)
    requires Valid(d)
    ensures Valid(r.display) && r.display.config == d.config
    ensures r.Done? <==> digit < |d.buffer| && |text| == 1 && InTable(text[0])
    ensures r.Raised? ==> r.display == d
    ensures digit >= |d.buffer| ==> r.Raised? && r.error == DigitOutOfRange
    ensures digit < |d.buffer| && !(|text| == 1 && InTable(text[0])) ==>
      r.Raised? && r.error == UnsupportedCharacter(text)
    ensures r.Done? ==> r.display.buffer == d.buffer[digit := Glyph(d.config, text[0])]
  {
    if |text| == 1 then
      assert [text[0]] == text;
      SetDigit(d, digit, text[0])
    else if digit > |d.config.digits| - 1 then Raised(DigitOutOfRange, d)
    else Raised(UnsupportedCharacter(text), d)
  }

  /** The pins the dot lights: the decimal-point segment alone. */
  lemma DotPins(c: Config)
    requires |c.segments| == 8
    ensures Glyph(c, '.') == {c.segments[7]}
  {
    var g := Glyph(c, '.');
    assert TestBit(1, 0);
    forall k | 1 <= k <= 7
      ensures !TestBit(1, k)
    {
      assert TestBit(1, k) == TestBit(0, k - 1);
      ZeroHasNoBits(k - 1);
    }
    assert c.segments[7] in g;
  }

  lemma {:induction false} ZeroHasNoBits(k: nat)
    ensures !TestBit(0, k)
  {
    if k > 0 {
      ZeroHasNoBits(k - 1);
    }
  }

  /** `setComma(digit)`: the same as `setDigit(digit, ".")`, so the digit
      shows the dot alone and its glyph is lost. */
  function SetComma(d: Display, digit: nat): (r: Outcome)
    requires Valid(d)
    ensures r == SetDigit(d, digit, '.') == SetDigitText(d, digit, ".")
    ensures r.Done? <==> digit < |d.buffer|
    ensures r.Raised? ==> r.display == d && r.error == DigitOutOfRange
    ensures r.Done? ==> r.display.buffer == d.buffer[digit := {d.config.segments[7]}]
  {
    DotPins(d.config);
    if digit > |d.config.digits| - 1 then Raised(DigitOutOfRange, d)
    else SetDigit(d, digit, '.')
  }

  /** Reading a glyph's mask back gives its code, when the segment pins are
      distinct: what `setDigit` stores is exactly the table entry. */
  lemma {:induction false} DecodeGlyph(c: Config, code: nat)
    requires |c.segments| == 8 && code < 256
    requires forall i, j :: 0 <= i < j < 8 ==> c.segments[i] != c.segments[j]
    ensures Decode(c, LitPins(c, code)) == code
  {
    BinaryDigits(code, 8);
    var lit := LitPins(c, code);
    var read := seq(8, j requires 0 <= j < 8 => if c.segments[j] in lit then '1' else '0');
    var bits := Binary(code, 8);
    forall j | 0 <= j < 8
      ensures read[j] == bits[j]
    {
      assert bits[8 - 1 - (7 - j)] == bits[j];
      if c.segments[j] in lit {
        var j' :| 0 <= j' < 8 && TestBit(code, 7 - j') && c.segments[j] == c.segments[j'];
        assert j' == j;
      }
    }
    assert read == bits;
    BinaryRoundTrip(code, 8);
  }

  /** After `setDigit(digit, ch)` the digit reads back as the table entry of
      `ch`, and so as `ch` up to look-alikes. */
  lemma SetDigitReadsBack(d: Display, digit: nat, ch: char)
    requires Valid(d) && digit < |d.buffer| && InTable(ch)
    requires forall i, j :: 0 <= i < j < 8 ==> d.config.segments[i] != d.config.segments[j]
    ensures Decode(d.config, SetDigit(d, digit, ch).display.buffer[digit]) == Code(ch)
    ensures Representative(Decode(d.config, SetDigit(d, digit, ch).display.buffer[digit])) == Some(Canonical(ch))
  {
    TableDomain();
    DecodeGlyph(d.config, Code(ch));
    ReadBack(ch);
  }

  /** `setDigit` overwrites: the last write to a digit wins, whatever the
      digit held before. */
  lemma SetDigitOverwrites(d: Display, digit: nat, a: char, b: char)
    requires Valid(d) && digit < |d.buffer| && InTable(a) && InTable(b)
    ensures SetDigit(SetDigit(d, digit, a).display, digit, b) == SetDigit(d, digit, b)
  {
    var once := SetDigit(d, digit, a).display;
    assert once.buffer[digit := Glyph(d.config, b)] == d.buffer[digit := Glyph(d.config, b)];
  }

  /** Writes to different digits do not interfere. */
  lemma SetDigitCommutes(d: Display, i: nat, j: nat, a: char, b: char)
    requires Valid(d) && i < |d.buffer| && j < |d.buffer| && i != j && InTable(a) && InTable(b)
    ensures SetDigit(SetDigit(d, i, a).display, j, b).display == SetDigit(SetDigit(d, j, b).display, i, a).display
  {
    var g := Glyph(d.config, a);
    var h := Glyph(d.config, b);
    assert d.buffer[i := g][j := h] == d.buffer[j := h][i := g];
  }

  /** `setDigitSegment` is idempotent: setting a lit segment again changes
      nothing. */
  lemma SetDigitSegmentIdempotent(d: Display, digit: nat, segment: nat)
    requires Valid(d)
    ensures
      var once := SetDigitSegment(d, digit, segment);
      SetDigitSegment(once.display, digit, segment) == (if once.Done? then Done(once.display) else once)
  {
    var once := SetDigitSegment(d, digit, segment);
    if once.Done? {
      var twice := SetDigitSegment(once.display, digit, segment).display;
      assert twice.buffer[digit] == once.display.buffer[digit];
      assert twice.buffer == once.display.buffer;
    }
  }

  /** `setDigitSegment` merges: a glyph set earlier keeps all its segments. */
  lemma SetDigitSegmentKeepsGlyph(d: Display, digit: nat, ch: char, segment: nat)
    requires Valid(d) && digit < |d.buffer| && InTable(ch) && segment < 8
    ensures
      var shown := SetDigit(d, digit, ch).display;
      SetDigitSegment(shown, digit, segment).display.buffer[digit] == Glyph(d.config, ch) + {d.config.segments[segment]}
  {
  }
}
