/** `refreshDisplay`: one multiplex pass over the digits, as the sequence of
    register writes and waits it performs. The output registers are kept
    abstract: writing a mask to `OutSet` drives those pins high, to `OutClr`
    drives them low, and leaves every other pin as it was. */
module Refresh {

  import opened Masks
  import opened SevSeg

  datatype Register = OutSet | OutClr

  function Other(r: Register): Register
  {
    match r
    case OutSet => OutClr
    case OutClr => OutSet
  }

  datatype Event = Write(reg: Register, value: Mask) | Sleep(us: nat)

  /** The four register choices the pass makes from the polarity. */
  datatype Selectors = Selectors(setDig: Register, clrDig: Register, setSeg: Register, clrSeg: Register)

  function SelectorsFor(p: Polarity): Selectors
  {
    match p
    case CommonCathode => Selectors(OutClr, OutSet, OutSet, OutClr)
    case CommonAnode => Selectors(OutSet, OutClr, OutClr, OutSet)
  }

  /** In both polarities the register meant to release a digit is the one
      that lights segments, and the one meant to blank segments is the one
      that selects a digit. */
  lemma SelectorsCoincide(p: Polarity)
    ensures SelectorsFor(p).clrDig == SelectorsFor(p).setSeg
    ensures SelectorsFor(p).clrSeg == SelectorsFor(p).setDig
    ensures SelectorsFor(p).setDig != SelectorsFor(p).setSeg
  {
  }

  /** Each common-anode selector is the other register of the matching
      common-cathode selector. */
  lemma AnodeInvertsCathode()
    ensures
      var a, c := SelectorsFor(CommonAnode), SelectorsFor(CommonCathode);
      && a.setDig == Other(c.setDig) && a.clrDig == Other(c.clrDig)
      && a.setSeg == Other(c.setSeg) && a.clrSeg == Other(c.clrSeg)
  {
  }

  /** One digit's part of the pass, in the order the driver writes it. */
  function DigitEvents(c: Config, sel: Selectors, digitBin: Mask, entry: Mask): seq<Event>
  {
    [ Write(sel.setDig, digitBin),
      Write(sel.setSeg, entry),
      Sleep(c.onTime),
      Write(sel.clrDig, c.segmentsGPIO),
      Write(sel.clrSeg, digitBin),
      Sleep(c.digitDelay) ]
  }

  /** The same block with the two releasing writes given the registers
      their names promise: segments are blanked through `clrSeg` and the
      digit is released through `clrDig`. */
  function FixedDigitEvents(c: Config, sel: Selectors, digitBin: Mask, entry: Mask): seq<Event>
  {
    [ Write(sel.setDig, digitBin),
      Write(sel.setSeg, entry),
      Sleep(c.onTime),
      Write(sel.clrSeg, c.segmentsGPIO),
      Write(sel.clrDig, digitBin),
      Sleep(c.digitDelay) ]
  }

  function Block(c: Config, sel: Selectors, digitBin: Mask, entry: Mask, fixed: bool): seq<Event>
  {
    if fixed then FixedDigitEvents(c, sel, digitBin, entry) else DigitEvents(c, sel, digitBin, entry)
  }

  /** The loop over the buffer from digit `k` on. */
  function Pass(d: Display, sel: Selectors, k: nat, fixed: bool): seq<Event>
    requires Valid(d) && k <= |d.buffer|
    decreases |d.buffer| - k
  {
    if k == |d.buffer| then []
    else Block(d.config, sel, d.config.digitsBin[k], d.buffer[k], fixed) + Pass(d, sel, k + 1, fixed)
  }

  lemma {:induction false} PassShape(d: Display, sel: Selectors, k: nat, fixed: bool)
    requires Valid(d) && k <= |d.buffer|
    ensures |Pass(d, sel, k, fixed)| == 6 * (|d.buffer| - k)
    ensures forall i :: 0 <= i < |Pass(d, sel, k, fixed)| ==>
      Pass(d, sel, k, fixed)[i] ==
        Block(d.config, sel, {d.config.digits[k + i / 6]}, d.buffer[k + i / 6], fixed)[i % 6]
    decreases |d.buffer| - k
  {
    if k < |d.buffer| {
      PassShape(d, sel, k + 1, fixed);
      var t := Pass(d, sel, k, fixed);
      forall i | 0 <= i < |t|
        ensures t[i] == Block(d.config, sel, {d.config.digits[k + i / 6]}, d.buffer[k + i / 6], fixed)[i % 6]
      {
        if i >= 6 {
          assert (i - 6) / 6 == i / 6 - 1 && (i - 6) % 6 == i % 6;
        }
      }
    }
  }

  /** `refreshDisplay()`: for each digit in order, the block of six events
      of `DigitEvents` with that digit's pin and buffer entry. */
  function RefreshDisplay(d: Display): (t: seq<Event>)
    requires Valid(d)
    ensures |t| == 6 * |d.buffer|
    ensures forall i :: 0 <= i < |t| ==>
      t[i] == DigitEvents(d.config, SelectorsFor(d.config.common), {d.config.digits[i / 6]}, d.buffer[i / 6])[i % 6]
  {
    var sel := SelectorsFor(d.config.common);
    PassShape(d, sel, 0, false);
    Pass(d, sel, 0, false)
  }

  /** The pass with lines 251 and 252 using the releasing registers; the
      same blocks otherwise. */
  function RefreshDisplayFixed(d: Display): (t: seq<Event>)
    requires Valid(d)
    ensures |t| == 6 * |d.buffer|
  {
    var sel := SelectorsFor(d.config.common);
    PassShape(d, sel, 0, true);
    Pass(d, sel, 0, true)
  }

  /** The time the trace spends waiting. */
  function TotalSleep(t: seq<Event>): nat
  {
    if t == [] then 0
    else (if t[0].Sleep? then t[0].us else 0) + TotalSleep(t[1..])
  }

  lemma {:induction false} TotalSleepConcat(a: seq<Event>, b: seq<Event>)
    ensures TotalSleep(a + b) == TotalSleep(a) + TotalSleep(b)
  {
    if a == [] {
      assert a + b == b;
    } else {
      assert (a + b)[1..] == a[1..] + b;
      TotalSleepConcat(a[1..], b);
    }
  }

  lemma BlockSleep(c: Config, sel: Selectors, digitBin: Mask, entry: Mask, fixed: bool)
    ensures TotalSleep(Block(c, sel, digitBin, entry, fixed)) == c.onTime + c.digitDelay
  {
    var b := Block(c, sel, digitBin, entry, fixed);
    var b5 := [b[5]];
    var b4 := [b[4]] + b5;
    var b3 := [b[3]] + b4;
    var b2 := [b[2]] + b3;
    var b1 := [b[1]] + b2;
    assert b5[1..] == [];
    assert b4[1..] == b5 && b3[1..] == b4 && b2[1..] == b3 && b1[1..] == b2;
    assert b == [b[0]] + b1;
    assert TotalSleep(b5) == c.digitDelay;
    assert TotalSleep(b4) == c.digitDelay;
    assert TotalSleep(b3) == c.digitDelay;
    assert TotalSleep(b2) == c.onTime + c.digitDelay;
    assert TotalSleep(b1) == c.onTime + c.digitDelay;
    assert ([b[0]] + b1)[1..] == b1;
  }

  lemma {:induction false} PassSleep(d: Display, sel: Selectors, k: nat, fixed: bool)
    requires Valid(d) && k <= |d.buffer|
    ensures TotalSleep(Pass(d, sel, k, fixed)) == (|d.buffer| - k) * (d.config.onTime + d.config.digitDelay)
    decreases |d.buffer| - k
  {
    if k < |d.buffer| {
      var block := Block(d.config, sel, d.config.digitsBin[k], d.buffer[k], fixed);
      TotalSleepConcat(block, Pass(d, sel, k + 1, fixed));
      PassSleep(d, sel, k + 1, fixed);
      BlockSleep(d.config, sel, d.config.digitsBin[k], d.buffer[k], fixed);
      var n, w := |d.buffer|, d.config.onTime + d.config.digitDelay;
      assert (n - k) * w == w + (n - (k + 1)) * w;
    }
  }

  /** A pass blocks for the digit count times the on-time plus the delay. */
  lemma RefreshDuration(d: Display)
    requires Valid(d)
    ensures TotalSleep(RefreshDisplay(d)) == |d.buffer| * (d.config.onTime + d.config.digitDelay)
  {
    PassSleep(d, SelectorsFor(d.config.common), 0, false);
  }

  /** A common-anode pass is the common-cathode pass of the same buffer with
      every register swapped for the other one. */
  lemma AnodeMirrorsCathode(d: Display)
    requires Valid(d) && d.config.common == CommonCathode
    ensures
      var a := d.(config := d.config.(common := CommonAnode));
      var t, u := RefreshDisplay(d), RefreshDisplay(a);
      && |u| == |t|
      && forall i :: 0 <= i < |t| ==>
           (t[i].Sleep? ==> u[i] == t[i])
           && (t[i].Write? ==> u[i] == Write(Other(t[i].reg), t[i].value))
  {
  }

  // ---------------------------------------------------------------------
  // What the pins do

  /** The effect of one event on the set of pins driven high. */
  function Drive(high: set<nat>, e: Event): set<nat>
  {
    match e
    case Sleep(_) => high
    case Write(OutSet, m) => high + m
    case Write(OutClr, m) => high - m
  }

  /** The set of pins driven high after the events of `t`, from `high`. */
  function Run(high: set<nat>, t: seq<Event>): set<nat>
  {
    if |t| == 0 then high else Drive(Run(high, t[..|t| - 1]), t[|t| - 1])
  }

  lemma RunStep(high: set<nat>, t: seq<Event>, i: nat)
    requires i < |t|
    ensures Run(high, t[..i + 1]) == Drive(Run(high, t[..i]), t[i])
  {
    assert t[..i + 1][..i] == t[..i];
  }

  /** A common-cathode digit conducts while its pin is low, a common-anode
      digit while its pin is high. */
  predicate DigitActive(p: Polarity, high: set<nat>, pin: nat)
  {
    if p == CommonCathode then pin !in high else pin in high
  }

  /** A segment line lights in the opposite sense to its digit line. */
  predicate SegmentLit(p: Polarity, high: set<nat>, pin: nat)
  {
    if p == CommonCathode then pin in high else pin !in high
  }

  /** No pin is used both as a digit line and as a segment line. */
  predicate PinsDisjoint(c: Config)
  {
    forall i, j :: 0 <= i < |c.digits| && 0 <= j < |c.segments| ==> c.digits[i] != c.segments[j]
  }

  /** The derived masks hold exactly the configured pins. */
  lemma ConfigPins(c: Config)
    requires ValidConfig(c)
    ensures forall p :: p in c.digitsGPIO <==> p in c.digits
    ensures forall p :: p in c.segmentsGPIO <==> p in c.segments
    ensures forall k :: 0 <= k < |c.digits| ==> c.digitsBin[k] == {c.digits[k]}
  {
    OrAllBits(c.digits);
    OrAllBits(c.segments);
  }

  // ---------------------------------------------------------------------
  // The pass as written never releases anything

  /** An event that can only select digits and light segments: a wait, a
      write of digit pins through `setDig`, or a write of segment pins
      through `setSeg`. */
  predicate Selecting(c: Config, e: Event)
  {
    var sel := SelectorsFor(c.common);
    || e.Sleep?
    || (e.reg == sel.setDig && e.value <= c.digitsGPIO)
    || (e.reg == sel.setSeg && e.value <= c.segmentsGPIO)
  }

  /** Every event of the pass as written is selecting: the writes on lines
      251 and 252 use the registers that select digits and light
      segments. */
  lemma OnlySelecting(d: Display)
    requires Valid(d)
    ensures forall i :: 0 <= i < |RefreshDisplay(d)| ==> Selecting(d.config, RefreshDisplay(d)[i])
  {
    var c, t := d.config, RefreshDisplay(d);
    ConfigPins(c);
    forall i | 0 <= i < |t|
      ensures Selecting(c, t[i])
    {
      var k := i / 6;
      assert c.digits[k] in c.digits;
    }
  }

  /** A selecting event keeps every active digit active and every lit
      segment lit, selects the digit pins it writes through `setDig` and
      lights the segment pins it writes through `setSeg`. */
  lemma SelectingMonotone(c: Config, high: set<nat>, e: Event)
    requires ValidConfig(c) && PinsDisjoint(c) && Selecting(c, e)
    ensures forall a :: 0 <= a < |c.digits| && DigitActive(c.common, high, c.digits[a]) ==>
      DigitActive(c.common, Drive(high, e), c.digits[a])
    ensures forall j :: 0 <= j < |c.segments| && SegmentLit(c.common, high, c.segments[j]) ==>
      SegmentLit(c.common, Drive(high, e), c.segments[j])
    ensures e.Write? && e.reg == SelectorsFor(c.common).setDig ==>
      forall a :: 0 <= a < |c.digits| && c.digits[a] in e.value ==> DigitActive(c.common, Drive(high, e), c.digits[a])
    ensures e.Write? && e.reg == SelectorsFor(c.common).setSeg ==>
      forall j :: 0 <= j < |c.segments| && c.segments[j] in e.value ==> SegmentLit(c.common, Drive(high, e), c.segments[j])
  {
    ConfigPins(c);
  }

  /** Every digit is selected and every segment lit. */
  predicate AllOn(c: Config, high: set<nat>)
  {
    && (forall a :: 0 <= a < |c.digits| ==> DigitActive(c.common, high, c.digits[a]))
    && (forall j :: 0 <= j < |c.segments| ==> SegmentLit(c.common, high, c.segments[j]))
  }

  /** What the first `i` events of the pass as written have established:
      every digit whose selecting write is among them is active, and once
      the first release write has happened every segment is lit. */
  predicate WrittenProgress(c: Config, high: set<nat>, i: nat)
  {
    && (forall a :: 0 <= a < |c.digits| && 6 * a < i ==> DigitActive(c.common, high, c.digits[a]))
    && (i >= 4 ==> forall j :: 0 <= j < |c.segments| ==> SegmentLit(c.common, high, c.segments[j]))
  }

  /** The event at index `6 * k` selects digit `k`; the event at index 3
      writes every segment pin through the segment-lighting register. */
  lemma KeyEvents(d: Display, k: nat)
    requires Valid(d) && k < |d.buffer|
    ensures RefreshDisplay(d)[6 * k] == Write(SelectorsFor(d.config.common).setDig, {d.config.digits[k]})
    ensures RefreshDisplay(d)[3] == Write(SelectorsFor(d.config.common).setSeg, d.config.segmentsGPIO)
  {
    var t := RefreshDisplay(d);
    assert t[6 * k] == DigitEvents(d.config, SelectorsFor(d.config.common), {d.config.digits[k]}, d.buffer[k])[0];
    assert t[3] == DigitEvents(d.config, SelectorsFor(d.config.common), {d.config.digits[0]}, d.buffer[0])[3];
  }

  lemma WrittenStep(c: Config, before: set<nat>, e: Event, i: nat)
    requires ValidConfig(c) && PinsDisjoint(c) && Selecting(c, e) && i > 0
    requires WrittenProgress(c, before, i - 1)
    requires (i - 1) % 6 == 0 && (i - 1) / 6 < |c.digits| ==>
      e == Write(SelectorsFor(c.common).setDig, {c.digits[(i - 1) / 6]})
    requires i == 4 ==> e == Write(SelectorsFor(c.common).setSeg, c.segmentsGPIO)
    ensures WrittenProgress(c, Drive(before, e), i)
  {
    SelectingMonotone(c, before, e);
    ConfigPins(c);
    forall a | 0 <= a < |c.digits| && 6 * a < i
      ensures DigitActive(c.common, Drive(before, e), c.digits[a])
    {
      if 6 * a == i - 1 {
        assert (i - 1) / 6 == a && (i - 1) % 6 == 0;
      }
    }
  }

  lemma {:induction false} WrittenPrefix(d: Display, high: set<nat>, i: nat)
    requires Valid(d) && PinsDisjoint(d.config) && i <= |RefreshDisplay(d)|
    ensures WrittenProgress(d.config, Run(high, RefreshDisplay(d)[..i]), i)
  {
    var t := RefreshDisplay(d);
    if i > 0 {
      WrittenPrefix(d, high, i - 1);
      RunStep(high, t, i - 1);
      OnlySelecting(d);
      KeyEvents(d, (i - 1) / 6);
      WrittenStep(d.config, Run(high, t[..i - 1]), t[i - 1], i);
    }
  }

  /** The pass as written: whatever the pins were before, after one pass
      every digit is selected and every segment is lit, and from the
      second digit on each hold shows all segments on that digit and on
      every digit before it. */
  lemma RefreshNeverReleases(d: Display, high: set<nat>)
    requires Valid(d) && PinsDisjoint(d.config)
    ensures AllOn(d.config, Run(high, RefreshDisplay(d)))
    ensures forall k :: 1 <= k < |d.buffer| ==> HeldAllOn(d, high, k)
  {
    var t := RefreshDisplay(d);
    WrittenPrefix(d, high, |t|);
    assert t[..|t|] == t;
    forall k | 1 <= k < |d.buffer|
      ensures HeldAllOn(d, high, k)
    {
      HoldAllOn(d, high, k);
    }
  }

  lemma HoldAllOn(d: Display, high: set<nat>, k: nat)
    requires Valid(d) && PinsDisjoint(d.config) && 1 <= k < |d.buffer|
    ensures HeldAllOn(d, high, k)
  {
    WrittenPrefix(d, high, 6 * k + 2);
  }

  /** During the hold of digit `k` (the events before its `Sleep(onTime)`)
      every digit up to `k` is selected and every segment is lit. */
  predicate HeldAllOn(d: Display, high: set<nat>, k: nat)
    requires Valid(d) && k < |d.buffer|
  {
    var c := d.config;
    var h := Run(high, RefreshDisplay(d)[..6 * k + 2]);
    && (forall a :: 0 <= a <= k ==> DigitActive(c.common, h, c.digits[a]))
    && (forall j :: 0 <= j < |c.segments| ==> SegmentLit(c.common, h, c.segments[j]))
  }

  /** The pass as written: once every digit is selected and every segment
      lit, no prefix of a pass changes that, so from the second pass on
      every digit shows all eight segments at every moment. */
  lemma {:induction false} AllOnIsStuck(d: Display, high: set<nat>, i: nat)
    requires Valid(d) && PinsDisjoint(d.config) && AllOn(d.config, high)
    requires i <= |RefreshDisplay(d)|
    ensures AllOn(d.config, Run(high, RefreshDisplay(d)[..i]))
  {
    var t := RefreshDisplay(d);
    if i > 0 {
      AllOnIsStuck(d, high, i - 1);
      RunStep(high, t, i - 1);
      OnlySelecting(d);
      SelectingMonotone(d.config, Run(high, t[..i - 1]), t[i - 1]);
    }
  }

  // ---------------------------------------------------------------------
  // The pass with the releasing registers multiplexes

  /** No digit selected and no segment lit. */
  predicate Quiescent(c: Config, high: set<nat>)
  {
    && (forall a :: 0 <= a < |c.digits| ==> !DigitActive(c.common, high, c.digits[a]))
    && (forall j :: 0 <= j < |c.segments| ==> !SegmentLit(c.common, high, c.segments[j]))
  }

  /** At most one digit pin is selected. */
  predicate AtMostOneDigit(c: Config, high: set<nat>)
  {
    forall a, b :: 0 <= a < |c.digits| && 0 <= b < |c.digits|
      && DigitActive(c.common, high, c.digits[a]) && DigitActive(c.common, high, c.digits[b])
      ==> c.digits[a] == c.digits[b]
  }

  /** The pins driven high `r` events into digit `k`'s block of the fixed
      pass, when the block starts from `high`: the digit is selected by the
      first event and released by the fifth, its segments are lit by the
      second and blanked by the fourth. */
  function FixedState(d: Display, high: set<nat>, k: nat, r: nat): set<nat>
    requires Valid(d) && k < |d.buffer|
  {
    var dk, lit := {d.config.digits[k]}, d.buffer[k];
    if r == 0 || r >= 5 then high
    else if d.config.common == CommonCathode then
      (if r == 1 || r == 4 then high - dk else (high - dk) + lit)
    else
      (if r == 1 || r == 4 then high + dk else (high + dk) - lit)
  }

  /** The standing assumptions of the fixed-pass proofs. */
  predicate FixedSetup(d: Display, high: set<nat>)
  {
    Valid(d) && PinsDisjoint(d.config) && Quiescent(d.config, high)
  }

  lemma FixedStep(d: Display, high: set<nat>, k: nat, r: nat)
    requires FixedSetup(d, high)
    requires k < |d.buffer| && r < 5
    ensures
      var e := FixedDigitEvents(d.config, SelectorsFor(d.config.common), {d.config.digits[k]}, d.buffer[k])[r];
      Drive(FixedState(d, high, k, r), e) == FixedState(d, high, k, r + 1)
  {
    var c := d.config;
    ConfigPins(c);
    assert c.digits[k] in c.digits;
    if r == 3 {
      var before := FixedState(d, high, k, r);
      var e := FixedDigitEvents(c, SelectorsFor(c.common), {c.digits[k]}, d.buffer[k])[r];
      assert e == Write(SelectorsFor(c.common).clrSeg, c.segmentsGPIO);
      forall p
        ensures p in Drive(before, e) <==> p in FixedState(d, high, k, r + 1)
      {
        if p in c.segmentsGPIO {
          assert p in c.segments;
          var j :| 0 <= j < |c.segments| && c.segments[j] == p;
          assert !SegmentLit(c.common, high, c.segments[j]);
        }
      }
    }
  }

  /** The last event of a block is a wait, and the release on the fifth
      brings the pins back to the block's starting state. */
  lemma FixedBlockEnds(d: Display, high: set<nat>, k: nat)
    requires Valid(d) && k < |d.buffer|
    ensures FixedDigitEvents(d.config, SelectorsFor(d.config.common), {d.config.digits[k]}, d.buffer[k])[5].Sleep?
    ensures FixedState(d, high, k, 5) == high
  {
  }

  /** Event `r` of digit `k`'s block sits at index `6 * k + r`. */
  lemma FixedEventAt(d: Display, k: nat, r: nat)
    requires Valid(d) && k < |d.buffer| && r < 6
    ensures RefreshDisplayFixed(d)[6 * k + r] ==
      FixedDigitEvents(d.config, SelectorsFor(d.config.common), {d.config.digits[k]}, d.buffer[k])[r]
  {
    PassShape(d, SelectorsFor(d.config.common), 0, true);
    assert (6 * k + r) / 6 == k && (6 * k + r) % 6 == r;
  }

  /** The pins after the first `r` events of digit `k`'s block. */
  lemma {:induction false} FixedPrefix(d: Display, high: set<nat>, k: nat, r: nat)
    requires FixedSetup(d, high)
    requires k < |d.buffer| && r <= 6
    ensures Run(high, RefreshDisplayFixed(d)[..6 * k + r]) == FixedState(d, high, k, r)
    decreases k, r
  {
    if r > 0 {
      FixedPrefix(d, high, k, r - 1);
      FixedAdvance(d, high, k, r);
    } else if k > 0 {
      FixedPrefix(d, high, k - 1, 6);
    } else {
      assert RefreshDisplayFixed(d)[..0] == [];
    }
  }

  lemma FixedAdvance(d: Display, high: set<nat>, k: nat, r: nat)
    requires FixedSetup(d, high)
    requires k < |d.buffer| && 0 < r <= 6
    requires Run(high, RefreshDisplayFixed(d)[..6 * k + r - 1]) == FixedState(d, high, k, r - 1)
    ensures Run(high, RefreshDisplayFixed(d)[..6 * k + r]) == FixedState(d, high, k, r)
  {
    RunStep(high, RefreshDisplayFixed(d), 6 * k + r - 1);
    FixedEventAt(d, k, r - 1);
    if r < 6 {
      FixedStep(d, high, k, r - 1);
    } else {
      FixedBlockEnds(d, high, k);
    }
  }

  lemma FixedEnd(d: Display, high: set<nat>)
    requires FixedSetup(d, high)
    ensures Run(high, RefreshDisplayFixed(d)) == high
  {
    var t := RefreshDisplayFixed(d);
    FixedPrefix(d, high, |d.buffer| - 1, 6);
    assert t[..|t|] == t;
  }

  /** During the hold of digit `k` exactly that digit is selected and
      exactly the segments of its buffer entry are lit. */
  predicate FixedHeld(d: Display, high: set<nat>, k: nat)
    requires Valid(d) && k < |d.buffer|
  {
    var c := d.config;
    var h := Run(high, RefreshDisplayFixed(d)[..6 * k + 2]);
    && (forall a :: 0 <= a < |c.digits| ==> (DigitActive(c.common, h, c.digits[a]) <==> c.digits[a] == c.digits[k]))
    && (forall j :: 0 <= j < |c.segments| ==> (SegmentLit(c.common, h, c.segments[j]) <==> c.segments[j] in d.buffer[k]))
  }

  /** Which digits and segments a block's states show. */
  lemma FixedStateShows(d: Display, high: set<nat>, k: nat, r: nat)
    requires FixedSetup(d, high) && k < |d.buffer|
    ensures forall a :: 0 <= a < |d.config.digits| ==>
      (DigitActive(d.config.common, FixedState(d, high, k, r), d.config.digits[a]) <==>
        1 <= r <= 4 && d.config.digits[a] == d.config.digits[k])
    ensures forall j :: 0 <= j < |d.config.segments| ==>
      (SegmentLit(d.config.common, FixedState(d, high, k, r), d.config.segments[j]) <==>
        2 <= r <= 3 && d.config.segments[j] in d.buffer[k])
  {
    var c := d.config;
    ConfigPins(c);
    assert c.digits[k] in c.digits;
  }

  lemma FixedHold(d: Display, high: set<nat>, k: nat)
    requires FixedSetup(d, high) && k < |d.buffer|
    ensures FixedHeld(d, high, k)
  {
    FixedPrefix(d, high, k, 2);
    FixedStateShows(d, high, k, 2);
  }

  lemma FixedNeverTwo(d: Display, high: set<nat>, i: nat)
    requires FixedSetup(d, high)
    requires i <= |RefreshDisplayFixed(d)|
    ensures AtMostOneDigit(d.config, Run(high, RefreshDisplayFixed(d)[..i]))
  {
    if i < |RefreshDisplayFixed(d)| {
      var k, r := i / 6, i % 6;
      assert i == 6 * k + r;
      FixedPrefix(d, high, k, r);
      FixedStateShows(d, high, k, r);
    } else {
      FixedEnd(d, high);
      assert RefreshDisplayFixed(d)[..i] == RefreshDisplayFixed(d);
    }
  }

  /** Corrected pass: from a quiescent state, each digit's hold shows that
      digit alone with its buffer entry, no two digits are ever selected at
      once, and the pass ends where it started. */
  lemma FixedMultiplexes(d: Display, high: set<nat>)
    requires Valid(d) && PinsDisjoint(d.config) && Quiescent(d.config, high)
    ensures Run(high, RefreshDisplayFixed(d)) == high
    ensures forall k :: 0 <= k < |d.buffer| ==> FixedHeld(d, high, k)
    ensures forall i :: 0 <= i <= |RefreshDisplayFixed(d)| ==>
      AtMostOneDigit(d.config, Run(high, RefreshDisplayFixed(d)[..i]))
  {
    var t := RefreshDisplayFixed(d);
    assert FixedSetup(d, high);
    FixedEnd(d, high);
    forall k | 0 <= k < |d.buffer|
      ensures FixedHeld(d, high, k)
    {
      FixedHold(d, high, k);
    }
    forall i | 0 <= i <= |t|
      ensures AtMostOneDigit(d.config, Run(high, t[..i]))
    {
      FixedNeverTwo(d, high, i);
    }
  }

  // ---------------------------------------------------------------------
  // The corrected pass settles from any state

  /** The pins after the first `r` events of digit `k`'s fixed block,
      started from `h`, whatever `h` is. */
  function BlockState(d: Display, h: set<nat>, k: nat, r: nat): set<nat>
    requires Valid(d) && k < |d.buffer| && r <= 6
  {
    if r == 0 then h
    else
      var e := FixedDigitEvents(d.config, SelectorsFor(d.config.common), {d.config.digits[k]}, d.buffer[k])[r - 1];
      Drive(BlockState(d, h, k, r - 1), e)
  }

  lemma {:induction false} BlockPrefix(d: Display, high: set<nat>, k: nat, r: nat)
    requires Valid(d) && k < |d.buffer| && r <= 6
    ensures Run(high, RefreshDisplayFixed(d)[..6 * k + r]) ==
      BlockState(d, Run(high, RefreshDisplayFixed(d)[..6 * k]), k, r)
  {
    if r > 0 {
      BlockPrefix(d, high, k, r - 1);
      RunStep(high, RefreshDisplayFixed(d), 6 * k + r - 1);
      FixedEventAt(d, k, r - 1);
    }
  }

  /** Digits `0 .. k - 1` are released, and once a block has run every
      segment is blank. */
  predicate Settled(c: Config, h: set<nat>, k: nat)
  {
    && (forall a :: 0 <= a < |c.digits| && a < k ==> !DigitActive(c.common, h, c.digits[a]))
    && (k >= 1 ==> forall j :: 0 <= j < |c.segments| ==> !SegmentLit(c.common, h, c.segments[j]))
  }

  /** A fixed block releases its own digit, leaves the other digit pins
      alone and ends with every segment blanked. */
  lemma SettleBlock(d: Display, h: set<nat>, k: nat)
    requires Valid(d) && PinsDisjoint(d.config) && k < |d.buffer|
    requires Settled(d.config, h, k)
    ensures Settled(d.config, BlockState(d, h, k, 6), k + 1)
  {
    var c := d.config;
    ConfigPins(c);
    var dk, lit := {c.digits[k]}, d.buffer[k];
    var h' := BlockState(d, h, k, 6);
    assert BlockState(d, h, k, 0) == h;
    var b1 := BlockState(d, h, k, 1);
    var b2 := BlockState(d, h, k, 2);
    var b4 := BlockState(d, h, k, 4);
    assert BlockState(d, h, k, 3) == b2;
    assert h' == BlockState(d, h, k, 5);
    if c.common == CommonCathode {
      assert b1 == h - dk && b2 == b1 + lit;
      assert b4 == b2 - c.segmentsGPIO && h' == b4 + dk;
    } else {
      assert b1 == h + dk && b2 == b1 - lit;
      assert b4 == b2 + c.segmentsGPIO && h' == b4 - dk;
    }
    forall j | 0 <= j < |c.segments|
      ensures !SegmentLit(c.common, h', c.segments[j])
    {
      assert c.segments[j] in c.segments;
      assert c.segments[j] != c.digits[k];
    }
    forall a | 0 <= a < |c.digits| && a < k + 1
      ensures !DigitActive(c.common, h', c.digits[a])
    {
      assert c.digits[a] in c.digits;
    }
  }

  lemma {:induction false} SettledAfter(d: Display, high: set<nat>, k: nat)
    requires Valid(d) && PinsDisjoint(d.config) && k <= |d.buffer|
    ensures Settled(d.config, Run(high, RefreshDisplayFixed(d)[..6 * k]), k)
  {
    if k > 0 {
      var h := Run(high, RefreshDisplayFixed(d)[..6 * (k - 1)]);
      SettledAfter(d, high, k - 1);
      BlockPrefix(d, high, k - 1, 6);
      assert 6 * (k - 1) + 6 == 6 * k;
      SettleBlock(d, h, k - 1);
    }
  }

  /** Corrected pass: whatever the pins were before, one pass leaves no digit
      selected and no segment lit. In particular the driver's start state,
      every pin low, which selects every digit of a common-cathode display
      and lights every segment of a common-anode one, is quiescent after one
      pass. */
  lemma FixedSettles(d: Display, high: set<nat>)
    requires Valid(d) && PinsDisjoint(d.config)
    ensures Quiescent(d.config, Run(high, RefreshDisplayFixed(d)))
  {
    var t := RefreshDisplayFixed(d);
    SettledAfter(d, high, |d.buffer|);
    assert t[..6 * |d.buffer|] == t;
  }

  /** Corrected pass, from any start: after the first pass every later pass
      multiplexes, one digit at a time, and returns to where it began. */
  lemma FixedMultiplexesAfterFirst(d: Display, high: set<nat>)
    requires Valid(d) && PinsDisjoint(d.config)
    ensures
      var settled := Run(high, RefreshDisplayFixed(d));
      && Quiescent(d.config, settled)
      && Run(settled, RefreshDisplayFixed(d)) == settled
      && (forall k :: 0 <= k < |d.buffer| ==> FixedHeld(d, settled, k))
      && (forall i :: 0 <= i <= |RefreshDisplayFixed(d)| ==>
            AtMostOneDigit(d.config, Run(settled, RefreshDisplayFixed(d)[..i])))
  {
    FixedSettles(d, high);
    FixedMultiplexes(d, Run(high, RefreshDisplayFixed(d)));
  }
}
