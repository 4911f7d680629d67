/** The display object: its validated configuration, the pin masks derived
    from it at construction, and the per-digit buffer of segment masks that
    the setters fill and the refresh pass reads. */
module SevSeg {

  import opened Errors
  import opened Masks

  /** Polarity codes accepted by the constructor. */
  const CommonCathodeCode: int := 0
  const CommonAnodeCode: int := 1

  /** Default timing in microseconds. */
  const LedOnTime: int := 5000
  const DigitDelay: int := 0

  datatype Polarity = CommonCathode | CommonAnode

  /** What the constructor stores: the pin lists and timing as given, plus
      the masks it derives from the pins. */
  datatype Config = Config(
    digits: seq<nat>,           // digit pins (GPIO numbers), in display order
    segments: seq<nat>,         // segment pins, in the order A, B, C, D, E, F, G, P
    common: Polarity,
    onTime: nat,                // microseconds a digit is held lit
    digitDelay: nat,            // microseconds between digits
    digitsBin: seq<Mask>,       // mask of each digit pin
    digitsGPIO: Mask,           // OR of all digit pin masks
    segmentsBin: seq<Mask>,     // mask of each segment pin
    segmentsGPIO: Mask          // OR of all segment pin masks
  )

  /** A display: its configuration and one segment mask per digit. */
  datatype Display = Display(config: Config, buffer: seq<Mask>)

  /** What construction establishes about the configuration. */
  predicate ValidConfig(c: Config)
  {
    && |c.segments| == 8
    && |c.digits| >= 1
    && c.digitsBin == Bits(c.digits)
    && c.digitsGPIO == OrAll(c.digitsBin)
    && c.segmentsBin == Bits(c.segments)
    && c.segmentsGPIO == OrAll(c.segmentsBin)
  }

  /** The object invariant: one buffer entry per digit, and every entry
      names segment pins only. */
  predicate Valid(d: Display)
  {
    && ValidConfig(d.config)
    && |d.buffer| == |d.config.digits|
    && forall k :: 0 <= k < |d.buffer| ==> d.buffer[k] <= d.config.segmentsGPIO
  }

  /** The checks the constructor makes, in its order; `None` if all pass. */
  function Violation(digits: seq<nat>, segments: seq<nat>, common: int, onTime: int, digitDelay: int): Option<Error>
  {
    if |segments| != 8 then Some(WrongSegmentCount)
    else if |digits| < 1 then Some(NoDigits)
    else if onTime < 0 then Some(NegativeOnTime)
    else if digitDelay < 0 then Some(NegativeDigitDelay)
    else if common != CommonCathodeCode && common != CommonAnodeCode then Some(UnknownCommon)
    else None
  }

  /** The constructor. Arguments are validated before anything is derived;
      on success every pin's mask is recorded and the buffer is blank. */
  function New(digits: seq<nat>, segments: seq<nat>, common: int, onTime: int, digitDelay: int): (r: Result<Display>)
    ensures r.Ok? <==>
      |segments| == 8 && |digits| >= 1 && onTime >= 0 && digitDelay >= 0 && (common == 0 || common == 1)
    ensures r.Fail? ==> Violation(digits, segments, common, onTime, digitDelay) == Some(r.error)
    ensures r.Ok? ==> Valid(r.value)
    ensures r.Ok? ==>
      var c := r.value.config;
      && c.digits == digits && c.segments == segments
      && c.onTime == onTime && c.digitDelay == digitDelay
      && c.common == (if common == 0 then CommonCathode else CommonAnode)
      && (forall i :: 0 <= i < |digits| ==> c.digitsBin[i] == {digits[i]})
      && (forall i :: 0 <= i < 8 ==> c.segmentsBin[i] == {segments[i]})
      && (forall p :: p in c.segmentsGPIO <==> p in segments)
      && (forall p :: p in c.digitsGPIO <==> p in digits)
    ensures r.Ok? ==> |r.value.buffer| == |digits| && forall k :: 0 <= k < |digits| ==> r.value.buffer[k] == {}
  {
    match Violation(digits, segments, common, onTime, digitDelay)
    case Some(e) => Fail(e)
    case None =>
      OrAllBits(digits);
      OrAllBits(segments);
      var digitsBin := Bits(digits);
      var segmentsBin := Bits(segments);
      var config := Config(
        digits, segments,
        if common == CommonCathodeCode then CommonCathode else CommonAnode,
        onTime, digitDelay,
        digitsBin, OrAll(digitsBin), segmentsBin, OrAll(segmentsBin));
      Ok(Display(config, seq(|digits|, _ => {})))
  }

  /** The construction errors come in a fixed order: the segment count is
      checked first, then the digit count, the two timings, and the polarity. */
  lemma FirstViolationReported(digits: seq<nat>, segments: seq<nat>, common: int, onTime: int, digitDelay: int)
    ensures |segments| != 8 ==> New(digits, segments, common, onTime, digitDelay) == Fail(WrongSegmentCount)
    ensures |segments| == 8 && |digits| == 0 ==> New(digits, segments, common, onTime, digitDelay) == Fail(NoDigits)
    ensures |segments| == 8 && |digits| >= 1 && onTime < 0 ==>
      New(digits, segments, common, onTime, digitDelay) == Fail(NegativeOnTime)
    ensures |segments| == 8 && |digits| >= 1 && onTime >= 0 && digitDelay < 0 ==>
      New(digits, segments, common, onTime, digitDelay) == Fail(NegativeDigitDelay)
    ensures |segments| == 8 && |digits| >= 1 && onTime >= 0 && digitDelay >= 0 && common != 0 && common != 1 ==>
      New(digits, segments, common, onTime, digitDelay) == Fail(UnknownCommon)
  {
  }

  /** The default polarity and timings are accepted. */
  lemma DefaultsAccepted(digits: seq<nat>, segments: seq<nat>)
    requires |segments| == 8 && |digits| >= 1
    ensures New(digits, segments, CommonCathodeCode, LedOnTime, DigitDelay).Ok?
  {
  }
}
