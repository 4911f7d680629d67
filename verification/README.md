# Seven-segment display driver, modelled in Dafny

This project models `sevSeg`, a MicroPython driver for multiplexed
seven-segment displays on the Raspberry Pi Pico. Its parts are:

- `CHARS`, the glyph table, in module `Glyphs`;
- the constructor's validation and pin-mask derivation, in `SevSeg`;
- the buffer setters `setDigit`, `setComma` and `setDigitSegment`, in `Buffer`;
- `setString`, the string renderer, in `Render`;
- one `refreshDisplay` pass, in `Refresh`.

How the driver's notions are modelled:

- **Pin masks.** `1 << pin` values combined with `|` become sets of pin numbers (`Masks`).
- **The display object.** An immutable `Display`, holding its configuration and the per-digit buffer (`setGPIO`).
- **Setters.** Each returns `Done(display)`, or `Raised(error, display)`. In the second case, `display` is the state the object is left in when the exception propagates. `setString` can raise after it has already written some digits.
- **A refresh pass.** The pass becomes the trace of register writes and waits it performs. A small semantics says which pins are high after the trace.

Where the documented behaviour and the code differ, the model follows the code:

- **"3.141" on four digits.** It shows the dot alone on digit 0, then 1, 4, 1 (`Render.PiExample`). `setComma` calls `setDigit(digit, ".")`, which first clears the entry, so the '3' is replaced rather than joined by the dot.
- **The digit a separator targets.** A separator targets the digit before it, counting only the separators before it (`index - len(commaPos) - 1`), not itself.
- **Doubled separators.** `str.replace` scans once from the left, so three separators in a row become `", ,,"` and not `", , ,"` (`Render.ExpansionIsSinglePass`).
- **The second length check.** After the blanks are inserted, the check compares against the separator count taken before insertion.

## Model

| member | source | states |
|---|---|---|
| Glyphs.Lookup | seven_display.py:28-71 | the `CHARS` table as a function from characters to optional codes; its contents are stated by the `Glyphs` lemmas below |
| Glyphs.TableDomain | seven_display.py:28-71 | a character is in the table exactly when it is a decimal digit, an upper-case letter, or one of ' ', '-', '.', '*', '_'; every code fits in eight bits |
| Glyphs.Unsupported | seven_display.py:28-71 | the comma and every lower-case letter are not in the table |
| Glyphs.LookAlikes | seven_display.py:50-65 | K and X show as H, V as U, Z as 2, O as 0, S as 5 |
| Glyphs.Blanks | seven_display.py:52-68 | M, W and the blank have the empty pattern; the dot's code is segment P alone |
| Glyphs.ReadBack | seven_display.py:28-71 | the inverse of the table maps each character's code to its look-alike class's representative, which has the same code |
| Glyphs.SameCodeIffAlias | seven_display.py:28-71 | two supported characters share a code if and only if they are look-alikes |
| Glyphs.BinaryDigits | seven_display.py:157 | for `v < 2^width`, `Binary(v, width)` has exactly `width` characters, each '0' or '1', and position `width-1-k` is '1' exactly when bit `k` of `v` is set; for `width >= 1` this is Python's `'{0:0<width>b}'`, used at width 8 |
| Glyphs.Binary | seven_display.py:157 | the `'{0:08b}'` formatting, defined by halving; what it produces is stated by Glyphs.BinaryDigits and Glyphs.BinaryRoundTrip |
| Glyphs.BinaryRoundTrip | seven_display.py:157 | reading the formatted digits back as a binary number gives `v` |
| Masks.Bits | seven_display.py:118-123 | the per-pin masks list has one entry per pin, the singleton of that pin |
| Masks.OrAll | seven_display.py:116-122 | a pin is in the OR of masks exactly when some mask contains it |
| Masks.OrAllBits | seven_display.py:118-134 | ORing the masks of a pin list sets exactly the listed pins |
| SevSeg.Violation | seven_display.py:100-104 | the five argument checks in source order, giving the first failing one's error; SevSeg.New and SevSeg.FirstViolationReported state its effect |
| SevSeg.New | seven_display.py:99-139 | construction succeeds if and only if there are 8 segment pins, at least one digit pin, non-negative timings and a known polarity; a failure reports the first failing check in source order; on success the pins and timings are stored, each `...Bin` entry is its pin's mask, each `...GPIO` mask holds exactly the listed pins, and the buffer holds one empty entry per digit |
| SevSeg.FirstViolationReported | seven_display.py:100-104 | when every earlier check passes and a check fails, construction fails with that check's error: segment count, then digit count, on-time, delay, polarity |
| SevSeg.DefaultsAccepted | seven_display.py:5-6 | eight segment pins, at least one digit pin and the default timing and polarity are accepted |
| Buffer.SetDigitSegment | seven_display.py:174-186 | succeeds if and only if both indices are in range, raising digit-out-of-range before segment-out-of-range and leaving the display unchanged; on success the entry gains exactly that segment's pin and the other digits are unchanged |
| Buffer.OverlayBits | seven_display.py:158-159 | the enumerate loop adds exactly the pins of the segments whose formatted digit is '1' and changes no other digit |
| Buffer.OverlayGlyph | seven_display.py:154-159 | clearing an entry and overlaying a code's formatted digits leaves exactly the code's lit pins in it |
| Buffer.SetDigit | seven_display.py:143-159 | succeeds if and only if the digit is in range and the character is in the table; it raises the range error before the character error and changes nothing when it raises; on success the entry is replaced by the character's glyph and every other digit keeps its entry |
| Buffer.SetDigitText | seven_display.py:143-159 | `setDigit` with the character as a string: it succeeds if and only if the digit is in range and the string is a single character in the table; a string of any other length, the empty one included, raises the unsupported-character error after the range check; nothing changes when it raises; on a single character it is `setDigit` on that character |
| Buffer.SetComma | seven_display.py:162-171 | behaves as `setDigit(digit, ".")`, with the dot given as a string; fails only for an out-of-range digit; on success the digit shows the decimal point alone |
| Buffer.DotPins | seven_display.py:68 | the dot's glyph is the decimal-point segment's pin alone |
| Buffer.DecodeGlyph | seven_display.py:157-159 | with distinct segment pins, reading the pins a code lights back as a code gives the code |
| Buffer.SetDigitReadsBack | seven_display.py:143-159 | after `setDigit(digit, ch)` the entry reads back as `CHARS[ch]`, and therefore as `ch`'s look-alike representative |
| Buffer.SetDigitOverwrites | seven_display.py:154 | a second `setDigit` on the same digit gives the same result as if only the second had happened |
| Buffer.SetDigitCommutes | seven_display.py:143-159 | `setDigit` calls on different digits commute |
| Buffer.SetDigitSegmentIdempotent | seven_display.py:186 | setting the same segment twice is the same as setting it once |
| Buffer.SetDigitSegmentKeepsGlyph | seven_display.py:186 | `setDigitSegment` after `setDigit` keeps every pin of the glyph and adds only the one segment's pin |
| Render.CountConcat | seven_display.py:198 | `str.count` and the non-separator count add up over concatenation |
| Render.CountSplit | seven_display.py:198-200 | separators plus non-separators make up the whole length |
| Render.ExpandDoubled | seven_display.py:204 | the expansion never shortens the string and keeps its first character |
| Render.ExpandKeepsCounts | seven_display.py:204 | the expansion leaves the count of every non-blank character unchanged |
| Render.ExpandOnlyInsertsBlanks | seven_display.py:204 | removing every blank from the expanded string gives what removing them from the input gives |
| Render.ExpansionIsSinglePass | seven_display.py:204 | "1,,,2" becomes "1, ,,2" and ".." becomes ". ." |
| Render.RemoveAll | seven_display.py:210-211 | `replace(ch, "")` leaves no `ch` and is shorter by the number of `ch` |
| Render.RemoveAllKeepsCounts | seven_display.py:210-211 | removing one character keeps the count of every other character |
| Render.RemoveAllConcat | seven_display.py:210-211 | removing a character distributes over concatenation |
| Render.RemoveAllFrom | seven_display.py:210-211 | every character kept by the removal comes from the input |
| Render.StripConcat | seven_display.py:210-211 | stripping the separators distributes over concatenation |
| Render.StripAt | seven_display.py:210-211 | the non-separator at position `i` is character number `NonSeparators(s[..i])` of the stripped string, so the shown characters keep their order and none is lost |
| Render.Strip | seven_display.py:210-211 | the stripped string holds no separator and has one character per non-separator of the input; which characters and in what order is stated by Render.StripAt |
| Render.Padded | seven_display.py:203 | a string that starts with a separator gets one blank in front; otherwise it is unchanged |
| Render.Prepare | seven_display.py:203-204 | after padding and expansion the string does not start with a separator, is no shorter, and has as many separators as the input |
| Render.FitsOnDisplay | seven_display.py:197-206 | a string that passes every capacity check leaves at most one character per digit |
| Render.Checks | seven_display.py:197-206 | the five capacity checks and the `string[0]` lookup in source order, the later two using the separator count taken before padding; its effect is stated by Render.SetString, Render.RejectsBeforeWriting and Render.FitsOnDisplay |
| Render.CommaPositions | seven_display.py:217-220 | the `commaPos` loop from `index` on with `found` separators already collected; Render.CommaPositionsFrom relates it to the reference targets |
| Render.CommaPositionsFrom | seven_display.py:217-220 | the collecting loop, resumed at any index, appends the reference targets of the rest of the string |
| Render.CommaPositionsAreTargets | seven_display.py:217-220 | the loop computes the reference targets: each separator targets the digit of the last non-separator before it |
| Render.TargetsInRange | seven_display.py:203-220 | when the string does not start with a separator, every target is a valid index of the stripped string |
| Render.TargetsLength | seven_display.py:217-220 | there is one target per separator |
| Render.TargetOfSeparator | seven_display.py:217-220 | the separator at position `p` is number `Separators(s[..p])` among the separators, and it targets one less than the number of non-separators before it |
| Render.SeparatorTargetsLastShown | seven_display.py:210-220 | a separator's target is the position in the stripped string of the last non-separator before it, and the stripped string holds that character there |
| Render.FirstUnsupported | seven_display.py:213-214 | the first index from `i` whose character is not in the table: every character before it is supported |
| Render.RenderChars | seven_display.py:213-214 | the loop succeeds if and only if every stripped character is supported; it raises at the first unsupported one, with digits before it showing their characters and later digits unchanged |
| Render.ApplyCommas | seven_display.py:222-223 | every targeted digit shows the dot alone; every other digit keeps its entry |
| Render.SetString | seven_display.py:189-223 | a failed capacity check raises the first failing error and touches nothing; otherwise digits before the first unsupported character show their characters, and if none is unsupported the call succeeds with every targeted digit showing the dot alone |
| Render.SetStringShowsCharacter | seven_display.py:210-223 | after a successful `setString`, each shown character of the prepared string is on the digit of its place among the shown characters, unless a separator targets that digit |
| Render.SetStringDotsLastShown | seven_display.py:210-223 | after a successful `setString`, the digit of the last shown character before each separator shows the dot alone |
| Render.RejectsBeforeWriting | seven_display.py:197-203 | a string that is too long or has too many separators raises that error with the display untouched; an empty string raises (the `string[0]` lookup) with the display untouched |
| Render.LeadingSeparatorIsPadded | seven_display.py:203 | a string that starts with a separator renders as if a blank had been typed first |
| Render.DoubledCommaExample | seven_display.py:204 | "1,,2" renders exactly as "1, ,2" |
| Render.PiExample | seven_display.py:266 | on four digits "3.141" succeeds with the dot alone on digit 0 and then 1, 4, 1 |
| Refresh.SelectorsCoincide | seven_display.py:233-242 | in both polarities the digit-release register is the segment-lighting one and the segment-blanking register is the digit-selecting one |
| Refresh.AnodeInvertsCathode | seven_display.py:233-242 | every common-anode register choice is the opposite of the common-cathode one |
| Refresh.SelectorsFor | seven_display.py:233-242 | the four register choices of each polarity; Refresh.SelectorsCoincide and Refresh.AnodeInvertsCathode state how they relate |
| Refresh.DigitEvents | seven_display.py:248-253 | one digit's six events in the order written; Refresh.RefreshDisplay places them in the pass |
| Refresh.RefreshDisplay | seven_display.py:247-253 | the pass is six events per digit, in digit order: select the digit's pin, write its entry, wait the on-time, write all segment pins, write the digit's pin, wait the delay |
| Refresh.RefreshDuration | seven_display.py:250-253 | a pass waits the digit count times the sum of on-time and delay |
| Refresh.AnodeMirrorsCathode | seven_display.py:233-253 | the common-anode pass is the common-cathode pass with each register swapped for the other |
| Refresh.OnlySelecting | seven_display.py:248-252 | every write of the pass selects digit pins or lights segment pins |
| Refresh.RefreshNeverReleases | seven_display.py:247-253 | from any pin state, after a pass every digit is selected and every segment lit; from the second digit on, each hold shows all segments on every digit so far |
| Refresh.AllOnIsStuck | seven_display.py:247-253 | once every digit is selected and every segment lit, no part of a later pass changes that |
| Refresh.FixedEventAt | seven_display.py:247-253 | in the corrected pass, event `r` of digit `k`'s block sits at index `6k + r` |
| Refresh.FixedMultiplexes | seven_display.py:247-253 | corrected pass: from a quiescent state each hold selects exactly its digit and lights exactly its entry's segments, no two digits are selected at any point, and the pass ends in the state it started from |
| Refresh.FixedSettles | seven_display.py:247-253 | corrected pass: from any pin state, including the all-low state construction leaves, one pass ends with no digit selected and no segment lit |
| Refresh.FixedMultiplexesAfterFirst | seven_display.py:247-253 | corrected pass: from any pin state, every pass after the first selects one digit at a time, each hold showing exactly its digit and entry, and returns to where it began |

## Left out

- Hardware access is not modelled: `Pin` objects, `mem32` and the SIO register addresses. The output registers are two abstract registers, one that sets pins and one that clears them.
- The initial pin levels are not modelled (`pin.value(0)`, lines 121 and 132). The as-written refresh lemmas hold from any start state. Refresh.FixedMultiplexes starts from a quiescent state: no digit selected, no segment lit. The all-low start is not quiescent, but `Refresh.FixedSettles` shows one corrected pass from any state reaches a quiescent one, and `Refresh.FixedMultiplexesAfterFirst` gives the multiplexing property from the second pass on.
- Masks are unbounded sets of pins. The 32-bit width of the GPIO registers is not modelled, so a pin number of 32 or more does not wrap.
- `time.sleep_us` is not modelled as real time: each call is a `Sleep` event in the trace.
- The `TypeError` checks are not modelled (lines 94-97, 148-149, 167, 180, 182, 195). Dafny's types enforce them.
- The unreachable `else` at line 244 has no counterpart, because the polarity is a two-valued type.
- The demonstration code at lines 260-272 is not part of this model.
- Buffer.SetDigit: the character is a single `char`; strings of other lengths are modelled by `Buffer.SetDigitText`, which `setString` does not need, since it passes one character at a time. The digit index is a `nat`. A negative Python index passes the `>` range check and indexes from the end; that is not modelled.
- Buffer.SetComma: the digit index is a `nat`, for the same reason as `setDigit`.
- Buffer.SetDigitSegment: both indices are `nat`, for the same reason as `setDigit`.
- SevSeg.New: pins are `nat`, so negative pin numbers are not modelled.
- Render.ApplyCommas: it requires every target to be a valid digit. `Render.TargetsInRange` and `Render.FitsOnDisplay` prove this for every string `setString` passes to it, so Python's negative indexing is never reached.

## Findings

| source | as written | input that shows it | evidently intended | confidence | as-written member | corrected member |
|---|---|---|---|---|---|---|
| seven_display.py:251-252 | after the on-time, all segment pins are written through `GPIO_OUT_IS_CLR_DIG`, and the digit pin through `GPIO_OUT_IS_CLR_SEG`; in both polarities these are the registers that light segments and select digits | any display with two or more digits and distinct pins, e.g. four digits, common cathode: after one pass all four digits are selected with all segments lit | blank the segments through the segment-clearing register, then release the digit through the digit-clearing register, so that one digit at a time shows its entry | not executed; medium | Refresh.RefreshNeverReleases | Refresh.FixedMultiplexes |
