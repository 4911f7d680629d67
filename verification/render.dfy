/** `setString`: capacity checks, separator padding, glyph rendering and
    the placement of dots and commas. */
module Render {

  import opened Errors
  import opened Glyphs
  import opened SevSeg
  import opened Buffer

  predicate IsSeparator(ch: char)
  {
    ch == ',' || ch == '.'
  }

  /** `string.count(ch)` */
  function Count(s: string, ch: char): nat
  {
    if s == [] then 0 else (if s[0] == ch then 1 else 0) + Count(s[1..], ch)
  }

  /** `string.count(",") + string.count(".")` */
  function Separators(s: string): nat
  {
    Count(s, ',') + Count(s, '.')
  }

  /** The number of characters that are not separators. */
  function NonSeparators(s: string): nat
  {
    if s == [] then 0 else (if IsSeparator(s[0]) then 0 else 1) + NonSeparators(s[1..])
  }

  lemma {:induction false} CountConcat(a: string, b: string)
    ensures forall ch :: Count(a + b, ch) == Count(a, ch) + Count(b, ch)
    ensures NonSeparators(a + b) == NonSeparators(a) + NonSeparators(b)
  {
    if a == [] {
      assert a + b == b;
    } else {
      assert (a + b)[1..] == a[1..] + b;
      CountConcat(a[1..], b);
    }
  }

  /** Every character is a separator or not. */
  lemma {:induction false} CountSplit(s: string)
    ensures Separators(s) + NonSeparators(s) == |s|
  {
    if s != [] {
      CountSplit(s[1..]);
    }
  }

  /** `s.replace(sep + sep, sep + " " + sep)`: scanning left to right, each
      non-overlapping doubled separator gets a blank between its halves. */
  function ExpandDoubled(s: string, sep: char): (r: string)
    ensures |r| >= |s|
    ensures |s| > 0 ==> |r| > 0 && r[0] == s[0]
  {
    if |s| >= 2 && s[0] == sep && s[1] == sep then [sep, ' ', sep] + ExpandDoubled(s[2..], sep)
    else if s == [] then []
    else [s[0]] + ExpandDoubled(s[1..], sep)
  }

  /** The expansion adds blanks only: every other character occurs as often
      as before. */
  lemma {:induction false} ExpandKeepsCounts(s: string, sep: char, x: char)
    requires x != ' '
    ensures Count(ExpandDoubled(s, sep), x) == Count(s, x)
    decreases |s|
  {
    if |s| >= 2 && s[0] == sep && s[1] == sep {
      ExpandKeepsCounts(s[2..], sep, x);
      CountConcat([sep, ' ', sep], ExpandDoubled(s[2..], sep));
      assert s == [sep, sep] + s[2..];
      CountConcat([sep, sep], s[2..]);
      assert [sep, ' ', sep][1..] == [' ', sep] && [' ', sep][1..] == [sep];
      assert [sep, sep][1..] == [sep] && [sep][1..] == [];
      assert Count([sep, ' ', sep], x) == Count([sep, sep], x);
    } else if s != [] {
      ExpandKeepsCounts(s[1..], sep, x);
      CountConcat([s[0]], ExpandDoubled(s[1..], sep));
    }
  }

  /** `s.replace(ch, "")`: the string without any `ch`, otherwise in order. */
  function RemoveAll(s: string, ch: char): (r: string)
    ensures forall i :: 0 <= i < |r| ==> r[i] != ch
    ensures |r| == |s| - Count(s, ch)
  {
    if s == [] then []
    else (if s[0] == ch then [] else [s[0]]) + RemoveAll(s[1..], ch)
  }

  /** Removing one character leaves the counts of the others alone. */
  lemma {:induction false} RemoveAllKeepsCounts(s: string, ch: char, x: char)
    requires x != ch
    ensures Count(RemoveAll(s, ch), x) == Count(s, x)
  {
    if s != [] {
      RemoveAllKeepsCounts(s[1..], ch, x);
      CountConcat(if s[0] == ch then [] else [s[0]], RemoveAll(s[1..], ch));
    }
  }

  lemma {:induction false} RemoveAllConcat(a: string, b: string, ch: char)
    ensures RemoveAll(a + b, ch) == RemoveAll(a, ch) + RemoveAll(b, ch)
  {
    if a == [] {
      assert a + b == b;
    } else {
      assert (a + b)[1..] == a[1..] + b;
      RemoveAllConcat(a[1..], b, ch);
    }
  }

  /** The expansion only inserts blanks: removing all blanks from its result
      gives what removing them from its input gives. */
  lemma {:induction false} ExpandOnlyInsertsBlanks(s: string, sep: char)
    requires sep != ' '
    ensures RemoveAll(ExpandDoubled(s, sep), ' ') == RemoveAll(s, ' ')
    decreases |s|
  {
    if |s| >= 2 && s[0] == sep && s[1] == sep {
      ExpandOnlyInsertsBlanks(s[2..], sep);
      BlanksAfterPair(s, sep);
    } else if s != [] {
      ExpandOnlyInsertsBlanks(s[1..], sep);
      BlanksAfterOne(s, sep);
    }
  }

  lemma BlanksAfterPair(s: string, sep: char)
    requires sep != ' ' && |s| >= 2 && s[0] == sep && s[1] == sep
    requires RemoveAll(ExpandDoubled(s[2..], sep), ' ') == RemoveAll(s[2..], ' ')
    ensures RemoveAll(ExpandDoubled(s, sep), ' ') == RemoveAll(s, ' ')
  {
    var rest := s[2..];
    assert ExpandDoubled(s, sep) == [sep, ' ', sep] + ExpandDoubled(rest, sep);
    RemoveAllConcat([sep, ' ', sep], ExpandDoubled(rest, sep), ' ');
    assert s == [sep, sep] + rest;
    RemoveAllConcat([sep, sep], rest, ' ');
    assert RemoveAll([sep, ' ', sep], ' ') == [sep, sep] == RemoveAll([sep, sep], ' ') by {
      assert [sep, ' ', sep][1..] == [' ', sep] && [' ', sep][1..] == [sep] && [sep][1..] == [];
      assert [sep, sep][1..] == [sep];
    }
  }

  lemma BlanksAfterOne(s: string, sep: char)
    requires sep != ' ' && s != [] && !(|s| >= 2 && s[0] == sep && s[1] == sep)
    requires RemoveAll(ExpandDoubled(s[1..], sep), ' ') == RemoveAll(s[1..], ' ')
    ensures RemoveAll(ExpandDoubled(s, sep), ' ') == RemoveAll(s, ' ')
  {
    assert ExpandDoubled(s, sep) == [s[0]] + ExpandDoubled(s[1..], sep);
    RemoveAllConcat([s[0]], ExpandDoubled(s[1..], sep), ' ');
    assert s == [s[0]] + s[1..];
    RemoveAllConcat([s[0]], s[1..], ' ');
  }

  /** The scan is a single pass: of three separators in a row only the first
      two are split, so two separators stay adjacent. */
  lemma ExpansionIsSinglePass()
    ensures ExpandDoubled("1,,,2", ',') == "1, ,,2"
    ensures ExpandDoubled("..", '.') == ". ."
  {
  }

  /** The input with every separator removed: the characters shown. */
  function Strip(s: string): (r: string)
    ensures |r| == NonSeparators(s)
    ensures forall i :: 0 <= i < |r| ==> !IsSeparator(r[i])
  {
    var noCommas := RemoveAll(s, ',');
    RemoveAllKeepsCounts(s, ',', '.');
    CountSplit(s);
    var r := RemoveAll(noCommas, '.');
    assert forall i :: 0 <= i < |r| ==> r[i] in noCommas by {
      RemoveAllFrom(noCommas, '.');
    }
    r
  }

  /** What `RemoveAll` keeps comes from its input. */
  lemma {:induction false} RemoveAllFrom(s: string, ch: char)
    ensures forall i :: 0 <= i < |RemoveAll(s, ch)| ==> RemoveAll(s, ch)[i] in s
  {
    if s != [] {
      RemoveAllFrom(s[1..], ch);
    }
  }

  /** Stripping distributes over concatenation. */
  lemma StripConcat(a: string, b: string)
    ensures Strip(a + b) == Strip(a) + Strip(b)
  {
    RemoveAllConcat(a, b, ',');
    RemoveAllConcat(RemoveAll(a, ','), RemoveAll(b, ','), '.');
  }

  /** Stripping keeps every shown character, in order: the character at
      position `i` that is not a separator becomes character
      `NonSeparators(s[..i])` of the stripped string. With the length, this
      fixes the stripped string completely. */
  lemma StripAt(s: string, i: nat)
    requires i < |s| && !IsSeparator(s[i])
    ensures NonSeparators(s[..i]) < |Strip(s)|
    ensures Strip(s)[NonSeparators(s[..i])] == s[i]
  {
    var pre, c, post := s[..i], s[i], s[i + 1..];
    assert s == pre + ([c] + post);
    StripConcat(pre, [c] + post);
    StripConcat([c], post);
    assert [c][1..] == [];
    assert Strip([c]) == [c];
  }

  /** A leading separator gets a blank in front of it. */
  function Padded(s: string): (r: string)
    requires |s| > 0
    ensures |r| > 0 && !IsSeparator(r[0])
    ensures r == s || r == [' '] + s
    ensures r == s <==> !IsSeparator(s[0])
  {
    if s[0] == ',' || s[0] == '.' then [' '] + s else s
  }

  /** The string after padding and the expansion of doubled commas, then of
      doubled dots. */
  function Prepare(s: string): (r: string)
    requires |s| > 0
    ensures |r| > 0 && !IsSeparator(r[0])
    ensures Separators(r) == Separators(s)
    ensures |r| >= |s|
  {
    var padded := Padded(s);
    var commas := ExpandDoubled(padded, ',');
    ExpandKeepsCounts(padded, ',', ',');
    ExpandKeepsCounts(padded, ',', '.');
    ExpandKeepsCounts(commas, '.', ',');
    ExpandKeepsCounts(commas, '.', '.');
    assert padded != s ==> padded[1..] == s;
    ExpandDoubled(commas, '.')
  }

  /** The capacity checks of `setString` on a display of `n` digits, in their
      order; `None` if the string may be rendered. The separator count used
      after the expansion is the one of the original string. */
  function Checks(n: nat, s: string): Option<Error>
  {
    var separators := Separators(s);
    if |s| > n * 2 then Some(StringTooLong)
    else if separators > n then Some(TooManySeparators)
    else if |s| - separators > n then Some(TooManyCharacters)
    else if s == [] then Some(EmptyString)
    else
      var prepared := Prepare(s);
      if |prepared| > n * 2 then Some(TooManyDoubledSeparators)
      else if |prepared| - separators > n then Some(TooManyCharactersAfterSpaces)
      else None
  }

  /** A string that passes the checks leaves at most one character per digit. */
  lemma FitsOnDisplay(n: nat, s: string)
    requires Checks(n, s).None?
    ensures |Strip(Prepare(s))| <= n
  {
    CountSplit(Prepare(s));
  }

  /** The loop collecting separator targets: the separator at `index` targets
      `index - found - 1`, where `found` separators were met before it. */
  function CommaPositions(s: string, index: nat, found: nat): seq<int>
    requires index <= |s|
    decreases |s| - index
  {
    if index == |s| then []
    else if IsSeparator(s[index]) then [index - found - 1] + CommaPositions(s, index + 1, found + 1)
    else CommaPositions(s, index + 1, found)
  }

  /** Reference: each separator, in order, targets the digit of the last
      character before it that is not a separator. */
  function Targets(s: string): seq<int>
  {
    if s == [] then []
    else
      var init := s[..|s| - 1];
      Targets(init) + (if IsSeparator(s[|s| - 1]) then [NonSeparators(init) - 1] else [])
  }

  lemma {:induction false} CommaPositionsFrom(s: string, index: nat)
    requires index <= |s|
    ensures Targets(s[..index]) + CommaPositions(s, index, Separators(s[..index])) == Targets(s)
    decreases |s| - index
  {
    if index == |s| {
      assert s[..index] == s;
    } else {
      var pre := s[..index];
      var next := s[..index + 1];
      var c := s[index];
      assert next[..|next| - 1] == pre;
      assert next == pre + [c];
      CountConcat(pre, [c]);
      assert [c][1..] == [];
      assert Count([c], ',') == (if c == ',' then 1 else 0);
      assert Count([c], '.') == (if c == '.' then 1 else 0);
      CountSplit(pre);
      var tail := CommaPositions(s, index + 1, Separators(next));
      CommaPositionsFrom(s, index + 1);
      if IsSeparator(c) {
        assert Separators(next) == Separators(pre) + 1;
        assert CommaPositions(s, index, Separators(pre)) == [NonSeparators(pre) - 1] + tail;
        assert Targets(next) == Targets(pre) + [NonSeparators(pre) - 1];
      } else {
        assert Separators(next) == Separators(pre);
        assert CommaPositions(s, index, Separators(pre)) == tail;
        assert Targets(next) == Targets(pre);
      }
    }
  }

  /** The collecting loop computes the reference targets. */
  lemma CommaPositionsAreTargets(s: string)
    ensures CommaPositions(s, 0, 0) == Targets(s)
  {
    CommaPositionsFrom(s, 0);
    assert s[..0] == [];
  }

  /** When the string does not start with a separator, every target names a
      shown character: it lies in `[0, NonSeparators(s))`. */
  lemma {:induction false} TargetsInRange(s: string)
    requires |s| > 0 && !IsSeparator(s[0])
    ensures forall m :: 0 <= m < |Targets(s)| ==> 0 <= Targets(s)[m] < NonSeparators(s)
  {
    var init := s[..|s| - 1];
    assert s == init + [s[|s| - 1]];
    CountConcat(init, [s[|s| - 1]]);
    if |init| > 0 {
      assert init[0] == s[0];
      TargetsInRange(init);
      assert NonSeparators(init) >= 1 by {
        NonSeparatorsFirst(init);
      }
    }
  }

  lemma {:induction false} NonSeparatorsFirst(s: string)
    requires |s| > 0 && !IsSeparator(s[0])
    ensures NonSeparators(s) >= 1
  {
    if |s| > 1 {
      var init := s[..|s| - 1];
      assert init[0] == s[0];
      NonSeparatorsFirst(init);
    }
  }

  lemma {:induction false} TargetsLength(s: string)
    ensures |Targets(s)| == Separators(s)
  {
    if s != [] {
      var init := s[..|s| - 1];
      var c := s[|s| - 1];
      assert s == init + [c];
      TargetsLength(init);
      CountConcat(init, [c]);
      assert [c][1..] == [];
      assert Count([c], ',') == (if c == ',' then 1 else 0);
      assert Count([c], '.') == (if c == '.' then 1 else 0);
    }
  }

  /** The separator at position `p` is number `Separators(s[..p])` among the
      separators, and it targets `NonSeparators(s[..p]) - 1`. */
  lemma {:induction false} TargetOfSeparator(s: string, p: nat)
    requires p < |s| && IsSeparator(s[p])
    ensures Separators(s[..p]) < |Targets(s)|
    ensures Targets(s)[Separators(s[..p])] == NonSeparators(s[..p]) - 1
  {
    var init := s[..|s| - 1];
    TargetsLength(init);
    if p == |s| - 1 {
      assert s[..p] == init;
    } else {
      assert init[..p] == s[..p];
      assert init[p] == s[p];
      TargetOfSeparator(init, p);
    }
  }

  lemma {:induction false} AllSeparators(s: string)
    requires forall j :: 0 <= j < |s| ==> IsSeparator(s[j])
    ensures NonSeparators(s) == 0
  {
    if s != [] {
      AllSeparators(s[1..]);
    }
  }

  /** Each separator targets the digit of the last shown character before
      it: when `s[q]` is not a separator and only separators lie between it
      and the separator at `p`, that separator's target is where `s[q]`
      lands in the stripped string. */
  lemma SeparatorTargetsLastShown(s: string, q: nat, p: nat)
    requires q < p < |s| && !IsSeparator(s[q]) && IsSeparator(s[p])
    requires forall j :: q < j < p ==> IsSeparator(s[j])
    ensures Separators(s[..p]) < |Targets(s)|
    ensures
      var t := Targets(s)[Separators(s[..p])];
      t == NonSeparators(s[..q]) && 0 <= t < |Strip(s)| && Strip(s)[t] == s[q]
  {
    TargetOfSeparator(s, p);
    StripAt(s, q);
    BetweenSeparators(s, q, p);
  }

  lemma BetweenSeparators(s: string, q: nat, p: nat)
    requires q < p <= |s| && !IsSeparator(s[q])
    requires forall j :: q < j < p ==> IsSeparator(s[j])
    ensures NonSeparators(s[..p]) == NonSeparators(s[..q]) + 1
  {
    var between := s[q + 1..p];
    forall j | 0 <= j < |between|
      ensures IsSeparator(between[j])
    {
      assert between[j] == s[q + 1 + j];
    }
    AllSeparators(between);
    assert s[..p] == (s[..q] + [s[q]]) + between;
    CountConcat(s[..q] + [s[q]], between);
    CountConcat(s[..q], [s[q]]);
  }

  /** The first index at or after `i` whose character is not in the table,
      or `|s|` if there is none. */
  function FirstUnsupported(s: string, i: nat): (k: nat)
    requires i <= |s|
    ensures i <= k <= |s|
    ensures forall m :: i <= m < k ==> InTable(s[m])
    ensures k < |s| ==> !InTable(s[k])
    decreases |s| - i
  {
    if i == |s| || !InTable(s[i]) then i else FirstUnsupported(s, i + 1)
  }

  /** The loop `setDigit(index, character)` over the stripped string, from
      position `i` on. It stops at the first unsupported character, with the
      digits before it already written. */
  function RenderChars(d: Display, clear: string, i: nat): (r: Outcome)
    requires Valid(d) && i <= |clear| <= |d.buffer|
    ensures Valid(r.display) && r.display.config == d.config
    ensures r.Done? <==> FirstUnsupported(clear, i) == |clear|
    ensures r.Raised? ==> r.error == UnsupportedCharacter([clear[FirstUnsupported(clear, i)]])
    ensures forall m :: 0 <= m < |d.buffer| ==>
      r.display.buffer[m] ==
        if i <= m < FirstUnsupported(clear, i) then Glyph(d.config, clear[m]) else d.buffer[m]
    decreases |clear| - i
  {
    if i == |clear| then Done(d)
    else
      match SetDigit(d, i, clear[i])
      case Raised(e, d') => Raised(e, d')
      case Done(d') => RenderChars(d', clear, i + 1)
  }

  /** The loop `setComma(pos)` over the targets from position `j` on. Each
      target digit ends up showing the dot alone. */
  function ApplyCommas(d: Display, ts: seq<int>, j: nat): (r: Outcome)
    requires Valid(d) && j <= |ts|
    requires forall m :: j <= m < |ts| ==> 0 <= ts[m] < |d.buffer|
    ensures r.Done? && Valid(r.display) && r.display.config == d.config
    ensures forall k :: 0 <= k < |d.buffer| ==>
      r.display.buffer[k] == if k in ts[j..] then {d.config.segments[7]} else d.buffer[k]
    decreases |ts| - j
  {
    if j == |ts| then Done(d)
    else
      assert ts[j..] == [ts[j]] + ts[j + 1..];
      match SetComma(d, ts[j])
      case Raised(e, d') => Raised(e, d')
      case Done(d') => ApplyCommas(d', ts, j + 1)
  }

  /** `setString(s)`. Capacity failures raise before any digit is touched.
      Otherwise digit `m` of the stripped string shows its glyph, or the dot
      alone if some separator targets it; digits past the string keep their
      content. An unsupported character raises with the digits before it
      already written and no dot placed. */
  function SetString(d: Display, s: string): (r: Outcome)
    requires Valid(d)
    ensures Valid(r.display) && r.display.config == d.config
    ensures Checks(|d.buffer|, s).Some? ==> r == Raised(Checks(|d.buffer|, s).value, d)
    ensures r.Raised? && r.display != d ==> r.error.UnsupportedCharacter?
    ensures Checks(|d.buffer|, s).None? ==>
      var prepared := Prepare(s);
      var clear := Strip(prepared);
      var ts := CommaPositions(prepared, 0, 0);
      var k := FirstUnsupported(clear, 0);
      && |clear| <= |d.buffer|
      && (forall m :: 0 <= m < |ts| ==> 0 <= ts[m] < |clear|)
      && (r.Done? <==> k == |clear|)
      && (r.Raised? ==> r.error == UnsupportedCharacter([clear[k]]))
      && forall m :: 0 <= m < |d.buffer| ==>
           r.display.buffer[m] ==
             if m >= k then d.buffer[m]
             else if r.Done? && m in ts then {d.config.segments[7]}
             else Glyph(d.config, clear[m])
  {
    match Checks(|d.config.digits|, s)
    case Some(e) => Raised(e, d)
    case None =>
      var prepared := Prepare(s);
      var clear := Strip(prepared);
      FitsOnDisplay(|d.buffer|, s);
      CommaPositionsAreTargets(prepared);
      TargetsInRange(prepared);
      match RenderChars(d, clear, 0)
      case Raised(e, d') => Raised(e, d')
      case Done(d') =>
        var ts := CommaPositions(prepared, 0, 0);
        assert ts[0..] == ts;
        ApplyCommas(d', ts, 0)
  }

  /** After a successful `setString`, each shown character of the prepared
      string is on the digit of its place among the shown characters, unless
      a separator targets that digit. */
  lemma SetStringShowsCharacter(d: Display, s: string, i: nat)
    requires Valid(d) && Checks(|d.buffer|, s).None? && SetString(d, s).Done?
    requires i < |Prepare(s)| && !IsSeparator(Prepare(s)[i])
    requires NonSeparators(Prepare(s)[..i]) !in Targets(Prepare(s))
    ensures
      var m := NonSeparators(Prepare(s)[..i]);
      && m < |d.buffer| && InTable(Prepare(s)[i])
      && SetString(d, s).display.buffer[m] == Glyph(d.config, Prepare(s)[i])
  {
    var prepared := Prepare(s);
    StripAt(prepared, i);
    FitsOnDisplay(|d.buffer|, s);
    CommaPositionsAreTargets(prepared);
  }

  /** After a successful `setString`, the digit of the last shown character
      before each separator shows the dot alone. */
  lemma SetStringDotsLastShown(d: Display, s: string, q: nat, p: nat)
    requires Valid(d) && Checks(|d.buffer|, s).None? && SetString(d, s).Done?
    requires q < p < |Prepare(s)| && !IsSeparator(Prepare(s)[q]) && IsSeparator(Prepare(s)[p])
    requires forall j :: q < j < p ==> IsSeparator(Prepare(s)[j])
    ensures
      var m := NonSeparators(Prepare(s)[..q]);
      m < |d.buffer| && SetString(d, s).display.buffer[m] == {d.config.segments[7]}
  {
    var prepared := Prepare(s);
    SeparatorTargetsLastShown(prepared, q, p);
    FitsOnDisplay(|d.buffer|, s);
    CommaPositionsAreTargets(prepared);
    var m := NonSeparators(prepared[..q]);
    assert m in Targets(prepared);
  }

  /** A string longer than twice the digit count is refused before any
      digit is touched; so is the empty string, at its first character. */
  lemma RejectsBeforeWriting(d: Display, s: string)
    requires Valid(d)
    ensures |s| > 2 * |d.buffer| ==> SetString(d, s) == Raised(StringTooLong, d)
    ensures Separators(s) > |d.buffer| && |s| <= 2 * |d.buffer| ==> SetString(d, s) == Raised(TooManySeparators, d)
    ensures s == [] ==> SetString(d, s) == Raised(EmptyString, d)
  {
  }

  /** A leading separator behaves as if a blank had been typed before it: the
      separator attaches to that blank digit. Only the kind of capacity error
      may differ. */
  lemma LeadingSeparatorIsPadded(d: Display, s: string)
    requires Valid(d) && |s| > 0 && IsSeparator(s[0])
    ensures SetString(d, s).display == SetString(d, [' '] + s).display
    ensures SetString(d, s).Done? <==> SetString(d, [' '] + s).Done?
  {
    var n := |d.buffer|;
    var t := [' '] + s;
    assert Padded(t) == t == Padded(s);
    assert Prepare(s) == Prepare(t);
    assert t[1..] == s;
    assert Separators(t) == Separators(s);
    assert Checks(n, s).None? <==> Checks(n, t).None?;
  }

  /** A doubled comma is rendered as the comma, a blank digit, and the
      comma: "1,,2" shows what "1, ,2" shows. */
  lemma DoubledCommaExample(d: Display)
    requires Valid(d)
    ensures SetString(d, "1,,2").display == SetString(d, "1, ,2").display
    ensures SetString(d, "1,,2").Done? <==> SetString(d, "1, ,2").Done?
  {
    DoubledCommaPrepared();
    assert Checks(|d.buffer|, "1,,2").None? <==> Checks(|d.buffer|, "1, ,2").None?;
  }

  lemma DoubledCommaPrepared()
    ensures Prepare("1,,2") == "1, ,2" == Prepare("1, ,2")
    ensures Separators("1,,2") == 2 == Separators("1, ,2")
  {
    DoubledCommaExpanded();
    SpacedCommaExpanded();
    DoubledCommaCounted();
  }

  lemma DoubledCommaExpanded()
    ensures Prepare("1,,2") == "1, ,2"
  {
    assert Padded("1,,2") == "1,,2";
    assert ExpandDoubled("1,,2", ',') == "1, ,2";
  }

  lemma SpacedCommaExpanded()
    ensures Prepare("1, ,2") == "1, ,2"
  {
    assert Padded("1, ,2") == "1, ,2";
    assert ExpandDoubled("1, ,2", ',') == "1, ,2";
  }

  lemma DoubledCommaCounted()
    ensures Separators("1,,2") == 2 == Separators("1, ,2")
  {
  }

  /** On four digits, "3.141" shows the dot alone on digit 0, then 1, 4, 1:
      the dot replaces the '3' instead of joining it. */
  lemma PiExample(d: Display, s: string)
    requires Valid(d) && |d.buffer| == 4 && s == "3.141"
    ensures SetString(d, s).Done?
    ensures
      var b := SetString(d, s).display.buffer;
      && b[0] == {d.config.segments[7]}
      && b[1] == Glyph(d.config, '1') && b[2] == Glyph(d.config, '4') && b[3] == Glyph(d.config, '1')
  {
    PiRoute(d, s);
    PiRendered(d);
  }

  /** "3.141" passes the checks, renders "3141" and targets digit 0. */
  lemma PiRoute(d: Display, s: string)
    requires Valid(d) && |d.buffer| == 4 && s == "3.141"
    ensures RenderChars(d, "3141", 0).Done?
    ensures SetString(d, s) == ApplyCommas(RenderChars(d, "3141", 0).display, [0], 0)
  {
    PiPrepared();
    PiStripped();
    assert Checks(4, s).None?;
  }

  lemma PiRendered(d: Display)
    requires Valid(d) && |d.buffer| == 4
    requires RenderChars(d, "3141", 0).Done?
    ensures
      var b := ApplyCommas(RenderChars(d, "3141", 0).display, [0], 0).display.buffer;
      && b[0] == {d.config.segments[7]}
      && b[1] == Glyph(d.config, '1') && b[2] == Glyph(d.config, '4') && b[3] == Glyph(d.config, '1')
  {
    PiGlyphs(d);
    DotOnFirst(RenderChars(d, "3141", 0).display);
  }

  lemma PiGlyphs(d: Display)
    requires Valid(d) && |d.buffer| == 4
    ensures
      var g := RenderChars(d, "3141", 0).display.buffer;
      && g[1] == Glyph(d.config, '1') && g[2] == Glyph(d.config, '4') && g[3] == Glyph(d.config, '1')
  {
    var clear := "3141";
    assert FirstUnsupported(clear, 0) == 4;
    assert clear[1] == '1' && clear[2] == '4' && clear[3] == '1';
  }

  lemma DotOnFirst(e: Display)
    requires Valid(e) && |e.buffer| == 4
    ensures
      var b := ApplyCommas(e, [0], 0).display.buffer;
      b[0] == {e.config.segments[7]} && b[1] == e.buffer[1] && b[2] == e.buffer[2] && b[3] == e.buffer[3]
  {
    var ts: seq<int> := [0];
    assert ts[0..] == ts;
    assert 1 !in ts && 2 !in ts && 3 !in ts;
  }

  lemma PiPrepared()
    ensures Separators("3.141") == 1
    ensures Prepare("3.141") == "3.141"
  {
  }

  lemma PiStripped()
    ensures Strip("3.141") == "3141"
    ensures CommaPositions("3.141", 0, 0) == [0]
    ensures FirstUnsupported("3141", 0) == 4
  {
    PiNoCommas();
    PiTargets();
    PiSupported();
  }

  lemma PiNoCommas()
    ensures RemoveAll("3.141", ',') == "3.141"
    ensures RemoveAll("3.141", '.') == "3141"
  {
    NothingToRemove("3.141", ',');
    NothingToRemove("141", '.');
    assert "3.141" == "3." + "141";
    RemoveAllConcat("3.", "141", '.');
    assert RemoveAll(".", '.') == [];
    assert RemoveAll("3.", '.') == "3";
  }

  lemma {:induction false} NothingToRemove(s: string, ch: char)
    requires forall i :: 0 <= i < |s| ==> s[i] != ch
    ensures RemoveAll(s, ch) == s
  {
    if s != [] {
      NothingToRemove(s[1..], ch);
    }
  }

  lemma PiTargets()
    ensures CommaPositions("3.141", 0, 0) == [0]
  {
  }

  lemma PiSupported()
    ensures FirstUnsupported("3141", 0) == 4
  {
  }
}
