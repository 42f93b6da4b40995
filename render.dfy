/**
 Heat rows: `render_heat` draws one seed value per athlete, floors it at zero,
 sorts the values ascending and pairs them position by position with the heat's
 athletes; rows are numbered from 1 and, when the event has several heats, the
 first row of each heat shows the heat number. Seed values are integer
 hundredths (of a second for timed kinds, of a metre otherwise); the random
 draws are a parameter.
 */
module Render {
  import opened Wrappers
  import opened Text
  import opened Meet
  import Heats
  import Arith

  // ---------------------------------------------------------------------------
  // Seed values

  /** `max(0, x)` */
  function Clamp(x: int): nat {
    if x < 0 then 0 else x
  }

  function ClampAll(xs: seq<int>): (r: seq<nat>)
    ensures |r| == |xs|
  {
    seq(|xs|, i requires 0 <= i < |xs| => Clamp(xs[i]))
  }

  predicate Ascending(s: seq<nat>) {
    forall i, j :: 0 <= i < j < |s| ==> s[i] <= s[j]
  }

  /** Inserts `x` before the first element not smaller than it. */
  function Insert(x: nat, s: seq<nat>): (r: seq<nat>)
    ensures |r| == |s| + 1
  {
    if s == [] || x <= s[0] then [x] + s else [s[0]] + Insert(x, s[1..])
  }

  /** The result of `list.sort()` on a list of numbers. */
  function Sort(s: seq<nat>): (r: seq<nat>)
    ensures |r| == |s|
  {
    if s == [] then [] else Insert(s[0], Sort(s[1..]))
  }

  /** A lower bound of `x` and of every element of `s` bounds the insertion. */
  lemma {:induction false} InsertLowerBound(x: nat, s: seq<nat>, lo: nat)
    requires lo <= x && forall k :: 0 <= k < |s| ==> lo <= s[k]
    ensures forall k :: 0 <= k < |Insert(x, s)| ==> lo <= Insert(x, s)[k]
  {
    if s != [] && x > s[0] {
      InsertLowerBound(x, s[1..], lo);
    }
  }

  lemma {:induction false} InsertAscending(x: nat, s: seq<nat>)
    requires Ascending(s)
    ensures Ascending(Insert(x, s))
  {
    if s != [] && x > s[0] {
      InsertAscending(x, s[1..]);
      InsertLowerBound(x, s[1..], s[0]);
    }
  }

  lemma {:induction false} InsertMultiset(x: nat, s: seq<nat>)
    ensures multiset(Insert(x, s)) == multiset(s) + multiset{x}
  {
    if s != [] && x > s[0] {
      InsertMultiset(x, s[1..]);
      assert s == [s[0]] + s[1..];
      assert Insert(x, s) == [s[0]] + Insert(x, s[1..]);
    }
  }

  /** Sorting yields an ascending permutation of its input. */
  lemma {:induction false} SortSpec(s: seq<nat>)
    ensures Ascending(Sort(s))
    ensures multiset(Sort(s)) == multiset(s)
  {
    if s != [] {
      SortSpec(s[1..]);
      InsertAscending(s[0], Sort(s[1..]));
      InsertMultiset(s[0], Sort(s[1..]));
      assert s == [s[0]] + s[1..];
    }
  }

  /** An ascending arrangement of a multiset of numbers is unique, so the sorted
      seeds do not depend on how the sort works. */
  lemma {:induction false} AscendingUnique(a: seq<nat>, b: seq<nat>)
    requires Ascending(a) && Ascending(b) && multiset(a) == multiset(b)
    ensures a == b
    decreases |a|
  {
    assert |a| == |multiset(a)| == |multiset(b)| == |b|;
    if a != [] {
      var x, y := a[0], b[0];
      HeadIsLeast(b, x);
      HeadIsLeast(a, y);
      var ta, tb := a[1..], b[1..];
      assert a == [x] + ta && b == [x] + tb;
      MultisetCancel(multiset(ta), multiset(tb), x);
      AscendingTail(a);
      AscendingTail(b);
      AscendingUnique(ta, tb);
    }
  }

  /** The head of an ascending sequence is at most any of its elements. */
  lemma HeadIsLeast(a: seq<nat>, x: nat)
    requires Ascending(a) && x in multiset(a)
    ensures a != [] && a[0] <= x
  {
    assert x in a;
    var i :| 0 <= i < |a| && a[i] == x;
    if i > 0 {
      assert a[0] <= a[i];
    }
  }

  lemma MultisetCancel(p: multiset<nat>, q: multiset<nat>, x: nat)
    requires multiset{x} + p == multiset{x} + q
    ensures p == q
  {
    forall e ensures p[e] == q[e] {
      assert (multiset{x} + p)[e] == (multiset{x} + q)[e];
    }
  }

  lemma AscendingTail(a: seq<nat>)
    requires Ascending(a) && a != []
    ensures Ascending(a[1..])
  {
    forall i, j | 0 <= i < j < |a| - 1 ensures a[1..][i] <= a[1..][j] {
      assert a[1..][i] == a[i + 1] && a[1..][j] == a[j + 1];
    }
  }

  // ---------------------------------------------------------------------------
  // Mark text

  /** `f"{v:.2f}"` for a value of `v` hundredths. */
  function Fixed2(v: nat): string {
    DecimalText(v / 100) + "." + TwoDigits(v % 100)
  }

  /** `f"{v // 60}:{s:04.1f}"`, with the seconds truncated to tenths, for a time of
      `v` hundredths of a second. */
  function MinSec(v: nat): string {
    var tenths := (v % 6000) / 10;
    DecimalText(v / 6000) + ":" + TwoDigits(tenths / 10) + "." + [Digit(tenths % 10)]
  }

  /** `format_seed_time`: plain seconds for an event averaging under a minute. */
  function FormatSeedTime(seed: nat, average: int): string {
    if average < 6000 then Fixed2(seed) else MinSec(seed)
  }

  /** The mark column of a row: a time for timed kinds, metres otherwise. */
  function FormatMark(kind: EventKind, average: int, seed: nat): string {
    if IsRun(kind) then FormatSeedTime(seed, average) else Fixed2(seed) + "m"
  }

  /** The value a minutes-and-seconds mark shows: the seed truncated to tenths. */
  function Shown(v: nat): nat {
    v - v % 10
  }

  /** Reads a `whole.hh` text back as hundredths. */
  function ParseFixed2(s: string): Option<nat> {
    match IndexOf(s, '.')
    case None => None
    case Some(i) => Fixed2Fields(s[..i], s[i + 1..])
  }

  /** The hundredths shown by the digits before and after the dot. */
  function Fixed2Fields(whole: string, frac: string): Option<nat> {
    if 1 <= |whole| && IsDigits(whole) && |frac| == 2 && IsDigits(frac)
    then Some(DecimalValue(whole) * 100 + DecimalValue(frac))
    else None
  }

  /** Reads an `m:ss.t` text back as hundredths of a second. */
  function ParseMinSec(s: string): Option<nat> {
    match IndexOf(s, ':')
    case None => None
    case Some(i) =>
      var rest := s[i + 1..];
      if |rest| == 4 && rest[2] == '.' then MinSecFields(s[..i], rest[..2], rest[3]) else None
  }

  /** The hundredths shown by minutes, two second digits and a tenths digit. */
  function MinSecFields(mins: string, secs: string, tenth: char): Option<nat> {
    if 1 <= |mins| && IsDigits(mins) && IsDigits(secs) && IsDigit(tenth)
    then Some(DecimalValue(mins) * 6000 + DecimalValue(secs) * 100 + DigitValue(tenth) * 10)
    else None
  }

  /** Reads a mark back, given the event's kind and average. */
  function ParseMark(kind: EventKind, average: int, s: string): Option<nat> {
    if IsRun(kind) then
      if average < 6000 then ParseFixed2(s) else ParseMinSec(s)
    else if |s| >= 1 && s[|s| - 1] == 'm' then ParseFixed2(s[..|s| - 1])
    else None
  }

  /** A string of digits holds no separator. */
  lemma DigitsLackSeparator(s: string, c: char)
    requires IsDigits(s) && !IsDigit(c)
    ensures c !in s
  {
    forall k | 0 <= k < |s| ensures s[k] != c { assert IsDigit(s[k]); }
  }

  /** Splitting `whole + "." + frac` at its first dot gives back both parts. */
  lemma Fixed2Parts(whole: string, frac: string)
    requires IsDigits(whole)
    ensures ParseFixed2(whole + "." + frac) == Fixed2Fields(whole, frac)
  {
    var s := whole + "." + frac;
    assert s == whole + ['.'] + frac;
    DigitsLackSeparator(whole, '.');
    IndexAfter(whole, '.', frac);
    assert s[..|whole|] == whole && s[|whole| + 1..] == frac;
  }

  /** A two-decimal text reads back as the value it was written from. */
  lemma Fixed2RoundTrip(v: nat)
    ensures ParseFixed2(Fixed2(v)) == Some(v)
  {
    var whole, frac := DecimalText(v / 100), TwoDigits(v % 100);
    Fixed2Parts(whole, frac);
    DecimalRoundTrip(v / 100);
    TwoDigitsValue(v % 100);
  }

  /** Splitting `mins + ":" + rest` at its first colon gives back both parts. */
  lemma MinSecParts(mins: string, tens: string, d: char)
    requires IsDigits(mins) && |tens| == 2
    ensures ParseMinSec(mins + ":" + tens + "." + [d]) == MinSecFields(mins, tens, d)
  {
    var rest := tens + "." + [d];
    var s := mins + ":" + tens + "." + [d];
    assert s == mins + [':'] + rest;
    DigitsLackSeparator(mins, ':');
    IndexAfter(mins, ':', rest);
    assert s[..|mins|] == mins && s[|mins| + 1..] == rest;
    assert rest[..2] == tens && rest[2] == '.' && rest[3] == d;
  }

  /** The minutes, whole seconds and tenths of a time add up to the time truncated to tenths. */
  lemma MinSecArith(v: nat)
    ensures var tenths := (v % 6000) / 10;
      (v / 6000) * 6000 + (tenths / 10) * 100 + (tenths % 10) * 10 == Shown(v)
  {
    var q, r := v / 6000, v % 6000;
    var tenths := r / 10;
    assert v == q * 6000 + r;
    assert r == tenths * 10 + r % 10;
    assert tenths == (tenths / 10) * 10 + tenths % 10;
    Arith.DivUnique(v, 10, q * 600 + tenths, r % 10);
  }

  /** A minutes-and-seconds text reads back as the time truncated to tenths. */
  lemma MinSecRoundTrip(v: nat)
    ensures ParseMinSec(MinSec(v)) == Some(Shown(v))
  {
    var tenths := (v % 6000) / 10;
    var mins, tens, d := DecimalText(v / 6000), TwoDigits(tenths / 10), Digit(tenths % 10);
    MinSecParts(mins, tens, d);
    DecimalRoundTrip(v / 6000);
    TwoDigitsValue(tenths / 10);
    MinSecArith(v);
  }

  /** Every mark reads back as its seed, up to the tenths a minutes-and-seconds
      mark keeps. */
  lemma MarkRoundTrip(kind: EventKind, average: int, seed: nat)
    ensures ParseMark(kind, average, FormatMark(kind, average, seed))
         == Some(if IsRun(kind) && average >= 6000 then Shown(seed) else seed)
  {
    if IsRun(kind) {
      if average < 6000 {
        Fixed2RoundTrip(seed);
      } else {
        MinSecRoundTrip(seed);
      }
    } else {
      var s := Fixed2(seed) + "m";
      assert s[..|s| - 1] == Fixed2(seed);
      Fixed2RoundTrip(seed);
    }
  }

  /** Truncation keeps the order of the sorted seeds. */
  lemma ShownMonotone(a: nat, b: nat)
    requires a <= b
    ensures Shown(a) <= Shown(b)
    ensures Shown(a) <= a < Shown(a) + 10
  {
    Arith.DivUnique(a, 10, a / 10, a % 10);
    Arith.DivUnique(b, 10, b / 10, b % 10);
  }

  // ---------------------------------------------------------------------------
  // Rows

  /** The heat column of a row: absent, empty, or the heat number. */
  datatype HeatCell = NoColumn | Blank | Number(n: nat)

  /** One table row: heat cell, position, athlete, seed value and its text. */
  datatype HeatRow = HeatRow(heat: HeatCell, position: nat, athlete: Athlete, seed: nat, mark: string)

  /** `heat_number if i == 0 else ''`, or no column at all. */
  function HeatCellAt(heatNumber: Option<nat>, i: nat): HeatCell {
    match heatNumber
    case None => NoColumn
    case Some(n) => if i == 0 then Number(n) else Blank
  }

  /** `render_heat(heat, heat_number, event)`, with the random draws given. */
  function RenderHeat(heat: seq<Athlete>, heatNumber: Option<nat>, kind: EventKind, average: int,
                      draws: seq<int>): (rows: seq<HeatRow>)
    requires |draws| == |heat|
    ensures |rows| == |heat|
  {
    PairRows(heat, Sort(ClampAll(draws)), heatNumber, kind, average, 0)
  }

  /** `enumerate(zip(heat, seed_times))` from index `from` on, one row per pair. */
  function PairRows(heat: seq<Athlete>, seeds: seq<nat>, heatNumber: Option<nat>, kind: EventKind,
                    average: int, from: nat): (rows: seq<HeatRow>)
    requires |seeds| == |heat|
    ensures |rows| == |heat|
  {
    if heat == [] then []
    else [HeatRow(HeatCellAt(heatNumber, from), from + 1, heat[0], seeds[0], FormatMark(kind, average, seeds[0]))]
         + PairRows(heat[1..], seeds[1..], heatNumber, kind, average, from + 1)
  }

  /** Row `i` pairs athlete `i` with seed `i`, at index `from + i`. */
  lemma {:induction false} PairRowsAt(heat: seq<Athlete>, seeds: seq<nat>, heatNumber: Option<nat>,
                                      kind: EventKind, average: int, from: nat)
    requires |seeds| == |heat|
    ensures forall i :: 0 <= i < |heat| ==>
      PairRows(heat, seeds, heatNumber, kind, average, from)[i]
      == HeatRow(HeatCellAt(heatNumber, from + i), from + i + 1, heat[i], seeds[i], FormatMark(kind, average, seeds[i]))
  {
    if heat != [] {
      PairRowsAt(heat[1..], seeds[1..], heatNumber, kind, average, from + 1);
      var rows := PairRows(heat, seeds, heatNumber, kind, average, from);
      var tail := PairRows(heat[1..], seeds[1..], heatNumber, kind, average, from + 1);
      forall i | 1 <= i < |heat|
        ensures rows[i] == HeatRow(HeatCellAt(heatNumber, from + i), from + i + 1, heat[i], seeds[i],
                                   FormatMark(kind, average, seeds[i]))
      {
        assert rows[i] == tail[i - 1];
      }
    }
  }

  function Seeds(rows: seq<HeatRow>): (r: seq<nat>)
    ensures |r| == |rows|
  {
    seq(|rows|, i requires 0 <= i < |rows| => rows[i].seed)
  }

  function Athletes(rows: seq<HeatRow>): (r: seq<Athlete>)
    ensures |r| == |rows|
  {
    seq(|rows|, i requires 0 <= i < |rows| => rows[i].athlete)
  }

  /** One row per athlete, in heat order, numbered from 1; the heat number only on
      the first row; each mark is its seed's text; and the seeds are the draws
      floored at zero, in ascending order, so any ascending arrangement of them
      is exactly this column. */
  lemma RenderHeatRows(heat: seq<Athlete>, heatNumber: Option<nat>, kind: EventKind, average: int,
                       draws: seq<int>)
    requires |draws| == |heat|
    ensures var rows := RenderHeat(heat, heatNumber, kind, average, draws);
      Athletes(rows) == heat &&
      (forall i :: 0 <= i < |rows| ==> rows[i].position == i + 1) &&
      (forall i :: 0 <= i < |rows| ==> rows[i].mark == FormatMark(kind, average, rows[i].seed)) &&
      (forall i :: 0 <= i < |rows| ==>
        rows[i].heat == if heatNumber.None? then NoColumn else if i == 0 then Number(heatNumber.value) else Blank)
    ensures var seeds := Seeds(RenderHeat(heat, heatNumber, kind, average, draws));
      Ascending(seeds) && multiset(seeds) == multiset(ClampAll(draws))
    ensures forall s: seq<nat> :: Ascending(s) && multiset(s) == multiset(ClampAll(draws)) ==>
      Seeds(RenderHeat(heat, heatNumber, kind, average, draws)) == s
  {
    var rows := RenderHeat(heat, heatNumber, kind, average, draws);
    var sorted := Sort(ClampAll(draws));
    PairRowsAt(heat, sorted, heatNumber, kind, average, 0);
    SortSpec(ClampAll(draws));
    assert Seeds(rows) == sorted;
    assert Athletes(rows) == heat;
    forall s: seq<nat> | Ascending(s) && multiset(s) == multiset(ClampAll(draws))
      ensures Seeds(rows) == s
    {
      AscendingUnique(sorted, s);
    }
  }

  /** The marks of a heat read back in non-decreasing order, row after row. */
  lemma MarksReadBackAscending(heat: seq<Athlete>, heatNumber: Option<nat>, kind: EventKind, average: int,
                               draws: seq<int>, i: nat, j: nat)
    requires |draws| == |heat| && i <= j < |heat|
    ensures var rows := RenderHeat(heat, heatNumber, kind, average, draws);
      ParseMark(kind, average, rows[i].mark).Some? && ParseMark(kind, average, rows[j].mark).Some? &&
      ParseMark(kind, average, rows[i].mark).value <= ParseMark(kind, average, rows[j].mark).value
  {
    var rows := RenderHeat(heat, heatNumber, kind, average, draws);
    RenderHeatRows(heat, heatNumber, kind, average, draws);
    var a, b := rows[i].seed, rows[j].seed;
    assert a == Seeds(rows)[i] && b == Seeds(rows)[j];
    assert a <= b;
    MarkRoundTrip(kind, average, a);
    MarkRoundTrip(kind, average, b);
    ShownMonotone(a, b);
  }

  /** Every seed is at least zero and at least its draw's floor value. */
  lemma SeedsFloored(draws: seq<int>)
    ensures forall x :: x in multiset(ClampAll(draws)) ==> x >= 0
    ensures forall i :: 0 <= i < |draws| ==> ClampAll(draws)[i] >= draws[i]
  {
  }

  // ---------------------------------------------------------------------------
  // An event's table

  /** The rows of heats `first`, `first + 1`, ... in order; numbered heats show
      their number on their first row. */
  function HeatsRows(heats: seq<seq<Athlete>>, draws: seq<seq<int>>, first: nat, numbered: bool,
                     kind: EventKind, average: int): seq<HeatRow>
    requires |draws| == |heats| && forall i :: 0 <= i < |heats| ==> |draws[i]| == |heats[i]|
  {
    if heats == [] then []
    else RenderHeat(heats[0], if numbered then Some(first) else None, kind, average, draws[0])
         + HeatsRows(heats[1..], draws[1..], first + 1, numbered, kind, average)
  }

  /** The body of `render_event_heat`: every heat rendered in order, numbered from 1
      exactly when the event has more than one heat. */
  function EventRows(e: Event, draws: seq<seq<int>>): seq<HeatRow>
    requires |draws| == |e.heats| && forall i :: 0 <= i < |e.heats| ==> |draws[i]| == |e.heats[i]|
  {
    HeatsRows(e.heats, draws, 1, |e.heats| > 1, e.kind, e.average)
  }

  /** The heat number a cell shows, if any. */
  function CellNumber(c: HeatCell): seq<nat> {
    if c.Number? then [c.n] else []
  }

  /** The heat numbers shown in a table, top to bottom. */
  function NumbersShown(rows: seq<HeatRow>): seq<nat> {
    if rows == [] then [] else CellNumber(rows[0].heat) + NumbersShown(rows[1..])
  }

  /** `[lo, lo + 1, ..., hi - 1]` */
  function Range(lo: nat, hi: nat): seq<nat>
    decreases hi - lo
  {
    if lo >= hi then [] else [lo] + Range(lo + 1, hi)
  }

  lemma AthletesAppend(a: seq<HeatRow>, b: seq<HeatRow>)
    ensures Athletes(a + b) == Athletes(a) + Athletes(b)
  {
  }

  lemma {:induction false} NumbersShownAppend(a: seq<HeatRow>, b: seq<HeatRow>)
    ensures NumbersShown(a + b) == NumbersShown(a) + NumbersShown(b)
  {
    if a == [] {
      assert a + b == b;
    } else {
      var c := a + b;
      var x, y, z := CellNumber(a[0].heat), NumbersShown(a[1..]), NumbersShown(b);
      calc {
        NumbersShown(c);
        CellNumber(c[0].heat) + NumbersShown(c[1..]);
        { assert c[0] == a[0] && c[1..] == a[1..] + b; }
        x + NumbersShown(a[1..] + b);
        { NumbersShownAppend(a[1..], b); }
        x + (y + z);
        { assert x + (y + z) == (x + y) + z; }
        NumbersShown(a) + z;
      }
    }
  }

  /** A rendered heat shows its number once, on its first row, and an unnumbered
      heat shows none. */
  lemma {:induction false} HeatNumbersShown(heat: seq<Athlete>, heatNumber: Option<nat>, kind: EventKind,
                                            average: int, draws: seq<int>)
    requires |draws| == |heat|
    ensures NumbersShown(RenderHeat(heat, heatNumber, kind, average, draws))
         == if heatNumber.Some? && heat != [] then [heatNumber.value] else []
  {
    var rows := RenderHeat(heat, heatNumber, kind, average, draws);
    PairRowsAt(heat, Sort(ClampAll(draws)), heatNumber, kind, average, 0);
    NoNumbersAfter(rows, 0, heatNumber);
  }

  lemma {:induction false} NoNumbersAfter(rows: seq<HeatRow>, from: nat, heatNumber: Option<nat>)
    requires from <= |rows|
    requires forall i :: 0 <= i < |rows| ==> rows[i].heat == HeatCellAt(heatNumber, i)
    ensures NumbersShown(rows[from..]) == if heatNumber.Some? && from == 0 && rows != [] then [heatNumber.value] else []
    decreases |rows| - from
  {
    if from < |rows| {
      NoNumbersAfter(rows, from + 1, heatNumber);
      assert rows[from..][1..] == rows[from + 1..];
    }
  }

  /** The rows of consecutive heats list every athlete once, heat after heat. */
  lemma {:induction false} HeatsRowsAthletes(heats: seq<seq<Athlete>>, draws: seq<seq<int>>, first: nat,
                                             numbered: bool, kind: EventKind, average: int)
    requires |draws| == |heats| && forall i :: 0 <= i < |heats| ==> |draws[i]| == |heats[i]|
    ensures Athletes(HeatsRows(heats, draws, first, numbered, kind, average)) == Heats.Flatten(heats)
  {
    if heats != [] {
      var heatNumber := if numbered then Some(first) else None;
      var head := RenderHeat(heats[0], heatNumber, kind, average, draws[0]);
      var tail := HeatsRows(heats[1..], draws[1..], first + 1, numbered, kind, average);
      HeatsRowsAthletes(heats[1..], draws[1..], first + 1, numbered, kind, average);
      RenderHeatRows(heats[0], heatNumber, kind, average, draws[0]);
      AthletesAppend(head, tail);
    }
  }

  /** Numbered heats show `first`, `first + 1`, ... on their first rows, when none is empty. */
  lemma {:induction false} HeatsRowsNumbers(heats: seq<seq<Athlete>>, draws: seq<seq<int>>, first: nat,
                                            numbered: bool, kind: EventKind, average: int)
    requires |draws| == |heats| && forall i :: 0 <= i < |heats| ==> |draws[i]| == |heats[i]|
    requires forall i :: 0 <= i < |heats| ==> heats[i] != []
    ensures NumbersShown(HeatsRows(heats, draws, first, numbered, kind, average))
         == if numbered then Range(first, first + |heats|) else []
    decreases |heats|
  {
    if heats == [] {
      assert Range(first, first) == [];
    } else {
      HeatsRowsNumbers(heats[1..], draws[1..], first + 1, numbered, kind, average);
      HeatsRowsNumbersStep(heats, draws, first, numbered, kind, average);
    }
  }

  /** The step of `HeatsRowsNumbers`: the first heat's number, then the rest's. */
  lemma HeatsRowsNumbersStep(heats: seq<seq<Athlete>>, draws: seq<seq<int>>, first: nat,
                             numbered: bool, kind: EventKind, average: int)
    requires |draws| == |heats| && forall i :: 0 <= i < |heats| ==> |draws[i]| == |heats[i]|
    requires heats != [] && heats[0] != []
    requires NumbersShown(HeatsRows(heats[1..], draws[1..], first + 1, numbered, kind, average))
          == if numbered then Range(first + 1, first + |heats|) else []
    ensures NumbersShown(HeatsRows(heats, draws, first, numbered, kind, average))
         == if numbered then Range(first, first + |heats|) else []
  {
    var heatNumber := if numbered then Some(first) else None;
    var head := RenderHeat(heats[0], heatNumber, kind, average, draws[0]);
    var tail := HeatsRows(heats[1..], draws[1..], first + 1, numbered, kind, average);
    assert HeatsRows(heats, draws, first, numbered, kind, average) == head + tail;
    NumbersShownAppend(head, tail);
    HeatNumbersShown(heats[0], heatNumber, kind, average, draws[0]);
    assert Range(first, first + |heats|) == [first] + Range(first + 1, first + |heats|);
  }

  /** An event's table lists its heats' athletes in heat order, and the heat numbers
      1..k appear, once each, exactly when there are k > 1 heats. */
  lemma EventRowsSpec(e: Event, draws: seq<seq<int>>)
    requires |draws| == |e.heats| && forall i :: 0 <= i < |e.heats| ==> |draws[i]| == |e.heats[i]|
    ensures Athletes(EventRows(e, draws)) == Heats.Flatten(e.heats)
    ensures (forall i :: 0 <= i < |e.heats| ==> e.heats[i] != []) ==>
      NumbersShown(EventRows(e, draws)) == if |e.heats| > 1 then Range(1, |e.heats| + 1) else []
  {
    HeatsRowsAthletes(e.heats, draws, 1, |e.heats| > 1, e.kind, e.average);
    if forall i :: 0 <= i < |e.heats| ==> e.heats[i] != [] {
      HeatsRowsNumbers(e.heats, draws, 1, |e.heats| > 1, e.kind, e.average);
    }
  }

  // ---------------------------------------------------------------------------
  // Table layout

  /** The column headers of an event's table. */
  function Header(kind: EventKind, heatCount: nat): seq<string> {
    (if heatCount > 1 then ["Heat"] else []) + [PositionLabel(kind), "Athlete Name", "School/Team", MarkLabel(kind)]
  }

  /** The number of columns the tabular environment declares. */
  function ColumnCount(heatCount: nat): nat {
    if heatCount == 1 then 5 else 6
  }

  /** The text cells of a row, before the trailing empty cell. */
  function RowCells(r: HeatRow): seq<string> {
    (match r.heat
     case NoColumn => []
     case Blank => [""]
     case Number(n) => [DecimalText(n)])
    + [DecimalText(r.position), r.athlete.name, TeamName(r.athlete.team), r.mark]
  }

  /** Every row of an event's table has one cell per header, and the declared
      columns are those cells plus the trailing empty one, as long as the event
      has a heat. */
  lemma {:induction false} RowsFitHeader(e: Event, draws: seq<seq<int>>)
    requires |draws| == |e.heats| && forall i :: 0 <= i < |e.heats| ==> |draws[i]| == |e.heats[i]|
    ensures forall r :: r in EventRows(e, draws) ==> |RowCells(r)| == |Header(e.kind, |e.heats|)|
    ensures |e.heats| >= 1 ==> ColumnCount(|e.heats|) == |Header(e.kind, |e.heats|)| + 1
  {
    HeatsRowsCells(e.heats, draws, 1, |e.heats| > 1, e.kind, e.average);
  }

  lemma {:induction false} HeatsRowsCells(heats: seq<seq<Athlete>>, draws: seq<seq<int>>, first: nat,
                                          numbered: bool, kind: EventKind, average: int)
    requires |draws| == |heats| && forall i :: 0 <= i < |heats| ==> |draws[i]| == |heats[i]|
    ensures forall r :: r in HeatsRows(heats, draws, first, numbered, kind, average) ==>
      |RowCells(r)| == if numbered then 5 else 4
  {
    if heats != [] {
      var heatNumber := if numbered then Some(first) else None;
      RenderHeatRows(heats[0], heatNumber, kind, average, draws[0]);
      HeatsRowsCells(heats[1..], draws[1..], first + 1, numbered, kind, average);
    }
  }

  /** The header labels follow the kind: "Lane" only for track, "Seed Time" for timed kinds. */
  lemma HeaderLabels(kind: EventKind, heatCount: nat)
    ensures var h := Header(kind, heatCount);
      h[|h| - 4] == (if kind == Track then "Lane" else "Order") &&
      h[|h| - 1] == (if IsRun(kind) then "Seed Time" else "Mark") &&
      (heatCount > 1 <==> h[0] == "Heat")
  {
    KindChoices(kind);
    var h := Header(kind, heatCount);
    if heatCount <= 1 {
      assert h[0] == PositionLabel(kind);
      assert "Lane" != "Heat" && "Order" != "Heat" by { assert "Lane"[0] != 'H' && "Order"[0] != 'H'; }
    }
  }
}
