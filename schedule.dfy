/**
 Schedule building: events run in the configured order; each starts when the
 previous one started plus its duration plus the gap between events. Times are
 whole minutes counted from midnight of the meet's first day, and are shown as
 `strftime("%-I:%M %p")` shows them.
 */
module Schedule {
  import opened Wrappers
  import opened Text
  import opened Meet
  import Heats
  import Arith

  /** `%-I`: the hour on a 12-hour dial, without a leading zero. */
  function HourText(hour: nat): (r: string)
    requires 1 <= hour <= 12
    ensures IsDigits(r) && (|r| == 1 || |r| == 2) && r[0] != '0'
  {
    if hour < 10 then [Digit(hour)] else ['1', Digit(hour - 10)]
  }

  /** The hour (1-12), minutes and AM/PM of a time: `%-I:%M %p`. */
  function FormatClock(t: int): string {
    var m := t % 1440;
    var h := m / 60;
    HourText(if h % 12 == 0 then 12 else h % 12) + ":" + TwoDigits(m % 60) + " " + (if h < 12 then "AM" else "PM")
  }

  /** The clock text has one or two hour digits, no leading zero, and ends in AM
      before noon and PM from noon on. */
  lemma ClockShape(t: int)
    ensures var r := FormatClock(t);
      (|r| == 7 || |r| == 8) && r[0] != '0' && IsDigit(r[0]) &&
      r[|r| - 2..] == if t % 1440 < 720 then "AM" else "PM"
  {
    var m := t % 1440;
    var h := m / 60;
    var ht := HourText(if h % 12 == 0 then 12 else h % 12);
    var suffix := if h < 12 then "AM" else "PM";
    var r := FormatClock(t);
    assert r == ht + ([':'] + TwoDigits(m % 60) + [' ']) + suffix;
    assert r[0] == ht[0];
    assert r[|r| - 2..] == suffix;
    assert h < 12 <==> m < 720;
  }

  /** The hour text reads back as the hour. */
  lemma HourRoundTrip(hour: nat)
    requires 1 <= hour <= 12
    ensures DecimalValue(HourText(hour)) == hour
  {
    var r := HourText(hour);
    if hour >= 10 {
      assert r[..1] == ['1'] && r[..1][..0] == [];
      assert DecimalValue(r[..1]) == 1;
    } else {
      assert r[..0] == [];
    }
  }

  /** Reads a `%-I:%M %p` string back to the minute of the day it shows. */
  function ParseClock(s: string): Option<nat> {
    match IndexOf(s, ':')
    case None => None
    case Some(i) =>
      var rest := s[i + 1..];
      if |rest| == 5 && rest[2] == ' ' then ParseFields(s[..i], rest[..2], rest[3..]) else None
  }

  /** The minute of the day shown by an hour, two minute digits and a suffix. */
  function ParseFields(hour: string, minutes: string, suffix: string): Option<nat> {
    if 1 <= |hour| && IsDigits(hour) && IsDigits(minutes) && (suffix == "AM" || suffix == "PM") then
      var h, m := DecimalValue(hour), DecimalValue(minutes);
      if 1 <= h <= 12 && m < 60 then Some((h % 12 + (if suffix == "PM" then 12 else 0)) * 60 + m) else None
    else None
  }

  /** A text assembled from an hour, two minute characters and a suffix splits back
      into those parts. */
  lemma ParseParts(ht: string, mt: string, suffix: string)
    requires IsDigits(ht) && |mt| == 2 && |suffix| == 2
    ensures ParseClock(ht + ":" + mt + " " + suffix) == ParseFields(ht, mt, suffix)
  {
    var s := ht + ":" + mt + " " + suffix;
    var tail := mt + " " + suffix;
    assert s == ht + [':'] + tail;
    assert ':' !in ht by {
      forall k | 0 <= k < |ht| ensures ht[k] != ':' { assert IsDigit(ht[k]); }
    }
    IndexAfter(ht, ':', tail);
    assert s[..|ht|] == ht;
    assert s[|ht| + 1..] == tail;
    assert tail[..2] == mt && tail[2] == ' ' && tail[3..] == suffix;
  }

  /** The 12-hour dial and the suffix give back the hour of the day. */
  lemma DialHour(h: nat)
    requires h < 24
    ensures var hour := if h % 12 == 0 then 12 else h % 12;
      hour % 12 + (if h < 12 then 0 else 12) == h
  {
    Arith.DivUnique(h, 12, if h < 12 then 0 else 1, if h < 12 then h else h - 12);
  }

  /** The hour and minute fields read back as the minute of the day they show. */
  lemma FieldsRoundTrip(hour: nat, minute: nat, suffix: string)
    requires 1 <= hour <= 12 && minute < 60 && (suffix == "AM" || suffix == "PM")
    ensures ParseFields(HourText(hour), TwoDigits(minute), suffix)
         == Some((hour % 12 + (if suffix == "PM" then 12 else 0)) * 60 + minute)
  {
    HourRoundTrip(hour);
    TwoDigitsValue(minute);
  }

  /** The clock text determines the minute of the day: parsing it gives that minute back. */
  lemma ClockRoundTrip(t: int)
    ensures ParseClock(FormatClock(t)) == Some(t % 1440)
  {
    var m := t % 1440;
    var h := m / 60;
    var hour := if h % 12 == 0 then 12 else h % 12;
    var suffix := if h < 12 then "AM" else "PM";
    var ht, mt := HourText(hour), TwoDigits(m % 60);
    calc {
      ParseClock(FormatClock(t));
      { assert FormatClock(t) == ht + ":" + mt + " " + suffix; }
      ParseClock(ht + ":" + mt + " " + suffix);
      { ParseParts(ht, mt, suffix); }
      ParseFields(ht, mt, suffix);
      { FieldsRoundTrip(hour, m % 60, suffix); }
      Some((hour % 12 + (if suffix == "PM" then 12 else 0)) * 60 + m % 60);
      { ClockDial(m); }
      Some(m);
    }
  }

  /** The dial hour, the suffix and the minutes give back the minute of the day. */
  lemma ClockDial(m: int)
    requires 0 <= m < 1440
    ensures var h := m / 60;
      var hour := if h % 12 == 0 then 12 else h % 12;
      var suffix := if h < 12 then "AM" else "PM";
      (hour % 12 + (if suffix == "PM" then 12 else 0)) * 60 + m % 60 == m
  {
    var h, minute := m / 60, m % 60;
    assert 0 <= h < 24 && h * 60 + minute == m;
    var hour := if h % 12 == 0 then 12 else h % 12;
    var suffix := if h < 12 then "AM" else "PM";
    assert (suffix == "PM") == (h >= 12) by { assert "AM"[0] != "PM"[0]; }
    DialHour(h);
  }


  /** 18:00, 18:10 and 18:20 read 6:00 PM, 6:10 PM and 6:20 PM. */
  lemma ClockExamples()
    ensures FormatClock(18 * 60) == "6:00 PM"
    ensures FormatClock(18 * 60 + 10) == "6:10 PM"
    ensures FormatClock(18 * 60 + 20) == "6:20 PM"
  {
    assert Digit(6) == '6' && Digit(2) == '2' && Digit(1) == '1' && Digit(0) == '0';
    assert HourText(6) == ['6'];
    assert TwoDigits(0) == ['0', '0'] && TwoDigits(10) == ['1', '0'] && TwoDigits(20) == ['2', '0'];
    assert 1080 % 1440 == 1080 && 1080 / 60 == 18 && 1080 % 60 == 0;
    assert 1090 % 1440 == 1090 && 1090 / 60 == 18 && 1090 % 60 == 10;
    assert 1100 % 1440 == 1100 && 1100 / 60 == 18 && 1100 % 60 == 20;
    assert FormatClock(18 * 60) == ['6'] + ":" + ['0', '0'] + " " + "PM";
    assert FormatClock(18 * 60 + 10) == ['6'] + ":" + ['1', '0'] + " " + "PM";
    assert FormatClock(18 * 60 + 20) == ['6'] + ":" + ['2', '0'] + " " + "PM";
  }

  /** Midnight and noon are hour 12, not hour 0. */
  lemma ClockTwelve()
    ensures FormatClock(0) == "12:00 AM"
    ensures FormatClock(12 * 60) == "12:00 PM"
  {
    assert Digit(2) == '2' && Digit(0) == '0';
    assert HourText(12) == ['1', '2'];
    assert TwoDigits(0) == ['0', '0'];
    assert 720 % 1440 == 720 && 720 / 60 == 12 && 720 % 60 == 0;
    assert FormatClock(0) == ['1', '2'] + ":" + ['0', '0'] + " " + "AM";
    assert FormatClock(12 * 60) == ['1', '2'] + ":" + ['0', '0'] + " " + "PM";
  }

  /** Minutes from the first start to the start after the given events. */
  function Elapsed(durations: seq<int>, gap: int): int {
    if durations == [] then 0
    else Elapsed(durations[..|durations| - 1], gap) + durations[|durations| - 1] + gap
  }

  /** Start of event `k`: the first start plus every earlier duration and gap. */
  function StartOf(start: int, durations: seq<int>, gap: int, k: nat): int
    requires k <= |durations|
  {
    start + Elapsed(durations[..k], gap)
  }

  function Sum(xs: seq<int>): int {
    if xs == [] then 0 else xs[0] + Sum(xs[1..])
  }

  /** Event k starts at `start + Σ_{j<k} (duration_j + gap)`. */
  lemma {:induction false} ElapsedIsSum(durations: seq<int>, gap: int)
    ensures Elapsed(durations, gap) == Sum(durations) + |durations| * gap
  {
    if durations != [] {
      var n := |durations|;
      var init := durations[..n - 1];
      ElapsedIsSum(init, gap);
      SumSnoc(init, durations[n - 1]);
      assert init + [durations[n - 1]] == durations;
    }
  }

  lemma {:induction false} SumSnoc(xs: seq<int>, x: int)
    ensures Sum(xs + [x]) == Sum(xs) + x
  {
    if xs != [] {
      assert (xs + [x])[1..] == xs[1..] + [x];
      SumSnoc(xs[1..], x);
    }
  }

  /** Each start is the previous start plus the previous duration plus the gap. */
  lemma NextStart(start: int, durations: seq<int>, gap: int, k: nat)
    requires k < |durations|
    ensures StartOf(start, durations, gap, k + 1) == StartOf(start, durations, gap, k) + durations[k] + gap
  {
    assert durations[..k + 1][..k] == durations[..k];
  }

  /** When every event takes longer than minus the gap, starts strictly increase. */
  lemma {:induction false} StartsIncrease(start: int, durations: seq<int>, gap: int, j: nat, k: nat)
    requires forall i :: 0 <= i < |durations| ==> durations[i] + gap > 0
    requires j < k <= |durations|
    ensures StartOf(start, durations, gap, j) < StartOf(start, durations, gap, k)
    decreases k
  {
    NextStart(start, durations, gap, k - 1);
    if j < k - 1 {
      StartsIncrease(start, durations, gap, j, k - 1);
    }
  }

  /** The durations of the definitions, in order. */
  function Durations(events: seq<EventDef>): seq<int> {
    seq(|events|, k requires 0 <= k < |events| => events[k].duration)
  }

  /** The event scheduled for a definition at a given start time. */
  function Scheduled(e: EventDef, start: int): Event
    reads e
  {
    Event(e.name, FormatClock(start), Heats.HeatsOf(e.entries, e.maxHeatSize), e.kind, e.average, e.stdDev)
  }

  /** One pass of the scheduling loop: the definition's heats and its clock time. */
  method ScheduleOne(e: EventDef, start: int) returns (r: Result<Event, Heats.Fault>)
    ensures r.Failure? <==> e.maxHeatSize == 0
    ensures r.Success? ==> r.value == Scheduled(e, start)
  {
    var heats := Heats.MakeHeats(e.entries, e.maxHeatSize);
    if heats.Failure? {
      return Failure(heats.error);
    }
    return Success(Event(e.name, FormatClock(start), heats.value, e.kind, e.average, e.stdDev));
  }

  /** The scheduling loop of `generate_heat_sheet`: one event per definition, in
      order, each with its start time and its heats; a zero heat size makes
      `make_heats` raise, and then no schedule is produced. */
  method ScheduleEvents(events: seq<EventDef>, startTime: int, gap: int)
    returns (r: Result<seq<Event>, Heats.Fault>)
    ensures r.Failure? <==> exists k :: 0 <= k < |events| && events[k].maxHeatSize == 0
    ensures r.Success? ==> |r.value| == |events|
    ensures r.Success? ==> forall k :: 0 <= k < |events| ==>
      r.value[k] == Scheduled(events[k], StartOf(startTime, Durations(events), gap, k))
  {
    var proc: seq<Event> := [];
    var t := startTime;
    ghost var ds := Durations(events);
    for k := 0 to |events|
      invariant |proc| == k
      invariant t == StartOf(startTime, ds, gap, k)
      invariant forall j :: 0 <= j < k ==> events[j].maxHeatSize != 0
      invariant forall j {:trigger proc[j]} :: 0 <= j < k ==> proc[j] == Scheduled(events[j], StartOf(startTime, ds, gap, j))
    {
      var event := events[k];
      var scheduled := ScheduleOne(event, t);
      if scheduled.Failure? {
        return Failure(scheduled.error);
      }
      proc := proc + [scheduled.value];
      NextStart(startTime, ds, gap, k);
      t := t + event.duration + gap;
    }
    return Success(proc);
  }

  /** The configured meet: 18:00 start, 3-minute gap, first events of 7, 7 and 10 minutes. */
  lemma MeetStarts(rest: seq<int>)
    ensures FormatClock(StartOf(18 * 60, [7, 7, 10] + rest, 3, 0)) == "6:00 PM"
    ensures FormatClock(StartOf(18 * 60, [7, 7, 10] + rest, 3, 1)) == "6:10 PM"
    ensures FormatClock(StartOf(18 * 60, [7, 7, 10] + rest, 3, 2)) == "6:20 PM"
  {
    var ds := [7, 7, 10] + rest;
    NextStart(18 * 60, ds, 3, 0);
    NextStart(18 * 60, ds, 3, 1);
    assert ds[..0] == [];
    ClockExamples();
  }
}
