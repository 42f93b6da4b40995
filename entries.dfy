/**
 Entry parsing: every row of the entry sheet names an athlete and a
 comma-separated list of event labels. Each label and the name are normalised,
 looked up, and the athlete is appended to the list of the event the label
 resolves to, keyed by that event's lower-cased name; the lists then replace
 the entries of the configured events. Lookups that miss become diagnostics.
 */
module Entries {
  import opened Text
  import opened Meet

  /** One record of the entry sheet: its "Name" and "List of events" columns. */
  datatype EntryRow = EntryRow(name: string, events: string)

  /** The diagnostics the parser prints, in the order it prints them. */
  datatype Message =
    | EventNotFound(eventLabel: string)
    | AthleteNotFound(name: string)
    | NoEntries(event: string)
    | Parsed

  /** What one (athlete, event label) pairing of a row comes to. */
  datatype Outcome = Entered(key: string, athlete: Athlete) | Skipped(message: Message)

  /** `s.strip().lower()` */
  function Normalize(s: string): string {
    Lower(Strip(s))
  }

  /** The key an event's entries are collected under: its lower-cased name. */
  function Key(e: EventDef): string {
    Lower(e.name)
  }

  function NormalizeAll(parts: seq<string>): seq<string> {
    seq(|parts|, i requires 0 <= i < |parts| => Normalize(parts[i]))
  }

  /** The normalised event labels of a row. */
  function Labels(row: EntryRow): seq<string> {
    NormalizeAll(Split(Strip(row.events), ','))
  }

  /** Look up the event first, then the athlete. */
  function Resolve(eventLabel: string, name: string, nameMap: map<string, Athlete>,
                   eventMap: map<string, EventDef>): Outcome
  {
    if eventLabel !in eventMap then Skipped(EventNotFound(eventLabel))
    else if name !in nameMap then Skipped(AthleteNotFound(name))
    else Entered(Key(eventMap[eventLabel]), nameMap[name])
  }

  /** The outcomes of one row's labels, in label order. */
  function RowOutcomes(labels: seq<string>, name: string, nameMap: map<string, Athlete>,
                       eventMap: map<string, EventDef>): seq<Outcome>
  {
    if labels == [] then []
    else RowOutcomes(labels[..|labels| - 1], name, nameMap, eventMap)
         + [Resolve(labels[|labels| - 1], name, nameMap, eventMap)]
  }

  /** `f` applied to every element, the results concatenated in order. */
  function FlatMap<A, B>(f: A -> seq<B>, xs: seq<A>): seq<B> {
    if xs == [] then [] else FlatMap(f, xs[..|xs| - 1]) + f(xs[|xs| - 1])
  }

  lemma {:induction false} FlatMapAppend<A, B>(f: A -> seq<B>, xs: seq<A>, ys: seq<A>)
    ensures FlatMap(f, xs + ys) == FlatMap(f, xs) + FlatMap(f, ys)
    decreases |ys|
  {
    if ys == [] {
      assert xs + ys == xs;
    } else {
      assert (xs + ys)[..|xs + ys| - 1] == xs + ys[..|ys| - 1];
      FlatMapAppend(f, xs, ys[..|ys| - 1]);
    }
  }

  /** The outcomes of all rows, in row order and label order within a row. */
  function Outcomes(rows: seq<EntryRow>, nameMap: map<string, Athlete>,
                    eventMap: map<string, EventDef>): seq<Outcome>
  {
    FlatMap((row: EntryRow) => RowResult(row, nameMap, eventMap), rows)
  }

  /** The outcomes of one row. */
  function RowResult(row: EntryRow, nameMap: map<string, Athlete>, eventMap: map<string, EventDef>): seq<Outcome> {
    RowOutcomes(Labels(row), Normalize(row.name), nameMap, eventMap)
  }

  /** `entry_map.setdefault(key, []).append(athlete)` for an entered pairing. */
  function Step(m: map<string, seq<Athlete>>, o: Outcome): map<string, seq<Athlete>> {
    if o.Entered? then m[o.key := (if o.key in m then m[o.key] else []) + [o.athlete]] else m
  }

  /** The dictionary built from a sequence of outcomes. */
  function Collect(os: seq<Outcome>): map<string, seq<Athlete>> {
    if os == [] then map[] else Step(Collect(os[..|os| - 1]), os[|os| - 1])
  }

  /** Reference definition of one event's list: the athletes of the entered
      pairings with that key, in order. */
  function EntriesFor(os: seq<Outcome>, key: string): seq<Athlete> {
    if os == [] then []
    else
      var o := os[|os| - 1];
      EntriesFor(os[..|os| - 1], key) + (if o.Entered? && o.key == key then [o.athlete] else [])
  }

  /** The lookup diagnostics, in order. */
  function Messages(os: seq<Outcome>): seq<Message> {
    if os == [] then []
    else
      var o := os[|os| - 1];
      Messages(os[..|os| - 1]) + (if o.Skipped? then [o.message] else [])
  }

  /** One diagnostic per configured event whose key gathered no entries. */
  function MissingEvents(events: seq<EventDef>, m: map<string, seq<Athlete>>): seq<Message> {
    if events == [] then []
    else
      var e := events[|events| - 1];
      MissingEvents(events[..|events| - 1], m) + (if Key(e) in m then [] else [NoEntries(Key(e))])
  }

  /** The dictionary holds a key exactly when some athlete was entered under it,
      and then it holds exactly the reference list. */
  lemma {:induction false} CollectIsEntries(os: seq<Outcome>, key: string)
    ensures key in Collect(os) <==> EntriesFor(os, key) != []
    ensures key in Collect(os) ==> Collect(os)[key] == EntriesFor(os, key)
  {
    if os != [] {
      CollectIsEntries(os[..|os| - 1], key);
    }
  }

  /** `CollectIsEntries` for the keys of the configured events. */
  lemma CollectedLists(os: seq<Outcome>, events: seq<EventDef>)
    ensures forall e :: e in events ==>
      (Key(e) in Collect(os) <==> EntriesFor(os, Key(e)) != []) &&
      (Key(e) in Collect(os) ==> Collect(os)[Key(e)] == EntriesFor(os, Key(e)))
  {
    forall e | e in events
      ensures Key(e) in Collect(os) <==> EntriesFor(os, Key(e)) != []
      ensures Key(e) in Collect(os) ==> Collect(os)[Key(e)] == EntriesFor(os, Key(e))
    {
      CollectIsEntries(os, Key(e));
    }
  }

  lemma AppendSnoc<T>(a: seq<T>, b: seq<T>, x: T)
    ensures a + (b + [x]) == (a + b) + [x]
  {
  }

  /** One more outcome: one more dictionary step, and its message if it was skipped. */
  lemma CollectSnoc(os: seq<Outcome>, o: Outcome)
    ensures Collect(os + [o]) == Step(Collect(os), o)
    ensures Messages(os + [o]) == Messages(os) + (if o.Skipped? then [o.message] else [])
  {
    assert (os + [o])[..|os|] == os;
  }

  /** One more label: one more lookup. */
  lemma RowOutcomesSnoc(labels: seq<string>, j: nat, name: string,
                        nameMap: map<string, Athlete>, eventMap: map<string, EventDef>)
    requires j < |labels|
    ensures RowOutcomes(labels[..j + 1], name, nameMap, eventMap)
         == RowOutcomes(labels[..j], name, nameMap, eventMap) + [Resolve(labels[j], name, nameMap, eventMap)]
  {
    assert labels[..j + 1][..j] == labels[..j];
  }

  /** Each label of a row yields exactly one outcome, its own lookup, in label order. */
  lemma {:induction false} RowOutcomesPointwise(labels: seq<string>, name: string,
                                                nameMap: map<string, Athlete>, eventMap: map<string, EventDef>)
    ensures |RowOutcomes(labels, name, nameMap, eventMap)| == |labels|
    ensures forall j :: 0 <= j < |labels| ==>
      RowOutcomes(labels, name, nameMap, eventMap)[j] == Resolve(labels[j], name, nameMap, eventMap)
  {
    if labels != [] {
      RowOutcomesPointwise(labels[..|labels| - 1], name, nameMap, eventMap);
    }
  }

  /** An event's list over two blocks of outcomes is the first block's list, then the second's. */
  lemma {:induction false} EntriesForAppend(o1: seq<Outcome>, o2: seq<Outcome>, key: string)
    ensures EntriesFor(o1 + o2, key) == EntriesFor(o1, key) + EntriesFor(o2, key)
    ensures Messages(o1 + o2) == Messages(o1) + Messages(o2)
    decreases |o2|
  {
    if o2 == [] {
      assert o1 + o2 == o1;
    } else {
      assert (o1 + o2)[..|o1 + o2| - 1] == o1 + o2[..|o2| - 1];
      EntriesForAppend(o1, o2[..|o2| - 1], key);
    }
  }

  /** Entries accumulate in row order: the rows of a later block are appended after
      those of an earlier one, and nothing is merged or removed. */
  lemma EntriesInRowOrder(r1: seq<EntryRow>, r2: seq<EntryRow>, key: string,
                          nameMap: map<string, Athlete>, eventMap: map<string, EventDef>)
    ensures EntriesFor(Outcomes(r1 + r2, nameMap, eventMap), key)
         == EntriesFor(Outcomes(r1, nameMap, eventMap), key) + EntriesFor(Outcomes(r2, nameMap, eventMap), key)
    ensures Messages(Outcomes(r1 + r2, nameMap, eventMap))
         == Messages(Outcomes(r1, nameMap, eventMap)) + Messages(Outcomes(r2, nameMap, eventMap))
  {
    FlatMapAppend((row: EntryRow) => RowResult(row, nameMap, eventMap), r1, r2);
    EntriesForAppend(Outcomes(r1, nameMap, eventMap), Outcomes(r2, nameMap, eventMap), key);
  }

  /** A single row's outcomes are that row's. */
  lemma OutcomesSingle(row: EntryRow, nameMap: map<string, Athlete>, eventMap: map<string, EventDef>)
    ensures Outcomes([row], nameMap, eventMap) == RowResult(row, nameMap, eventMap)
  {
    var f := (r: EntryRow) => RowResult(r, nameMap, eventMap);
    assert [row][..0] == [];
    assert FlatMap(f, [row]) == FlatMap(f, []) + f(row);
    assert [] + f(row) == f(row);
  }

  /** Outcomes that are all skipped enter nobody and report one message each. */
  lemma {:induction false} SkippedOnly(os: seq<Outcome>, key: string)
    requires forall j :: 0 <= j < |os| ==> os[j].Skipped?
    ensures EntriesFor(os, key) == []
    ensures |Messages(os)| == |os| && forall j :: 0 <= j < |os| ==> Messages(os)[j] == os[j].message
  {
    if os != [] {
      var p, o := os[..|os| - 1], os[|os| - 1];
      assert forall j :: 0 <= j < |p| ==> p[j] == os[j];
      SkippedOnly(p, key);
      assert Messages(os) == Messages(p) + [o.message];
      forall j | 0 <= j < |os|
        ensures Messages(os)[j] == os[j].message
      {
        if j < |p| {
          assert Messages(os)[j] == Messages(p)[j];
        }
      }
    }
  }

  /** The outcomes of a row whose athlete is unknown, label by label. */
  lemma UnknownAthleteRow(row: EntryRow, key: string, nameMap: map<string, Athlete>, eventMap: map<string, EventDef>)
    requires Normalize(row.name) !in nameMap
    ensures EntriesFor(RowResult(row, nameMap, eventMap), key) == []
    ensures var ms := Messages(RowResult(row, nameMap, eventMap));
      |ms| == |Labels(row)| &&
      forall j :: 0 <= j < |ms| ==>
        ms[j] == (if Labels(row)[j] in eventMap then AthleteNotFound(Normalize(row.name)) else EventNotFound(Labels(row)[j]))
  {
    RowOutcomesPointwise(Labels(row), Normalize(row.name), nameMap, eventMap);
    SkippedOnly(RowResult(row, nameMap, eventMap), key);
  }

  /** A row whose athlete is unknown adds nobody to any list, and reports, for each of
      its labels, the unknown event or else the unknown athlete. */
  lemma UnknownAthleteAddsNothing(rows: seq<EntryRow>, row: EntryRow, key: string,
                                  nameMap: map<string, Athlete>, eventMap: map<string, EventDef>)
    requires Normalize(row.name) !in nameMap
    ensures EntriesFor(Outcomes(rows + [row], nameMap, eventMap), key) == EntriesFor(Outcomes(rows, nameMap, eventMap), key)
    ensures var ms := Messages(Outcomes([row], nameMap, eventMap));
      |ms| == |Labels(row)| &&
      forall j :: 0 <= j < |ms| ==>
        ms[j] == (if Labels(row)[j] in eventMap then AthleteNotFound(Normalize(row.name)) else EventNotFound(Labels(row)[j]))
  {
    UnknownAthleteRow(row, key, nameMap, eventMap);
    OutcomesSingle(row, nameMap, eventMap);
    EntriesInRowOrder(rows, [row], key, nameMap, eventMap);
    var before := EntriesFor(Outcomes(rows, nameMap, eventMap), key);
    assert before + [] == before;
  }

  /** A row naming one event label has one outcome: that label's lookup. */
  lemma SingleLabelResult(name: string, eventLabel: string,
                          nameMap: map<string, Athlete>, eventMap: map<string, EventDef>)
    requires ',' !in eventLabel
    ensures Labels(EntryRow(name, eventLabel)) == [Normalize(eventLabel)]
    ensures RowResult(EntryRow(name, eventLabel), nameMap, eventMap)
         == [Resolve(Normalize(eventLabel), Normalize(name), nameMap, eventMap)]
  {
    StripWithin(eventLabel, ',');
    SplitNoSeparator(Strip(eventLabel), ',');
    StripIdempotent(eventLabel);
    var row := EntryRow(name, eventLabel);
    assert Labels(row) == [Normalize(eventLabel)];
    assert [Normalize(eventLabel)][..0] == [];
    assert RowOutcomes(Labels(row), Normalize(name), nameMap, eventMap)
        == [Resolve(Normalize(eventLabel), Normalize(name), nameMap, eventMap)];
  }

  /** A row naming one event label: the label resolves or is reported, then the
      athlete resolves or is reported, and only a full resolution appends the
      athlete, at the end of the list of the event's key. */
  lemma SingleLabelRow(rows: seq<EntryRow>, name: string, eventLabel: string, key: string,
                       nameMap: map<string, Athlete>, eventMap: map<string, EventDef>)
    requires ',' !in eventLabel
    ensures var l, n := Normalize(eventLabel), Normalize(name);
      EntriesFor(Outcomes(rows + [EntryRow(name, eventLabel)], nameMap, eventMap), key)
      == EntriesFor(Outcomes(rows, nameMap, eventMap), key)
         + (if l in eventMap && n in nameMap && Key(eventMap[l]) == key then [nameMap[n]] else [])
    ensures var l, n := Normalize(eventLabel), Normalize(name);
      Messages(Outcomes(rows + [EntryRow(name, eventLabel)], nameMap, eventMap))
      == Messages(Outcomes(rows, nameMap, eventMap))
         + (if l !in eventMap then [EventNotFound(l)] else if n !in nameMap then [AthleteNotFound(n)] else [])
  {
    var row := EntryRow(name, eventLabel);
    SingleLabelResult(name, eventLabel, nameMap, eventMap);
    var o := Resolve(Normalize(eventLabel), Normalize(name), nameMap, eventMap);
    OutcomesSingle(row, nameMap, eventMap);
    assert [o][..0] == [];
    EntriesInRowOrder(rows, [row], key, nameMap, eventMap);
  }

  /** Two labels that resolve to events with the same lower-cased name feed one
      list: both athletes land in it, in row order (also when the two rows are
      the same, so duplicates are kept). */
  lemma AliasesMerge(n1: string, l1: string, n2: string, l2: string,
                     nameMap: map<string, Athlete>, eventMap: map<string, EventDef>)
    requires ',' !in l1 && ',' !in l2
    requires Normalize(l1) in eventMap && Normalize(l2) in eventMap
    requires Normalize(n1) in nameMap && Normalize(n2) in nameMap
    requires Key(eventMap[Normalize(l1)]) == Key(eventMap[Normalize(l2)])
    ensures EntriesFor(Outcomes([EntryRow(n1, l1), EntryRow(n2, l2)], nameMap, eventMap), Key(eventMap[Normalize(l1)]))
         == [nameMap[Normalize(n1)], nameMap[Normalize(n2)]]
  {
    var key := Key(eventMap[Normalize(l1)]);
    var r1, r2 := EntryRow(n1, l1), EntryRow(n2, l2);
    SingleLabelResult(n1, l1, nameMap, eventMap);
    SingleLabelResult(n2, l2, nameMap, eventMap);
    OutcomesSingle(r1, nameMap, eventMap);
    OutcomesSingle(r2, nameMap, eventMap);
    assert [r1] + [r2] == [r1, r2];
    EntriesInRowOrder([r1], [r2], key, nameMap, eventMap);
    var o1 := Resolve(Normalize(l1), Normalize(n1), nameMap, eventMap);
    var o2 := Resolve(Normalize(l2), Normalize(n2), nameMap, eventMap);
    assert [o1][..0] == [] && [o2][..0] == [];
    assert EntriesFor([o1], key) == [nameMap[Normalize(n1)]];
    assert EntriesFor([o2], key) == [nameMap[Normalize(n2)]];
  }

  /** Normalising twice is normalising once, so a name-map key written in normal
      form is reached by every spelling that normalises to it. */
  lemma NormalizeIdempotent(s: string)
    ensures Normalize(Normalize(s)) == Normalize(s)
  {
    var m := Strip(s);
    var lm := Lower(m);
    LowerKeepsSpace(m);
    StripEnds(s);
    StripUnique([], lm, []);
    assert [] + lm + [] == lm;
  }

  /** Lookups ignore case and surrounding whitespace: "Sean", " sean " and "sean" are one name. */
  lemma CaseInsensitiveName()
    ensures Normalize("Sean") == Normalize(" sean ") == "sean"
  {
    assert TrimLeft(" sean ") == TrimLeft("sean ") == "sean ";
    assert TrimRight("sean ") == TrimRight("sean") == "sean";
    assert TrimLeft("Sean") == "Sean" && TrimRight("Sean") == "Sean";
  }

  /** Spellings that differ only in case normalise alike, whatever whitespace
      surrounds them: `strip().lower()` is `lower().strip()`. */
  lemma CaseInsensitive(s: string, t: string)
    requires Lower(s) == Lower(t)
    ensures Normalize(s) == Normalize(t)
  {
    LowerStrip(s);
    LowerStrip(t);
  }

  /** Spellings that differ in case and in the whitespace around them normalise alike:
      `x` and `y` are the cores, `a`, `b`, `c` and `d` the padding. */
  lemma CaseInsensitivePadded(a: string, x: string, b: string, c: string, y: string, d: string)
    requires AllSpace(a) && AllSpace(b) && AllSpace(c) && AllSpace(d)
    requires x == [] || (!IsSpace(x[0]) && !IsSpace(x[|x| - 1]))
    requires y == [] || (!IsSpace(y[0]) && !IsSpace(y[|y| - 1]))
    requires Lower(x) == Lower(y)
    ensures Normalize(a + x + b) == Normalize(c + y + d)
  {
    StripUnique(a, x, b);
    StripUnique(c, y, d);
  }

  /** The label-normalising loop of `parse_entries`: normalise the split labels of a
      row in place. */
  method NormalizeLabels(parts: seq<string>) returns (selected: seq<string>)
    ensures selected == NormalizeAll(parts)
  {
    selected := parts;
    for j := 0 to |selected|
      invariant |selected| == |parts|
      invariant forall k :: 0 <= k < j ==> selected[k] == Normalize(parts[k])
      invariant forall k :: j <= k < |parts| ==> selected[k] == parts[k]
    {
      selected := selected[j := Normalize(selected[j])];
    }
  }

  /** The lookup loop of `parse_entries`: resolve the labels of one row, appending to
      the dictionary or to the diagnostics. `before` stands for the outcomes of the
      earlier rows. */
  method EnterRow(entryMap: map<string, seq<Athlete>>, messages: seq<Message>, ghost before: seq<Outcome>,
                  selected: seq<string>, athleteName: string,
                  nameMap: map<string, Athlete>, eventMap: map<string, EventDef>)
    returns (entryMap': map<string, seq<Athlete>>, messages': seq<Message>)
    requires entryMap == Collect(before) && messages == Messages(before)
    ensures entryMap' == Collect(before + RowOutcomes(selected, athleteName, nameMap, eventMap))
    ensures messages' == Messages(before + RowOutcomes(selected, athleteName, nameMap, eventMap))
  {
    entryMap', messages' := entryMap, messages;
    ghost var acc := before;
    assert selected[..0] == [] && before + [] == before;
    for j := 0 to |selected|
      invariant acc == before + RowOutcomes(selected[..j], athleteName, nameMap, eventMap)
      invariant entryMap' == Collect(acc) && messages' == Messages(acc)
    {
      ghost var o := Resolve(selected[j], athleteName, nameMap, eventMap);
      RowOutcomesSnoc(selected, j, athleteName, nameMap, eventMap);
      AppendSnoc(before, RowOutcomes(selected[..j], athleteName, nameMap, eventMap), o);
      CollectSnoc(acc, o);
      var eventLabel := selected[j];
      if eventLabel in eventMap {
        var event := eventMap[eventLabel];
        if athleteName in nameMap {
          var athlete := nameMap[athleteName];
          var key := Lower(event.name);
          entryMap' := entryMap'[key := (if key in entryMap' then entryMap'[key] else []) + [athlete]];
        } else {
          messages' := messages' + [AthleteNotFound(athleteName)];
        }
      } else {
        messages' := messages' + [EventNotFound(eventLabel)];
      }
      acc := acc + [o];
    }
    assert selected[..|selected|] == selected;
  }

  /** The assignment loop of `parse_entries`: give every configured event the list
      gathered under its key, or report that it has none. */
  method AssignEntries(events: seq<EventDef>, entryMap: map<string, seq<Athlete>>)
    returns (messages: seq<Message>)
    modifies events
    ensures messages == MissingEvents(events, entryMap)
    ensures forall e :: e in events ==>
      e.entries == (if Key(e) in entryMap then entryMap[Key(e)] else old(e.entries))
  {
    messages := [];
    for k := 0 to |events|
      invariant messages == MissingEvents(events[..k], entryMap)
      invariant forall e :: e in events ==>
        e.entries == (if e in events[..k] && Key(e) in entryMap then entryMap[Key(e)] else old(e.entries))
    {
      var eventName := Lower(events[k].name);
      assert events[..k + 1][..k] == events[..k];
      assert forall e :: e in events[..k + 1] <==> e in events[..k] || e == events[k];
      if eventName in entryMap {
        events[k].entries := entryMap[eventName];
      } else {
        messages := messages + [NoEntries(eventName)];
      }
    }
    assert events[..|events|] == events;
  }

  /** `parse_entries(rows, events, name_map, event_map)`, with the rows given as a
      sequence and the printed diagnostics returned in order. */
  method ParseEntries(rows: seq<EntryRow>, events: seq<EventDef>,
                      nameMap: map<string, Athlete>, eventMap: map<string, EventDef>)
    returns (messages: seq<Message>)
    modifies events
    ensures var os := Outcomes(rows, nameMap, eventMap);
      messages == Messages(os) + MissingEvents(events, Collect(os)) + [Parsed]
    ensures var os := Outcomes(rows, nameMap, eventMap);
      forall e :: e in events ==>
        e.entries == (if EntriesFor(os, Key(e)) != [] then EntriesFor(os, Key(e)) else old(e.entries))
  {
    var entryMap: map<string, seq<Athlete>> := map[];
    messages := [];
    for i := 0 to |rows|
      invariant entryMap == Collect(Outcomes(rows[..i], nameMap, eventMap))
      invariant messages == Messages(Outcomes(rows[..i], nameMap, eventMap))
      modifies {}
    {
      var selected := NormalizeLabels(Split(Strip(rows[i].events), ','));
      var athleteName := Normalize(rows[i].name);
      ghost var before := Outcomes(rows[..i], nameMap, eventMap);
      entryMap, messages := EnterRow(entryMap, messages, before, selected, athleteName, nameMap, eventMap);
      assert rows[..i + 1][..i] == rows[..i];
      assert Outcomes(rows[..i + 1], nameMap, eventMap)
          == before + RowOutcomes(Labels(rows[i]), Normalize(rows[i].name), nameMap, eventMap);
    }
    assert rows[..|rows|] == rows;
    var missing := AssignEntries(events, entryMap);
    CollectedLists(Outcomes(rows, nameMap, eventMap), events);
    messages := messages + missing + [Parsed];
  }
}
