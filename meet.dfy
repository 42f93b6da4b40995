/**
 The meet's entities: teams, event kinds, athletes, the mutable event
 definitions the entry parser fills in and the scheduled events built from them.
 Decimal quantities of the source (an event's average and standard deviation,
 seed values) are integer hundredths here.
 */
module Meet {

  datatype Team = One | Two

  /** The display name of a team (the enumeration's value). */
  function TeamName(t: Team): string {
    match t
    case One => "Dutty's Tuddies"
    case Two => "Leland's Lollipops"
  }

  datatype EventKind = Track | Field | Relay | FieldRelay

  /** Timed kinds: their marks are times, lower is better. */
  predicate IsRun(k: EventKind) {
    match k
    case Track => true
    case Relay => true
    case Field => false
    case FieldRelay => false
  }

  /** Header of the position column of an event's table. */
  function PositionLabel(k: EventKind): string {
    if k == Track then "Lane" else "Order"
  }

  /** Header of the mark column of an event's table. */
  function MarkLabel(k: EventKind): string {
    if k in {Track, Relay} then "Seed Time" else "Mark"
  }

  /** The kind predicate and the two header choices agree, over all four kinds. */
  lemma KindChoices(k: EventKind)
    ensures IsRun(k) <==> (k == Track || k == Relay)
    ensures MarkLabel(k) == (if IsRun(k) then "Seed Time" else "Mark")
    ensures PositionLabel(k) == "Lane" <==> k == Track
    ensures PositionLabel(k) == "Lane" ==> IsRun(k)
  {
  }

  datatype Athlete = Athlete(name: string, team: Team)

  /**
   An event definition. Only `entries` is ever reassigned (by the entry
   parser); every other field is fixed when the definition is built.
   */
  class EventDef {
    const name: string
    const duration: int      // minutes
    var entries: seq<Athlete>
    const kind: EventKind
    const maxHeatSize: int
    const average: int       // hundredths of a second, or of a metre
    const stdDev: int        // hundredths; only parametrises the random draws

    constructor (name: string, duration: int, entries: seq<Athlete>, kind: EventKind,
                 maxHeatSize: int, average: int, stdDev: int)
      ensures this.name == name && this.duration == duration && this.entries == entries
      ensures this.kind == kind && this.maxHeatSize == maxHeatSize
      ensures this.average == average && this.stdDev == stdDev
    {
      this.name := name;
      this.duration := duration;
      this.entries := entries;
      this.kind := kind;
      this.maxHeatSize := maxHeatSize;
      this.average := average;
      this.stdDev := stdDev;
    }
  }

  /** A scheduled event: an event definition with its clock time and its heats. */
  datatype Event = Event(
    name: string,
    time: string,
    heats: seq<seq<Athlete>>,
    kind: EventKind,
    average: int,
    stdDev: int)
}
