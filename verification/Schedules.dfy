// The stored schedule record, without the test it runs.
module Schedules {
  import opened Instants
  import opened Recurrence

  type Id = string

  datatype Status = Scheduled | Running | Completed | Failed | Cancelled

  /** `durationS` already includes the scheduling buffer. */
  datatype Schedule = Schedule(
    scheduledAt: Instant,
    durationS: int,
    kind: Kind,
    zone: Zone,
    end: Option<Instant>,
    skipped: seq<Instant>,
    status: Status,
    paused: bool)

  function SeriesOf(s: Schedule): Series {
    Series(s.scheduledAt, s.kind, s.zone, s.end, s.skipped)
  }

  function SlotOf(s: Schedule): TimeSlot {
    SlotAt(s.scheduledAt, s.durationS)
  }

  /** What the conflict queries look at: scheduled or running, and not paused. */
  predicate Live(s: Schedule) {
    (s.status.Scheduled? || s.status.Running?) && !s.paused
  }

  /** The columns of the two times hold whole seconds. */
  predicate WholeRow(s: Schedule) {
    WholeSecond(s.scheduledAt) && (s.end.Some? ==> WholeSecond(s.end.value))
  }

  /** The row as the store keeps it. */
  function Stored(s: Schedule): Schedule {
    s.(scheduledAt := ToSecond(s.scheduledAt), end := if s.end.Some? then Some(ToSecond(s.end.value)) else None)
  }

  lemma StoredWhole(s: Schedule)
    ensures WholeRow(Stored(s))
    ensures WholeRow(s) ==> Stored(s) == s
  {
    RoundedWhole(s.scheduledAt);
    if s.end.Some? {
      RoundedWhole(s.end.value);
    }
  }

  predicate ActiveRecurring(s: Schedule) {
    s.status.Scheduled? && !s.paused && !s.kind.Once?
  }
}
