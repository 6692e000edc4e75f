/**
 * The pending-event schedule of a trial: a sequence of events kept in
 * ascending time order by inserting each new event before the first pending
 * event whose time is not below its own, and consumed from the front.
 */
module Schedule {
  import opened Elements

  predicate Sorted(s: seq<EventTime>) {
    forall i, j :: 0 <= i < j < |s| ==> s[i].time <= s[j].time
  }

  /** The first position whose event is not earlier than `t` (|s| if none). */
  function Slot(s: seq<EventTime>, t: real): (p: nat)
    ensures p <= |s|
    ensures forall j :: 0 <= j < p ==> s[j].time < t
    ensures p < |s| ==> s[p].time >= t
  {
    if |s| == 0 || s[0].time >= t then 0 else 1 + Slot(s[1..], t)
  }

  /** The scan that finds where a new event goes. */
  method FindSlot(s: seq<EventTime>, t: real) returns (index: nat)
    ensures index == Slot(s, t)
  {
    index := 0;
    while index < |s| && t > s[index].time
      invariant index <= |s|
      invariant forall j :: 0 <= j < index ==> s[j].time < t
    {
      index := index + 1;
    }
    SlotUnique(s, t, index);
  }

  /** The three properties of `Slot` determine it. */
  lemma SlotUnique(s: seq<EventTime>, t: real, p: nat)
    requires p <= |s|
    requires forall j :: 0 <= j < p ==> s[j].time < t
    requires p < |s| ==> s[p].time >= t
    ensures p == Slot(s, t)
  {
  }

  /** `s` with `ev` inserted at its slot. */
  function Inserted(s: seq<EventTime>, ev: EventTime): (r: seq<EventTime>)
    ensures |r| == |s| + 1
  {
    var p := Slot(s, ev.time);
    s[..p] + [ev] + s[p..]
  }

  /**
   * Where everything ends up: the events earlier than `ev` stay in front of it,
   * and every event not earlier than `ev`, ties included, comes after it.
   */
  lemma InsertedLayout(s: seq<EventTime>, ev: EventTime)
    ensures var p, r := Slot(s, ev.time), Inserted(s, ev);
      r[p] == ev &&
      (forall j :: 0 <= j < p ==> r[j] == s[j] && s[j].time < ev.time) &&
      (forall j :: p <= j < |s| ==> r[j + 1] == s[j])
  {
    SplicedLayout(s, ev, Slot(s, ev.time));
  }

  /** Splicing `ev` in at position `p` shifts the events from `p` on by one. */
  lemma SplicedLayout(s: seq<EventTime>, ev: EventTime, p: nat)
    requires p <= |s|
    ensures var r := s[..p] + [ev] + s[p..];
      |r| == |s| + 1 && r[p] == ev &&
      (forall j :: 0 <= j < p ==> r[j] == s[j]) &&
      (forall j :: p <= j < |s| ==> r[j + 1] == s[j])
  {
    var r := s[..p] + [ev] + s[p..];
    forall j | p <= j < |s|
      ensures r[j + 1] == s[j]
    {
      assert r[j + 1] == s[p..][j - p];
    }
  }

  /**
   * A new event goes ahead of every pending event whose time is not below
   * its own, including one with an equal time; events of equal time thus
   * leave the schedule in reverse order of arrival.
   */
  lemma InsertedAfterTies(s: seq<EventTime>, ev: EventTime, j: nat)
    requires j < |s| && s[j].time >= ev.time
    ensures Slot(s, ev.time) <= j
    ensures Inserted(s, ev)[j + 1] == s[j] && Inserted(s, ev)[Slot(s, ev.time)] == ev
  {
    InsertedLayout(s, ev);
  }

  /** Insertion adds exactly the new event. */
  lemma InsertedMultiset(s: seq<EventTime>, ev: EventTime)
    ensures multiset(Inserted(s, ev)) == multiset(s) + multiset{ev}
  {
    var p := Slot(s, ev.time);
    assert s == s[..p] + s[p..];
  }

  /** Insertion into a sorted schedule yields a sorted schedule. */
  lemma InsertedSorted(s: seq<EventTime>, ev: EventTime)
    requires Sorted(s)
    ensures Sorted(Inserted(s, ev))
  {
    var p, r := Slot(s, ev.time), Inserted(s, ev);
    InsertedLayout(s, ev);
    forall i, j | 0 <= i < j < |r|
      ensures r[i].time <= r[j].time
    {
      if j < p {
      } else if i < p {
        if j > p {
          assert r[j] == s[j - 1];
          assert s[i].time < ev.time <= s[j - 1].time;
        }
      } else if i == p {
        assert r[j] == s[j - 1];
      } else {
        assert r[i] == s[i - 1] && r[j] == s[j - 1];
      }
    }
  }

  /** The kinds of the pending events that name element `b`. */
  function Pending(s: seq<EventTime>, b: nat): multiset<EventKind>
  {
    if s == [] then multiset{}
    else (if s[0].element == b then multiset{s[0].kind} else multiset{}) + Pending(s[1..], b)
  }

  lemma {:induction false} PendingConcat(s: seq<EventTime>, u: seq<EventTime>, b: nat)
    ensures Pending(s + u, b) == Pending(s, b) + Pending(u, b)
    decreases |s|
  {
    if s != [] {
      assert s + u != [] && (s + u)[0] == s[0] && (s + u)[1..] == s[1..] + u;
      PendingConcat(s[1..], u, b);
    } else {
      assert s + u == u;
    }
  }

  /** Inserting `ev` adds its kind to the pending events of its element only. */
  lemma PendingInserted(s: seq<EventTime>, ev: EventTime, b: nat)
    ensures Pending(Inserted(s, ev), b) ==
      Pending(s, b) + (if ev.element == b then multiset{ev.kind} else multiset{})
  {
    var p := Slot(s, ev.time);
    assert s == s[..p] + s[p..];
    PendingConcat(s[..p], s[p..], b);
    PendingConcat(s[..p], [ev], b);
    PendingConcat(s[..p] + [ev], s[p..], b);
    assert Pending([ev], b) == (if ev.element == b then multiset{ev.kind} else multiset{}) + Pending([], b);
  }

  /** `s` with the follow-up event `f`, if any, inserted. */
  function Reschedule(s: seq<EventTime>, f: Option<EventTime>): seq<EventTime> {
    match f
    case None => s
    case Some(y) => Inserted(s, y)
  }

  /**
   * Rescheduling adds exactly the follow-up event, keeps a sorted schedule
   * sorted, and changes only the pending events of the follow-up's element.
   */
  lemma RescheduleProperties(s: seq<EventTime>, f: Option<EventTime>)
    ensures multiset(Reschedule(s, f)) == multiset(s) + if f.Some? then multiset{f.value} else multiset{}
    ensures Sorted(s) ==> Sorted(Reschedule(s, f))
    ensures forall b :: Pending(Reschedule(s, f), b) ==
                        Pending(s, b) + if f.Some? && f.value.element == b then multiset{f.value.kind} else multiset{}
  {
    if f.Some? {
      InsertedMultiset(s, f.value);
      if Sorted(s) {
        InsertedSorted(s, f.value);
      }
      forall b {
        PendingInserted(s, f.value, b);
      }
    }
  }

  /** Every event of a rescheduled schedule was pending before or is the follow-up. */
  lemma RescheduleMember(s: seq<EventTime>, f: Option<EventTime>, k: nat)
    requires k < |Reschedule(s, f)|
    ensures Reschedule(s, f)[k] in s || (f.Some? && Reschedule(s, f)[k] == f.value)
  {
    RescheduleProperties(s, f);
    assert Reschedule(s, f)[k] in multiset(Reschedule(s, f));
  }

  /** The first event of a sorted, non-empty schedule is one of minimal time. */
  lemma SortedHeadIsEarliest(s: seq<EventTime>)
    requires Sorted(s) && |s| > 0
    ensures forall j :: 0 <= j < |s| ==> s[0].time <= s[j].time
    ensures Sorted(s[1..])
  {
  }

  /** The schedule as an object holding a vector of events. */
  class EventSchedule {
    var events: seq<EventTime>

    constructor ()
      ensures events == []
    {
      events := [];
    }

    /** Scans for the slot of `ev` and inserts it there. */
    method Insert(ev: EventTime)
      modifies this
      ensures events == Inserted(old(events), ev)
      ensures old(Sorted(events)) ==> Sorted(events)
      ensures multiset(events) == multiset(old(events)) + multiset{ev}
    {
      var index := FindSlot(events, ev.time);
      InsertedMultiset(events, ev);
      if Sorted(events) {
        InsertedSorted(events, ev);
      }
      events := events[..index] + [ev] + events[index..];
    }

    /** Removes and returns the first event; an empty schedule is fatal. */
    method PopEarliest() returns (ev: EventTime)
      requires events != []
      modifies this
      ensures ev == old(events)[0] && events == old(events)[1..]
      ensures old(Sorted(events)) ==> Sorted(events) && forall j :: 0 <= j < |old(events)| ==> ev.time <= old(events)[j].time
    {
      ev := events[0];
      events := events[1..];
    }
  }
}
