// Dropping expired subtitle events from the front of a libass track
// (mp_ass_flush_old_events in sub/ass_mp.c).

module AssFlush {

  /** The part of an ASS_Event the flush reads: Start and Duration, in the
      track's integer time unit; the rest of the event is an opaque payload. */
  datatype Event = Event(start: int, duration: int, payload: nat)

  /** An event whose end lies strictly before the timestamp. */
  predicate Expired(e: Event, ts: int)
  {
    e.start + e.duration < ts
  }

  function Min(a: int, b: int): int
  {
    if a < b then a else b
  }

  /** The length of the longest run of expired events at the front of `s`:
      the number of events an idealised flush would drop. */
  function LeadingExpired(s: seq<Event>, ts: int): (k: nat)
    ensures k <= |s|
    ensures forall i :: 0 <= i < k ==> Expired(s[i], ts)
    ensures k < |s| ==> !Expired(s[k], ts)
  {
    if s == [] || !Expired(s[0], ts) then 0 else 1 + LeadingExpired(s[1..], ts)
  }

  /** The index at which the first loop of the flush stops when it is at
      index `n` of the events `s` it started with. That loop compares the
      growing index with the shrinking event count, so it runs while
      n < |s| - n as well as while the event at n is expired. */
  function FlushCount(s: seq<Event>, ts: int, n: nat): (k: nat)
    requires n <= |s|
    ensures n <= k <= |s|
    decreases |s| - n
  {
    if n < |s| - n && Expired(s[n], ts) then FlushCount(s, ts, n + 1) else n
  }

  /** The events the flush leaves, compacted to the front. */
  function Flushed(s: seq<Event>, ts: int): (r: seq<Event>)
  {
    s[FlushCount(s, ts, 0)..]
  }

  /** Sequence 0, 1, ..., k - 1: the indices handed to ass_free_event. */
  function Indices(k: nat): (r: seq<int>)
    ensures |r| == k && forall i :: 0 <= i < k ==> r[i] == i
  {
    if k == 0 then [] else Indices(k - 1) + [k - 1]
  }

  lemma {:induction false} FlushCountFrom(s: seq<Event>, ts: int, n: nat)
    requires n <= Min(LeadingExpired(s, ts), (|s| + 1) / 2)
    ensures FlushCount(s, ts, n) == Min(LeadingExpired(s, ts), (|s| + 1) / 2)
    decreases |s| - n
  {
    if n < |s| - n && Expired(s[n], ts) {
      FlushCountFrom(s, ts, n + 1);
    }
  }

  /** The flush drops the expired leading events, but never more than half of
      the events rounded up: the count is the smaller of the two. */
  lemma FlushCountCapped(s: seq<Event>, ts: int)
    ensures FlushCount(s, ts, 0) == Min(LeadingExpired(s, ts), (|s| + 1) / 2)
  {
    FlushCountFrom(s, ts, 0);
  }

  /** What is removed is a leading run of expired events, at most ceil(N/2)
      of them, and the scan stops at the first event not yet expired unless
      the half-way bound stopped it first. */
  lemma FlushRemovesExpiredPrefix(s: seq<Event>, ts: int)
    ensures FlushCount(s, ts, 0) <= (|s| + 1) / 2
    ensures forall i :: 0 <= i < FlushCount(s, ts, 0) ==> Expired(s[i], ts)
    ensures var k := FlushCount(s, ts, 0); 2 * k < |s| ==> !Expired(s[k], ts)
  {
    FlushCountCapped(s, ts);
  }

  /** Whenever the first event has expired, a flush removes at least one
      event, so repeated flushes remove the whole expired run. */
  lemma FlushMakesProgress(s: seq<Event>, ts: int)
    requires s != [] && Expired(s[0], ts)
    ensures FlushCount(s, ts, 0) >= 1
    ensures LeadingExpired(Flushed(s, ts), ts) < LeadingExpired(s, ts)
  {
    FlushCountCapped(s, ts);
    DropExpired(s, ts, FlushCount(s, ts, 0));
  }

  /** Dropping k leading expired events shortens the expired run by k. */
  lemma DropExpired(s: seq<Event>, ts: int, k: nat)
    requires k <= LeadingExpired(s, ts)
    ensures LeadingExpired(s[k..], ts) == LeadingExpired(s, ts) - k
  {
  }

  /** Two events both ended before the timestamp 100: the flush removes only
      one of them, and the survivor is itself expired. */
  lemma FlushKeepsExpiredExample()
    ensures var s := [Event(0, 10, 0), Event(5, 20, 1)];
      LeadingExpired(s, 100) == 2 && FlushCount(s, 100, 0) == 1 &&
      Flushed(s, 100) == [Event(5, 20, 1)] && Expired(Flushed(s, 100)[0], 100)
  {
  }

  /** The four events (0, 10), (5, 20), (30, 5), (40, 100) flushed at 26:
      the two that ended at 10 and 25 go, the other two move to the front. */
  lemma FlushFourEventsExample()
    ensures var s := [Event(0, 10, 0), Event(5, 20, 1), Event(30, 5, 2), Event(40, 100, 3)];
      FlushCount(s, 26, 0) == 2 && Flushed(s, 26) == [Event(30, 5, 2), Event(40, 100, 3)]
  {
  }

  /** An ASS_Track as far as the flush sees it: the `events` buffer (its
      length is max_events), the live count `n_events`, and the log of the
      indices passed to ass_free_event. */
  class Track {
    var events: array<Event>
    var nEvents: nat
    ghost var freed: seq<int>

    ghost predicate Valid()
      reads this
    {
      nEvents <= events.Length
    }

    /** The live events, in track order. */
    ghost function Live(): seq<Event>
      reads this, events
      requires Valid()
    {
      events[..nEvents]
    }

    constructor (evs: seq<Event>, maxEvents: nat)
      requires |evs| <= maxEvents
      ensures Valid() && fresh(events)
      ensures events.Length == maxEvents && Live() == evs && freed == []
    {
      events := new Event[maxEvents](i => if 0 <= i < |evs| then evs[i] else Event(0, 0, 0));
      nEvents := |evs|;
      freed := [];
    }

    /** The compaction: moves events[n .. n + n_events) down to
        events[0 .. n_events), front to back, when n > 0. */
    method ShiftDown(n: nat)
      requires Valid() && n + nEvents <= events.Length
      modifies events
      ensures events[..] == old(events[n..n + nEvents]) + old(events[nEvents..])
    {
      ghost var was := events[..];
      var i := 0;
      while n > 0 && i < nEvents
        invariant 0 <= i <= nEvents
        invariant n == 0 ==> i == 0
        invariant forall j :: 0 <= j < i ==> events[j] == was[j + n]
        invariant forall j :: i <= j < events.Length ==> events[j] == was[j]
      {
        events[i] := events[i + n];
        i := i + 1;
      }
      assert n > 0 ==> i == nEvents;
      if n == 0 {
        assert events[..] == was == was[..nEvents] + was[nEvents..];
      } else {
        assert events[..] == was[n..n + nEvents] + was[nEvents..];
      }
    }

    /** The flush as written: frees and counts off leading expired events
        while the index stays below the shrinking count, then compacts. */
    method FlushOldEvents(ts: int)
      requires Valid()
      modifies this, events
      ensures Valid() && events == old(events)
      ensures nEvents == old(nEvents) - FlushCount(old(Live()), ts, 0)
      ensures Live() == Flushed(old(Live()), ts)
      ensures events[nEvents..] == old(events[..])[nEvents..]
      ensures freed == old(freed) + Indices(FlushCount(old(Live()), ts, 0))
      ensures FlushCount(old(Live()), ts, 0) == 0 ==>
        nEvents == old(nEvents) && events[..] == old(events[..])
    {
      ghost var s, total := events[..nEvents], nEvents;
      var n := 0;
      while n < nEvents
        invariant events == old(events) && n + nEvents == total && n <= total
        invariant FlushCount(s, ts, n) == FlushCount(s, ts, 0)
        invariant freed == old(freed) + Indices(n)
        invariant events[..] == old(events[..])
      {
        if events[n].start + events[n].duration >= ts {
          break;
        }
        freed := freed + [n];
        nEvents := nEvents - 1;
        n := n + 1;
      }
      assert FlushCount(s, ts, n) == n;
      ShiftDown(n);
      assert events[..nEvents] == s[n..];
    }

    /** The flush with the count taken once before the scan: every leading
        expired event is freed and removed. */
    method FlushOldEventsIntended(ts: int)
      requires Valid()
      modifies this, events
      ensures Valid() && events == old(events)
      ensures nEvents == old(nEvents) - LeadingExpired(old(Live()), ts)
      ensures Live() == old(Live())[LeadingExpired(old(Live()), ts)..]
      ensures events[nEvents..] == old(events[..])[nEvents..]
      ensures freed == old(freed) + Indices(LeadingExpired(old(Live()), ts))
      ensures nEvents > 0 ==> !Expired(events[0], ts)
    {
      ghost var s := events[..nEvents];
      var n := 0;
      while n < nEvents && events[n].start + events[n].duration < ts
        invariant events == old(events) && nEvents == |s| <= events.Length
        invariant n <= nEvents && n <= LeadingExpired(s, ts)
        invariant freed == old(freed) + Indices(n)
        invariant events[..] == old(events[..])
      {
        freed := freed + [n];
        n := n + 1;
      }
      nEvents := nEvents - n;
      ShiftDown(n);
      assert events[..nEvents] == s[n..];
    }
  }
}
