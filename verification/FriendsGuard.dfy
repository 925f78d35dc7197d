/** The FriendsController.Update hook of cloud_guard.h: the original runs only while PUN is idle or
    disconnected, and the warnings about skipped calls thin out. */
module FriendsGuard {
  const WRAP := 0x1_0000_0000

  type Word = w: int | 0 <= w < 0x1_0000_0000

  predicate ShouldQuarantine(state: int) { state >= 2 && state != 15 }

  /** What one call of the hook does, in the order in which it does it. */
  datatype Event = Forwarded(state: int) | Quarantined(state: int) | Warned(count: Word)

  predicate IsWarned(count: Word) { count <= 8 || count % 120 == 0 }

  class Guard {
    var quarantined: Word
    ghost var events: seq<Event>
    ghost var calls: seq<int>  // the connection state seen by each call so far

    ghost predicate Valid()
      reads this
    {
      quarantined == Skipped(calls) % WRAP && events == EventsOf(calls)
    }

    constructor ()
      ensures Valid() && calls == []
    {
      quarantined, events, calls := 0, [], [];
    }

    /** `state` is what PhotonNetwork reports, or -1 when it cannot be asked. */
    method HookFriendsUpdate(state: int)
      requires Valid()
      modifies this
      ensures Valid() && calls == old(calls) + [state]
    {
      OneMoreCall(calls, state);
      calls := calls + [state];
      if ShouldQuarantine(state) {
        var count := (quarantined + 1) % WRAP;
        quarantined := count;
        events := events + [Quarantined(state)];
        if count <= 8 || count % 120 == 0 {
          events := events + [Warned(count)];
        }
        return;
      }
      events := events + [Forwarded(state)];
    }
  }

  /** The number of calls that were skipped. */
  function Skipped(calls: seq<int>): nat {
    if calls == [] then 0
    else Skipped(calls[..|calls| - 1]) + if ShouldQuarantine(calls[|calls| - 1]) then 1 else 0
  }

  function EventsOf(calls: seq<int>): seq<Event> {
    if calls == [] then []
    else
      var before, state := EventsOf(calls[..|calls| - 1]), calls[|calls| - 1];
      if !ShouldQuarantine(state) then before + [Forwarded(state)]
      else
        var count := Skipped(calls) % WRAP;
        before + [Quarantined(state)] + (if IsWarned(count) then [Warned(count)] else [])
  }

  lemma OneMoreCall(calls: seq<int>, state: int)
    ensures Skipped(calls + [state]) == Skipped(calls) + if ShouldQuarantine(state) then 1 else 0
    ensures !ShouldQuarantine(state) ==> EventsOf(calls + [state]) == EventsOf(calls) + [Forwarded(state)]
    ensures ShouldQuarantine(state) ==>
              var count := (Skipped(calls) % WRAP + 1) % WRAP;
              && count == Skipped(calls + [state]) % WRAP
              && EventsOf(calls + [state])
                 == EventsOf(calls) + [Quarantined(state)] + if IsWarned(count) then [Warned(count)] else []
  {
  }

  function CountForwarded(events: seq<Event>): nat {
    if events == [] then 0
    else CountForwarded(events[..|events| - 1]) + if events[|events| - 1].Forwarded? then 1 else 0
  }

  function CountQuarantined(events: seq<Event>): nat {
    if events == [] then 0
    else CountQuarantined(events[..|events| - 1]) + if events[|events| - 1].Quarantined? then 1 else 0
  }

  function CountWarned(events: seq<Event>): nat {
    if events == [] then 0
    else CountWarned(events[..|events| - 1]) + if events[|events| - 1].Warned? then 1 else 0
  }

  /** Whatever states the calls see, the original runs only in states below 2 or equal to 15. */
  lemma {:induction false} ForwardedOnlyWhenIdle(calls: seq<int>)
    ensures forall e :: e in EventsOf(calls) && e.Forwarded? ==> e.state < 2 || e.state == 15
  {
    if calls != [] {
      ForwardedOnlyWhenIdle(calls[..|calls| - 1]);
    }
  }

  lemma CountAppend(events: seq<Event>, e: Event)
    ensures CountForwarded(events + [e]) == CountForwarded(events) + if e.Forwarded? then 1 else 0
    ensures CountQuarantined(events + [e]) == CountQuarantined(events) + if e.Quarantined? then 1 else 0
    ensures CountWarned(events + [e]) == CountWarned(events) + if e.Warned? then 1 else 0
  {
  }

  /** The warnings after n skipped calls, for every n: the first eight and every 120th, and once per
      wrap of the 32-bit counter again from zero. */
  function Warnings(n: nat): nat {
    var m := n % WRAP;
    n / WRAP * 35_791_403 + (if m < 8 then m else 8) + m / 120
  }

  lemma WarningsStep(n: nat)
    ensures Warnings(n + 1) == Warnings(n) + if IsWarned((n + 1) % WRAP) then 1 else 0
  {
    var q, m := n / WRAP, n % WRAP;
    if m == WRAP - 1 {
      assert n + 1 == (q + 1) * WRAP;
      assert (n + 1) / WRAP == q + 1 && (n + 1) % WRAP == 0;
    } else {
      assert n + 1 == q * WRAP + (m + 1);
      assert (n + 1) / WRAP == q && (n + 1) % WRAP == m + 1;
    }
  }

  /** What one skipped call adds to the events. */
  lemma SkippedCounts(before: seq<Event>, state: int, count: Word)
    ensures var events := before + [Quarantined(state)] + if IsWarned(count) then [Warned(count)] else [];
            && CountForwarded(events) == CountForwarded(before)
            && CountQuarantined(events) == CountQuarantined(before) + 1
            && CountWarned(events) == CountWarned(before) + if IsWarned(count) then 1 else 0
  {
    var one := before + [Quarantined(state)];
    CountAppend(before, Quarantined(state));
    CountAppend(one, Warned(count));
    assert one + [] == one;
  }

  /** Every call is forwarded or skipped, never both, and the number of warnings depends only on the
      number of skipped calls. */
  lemma {:induction false} CallsAreAccounted(calls: seq<int>)
    ensures CountForwarded(EventsOf(calls)) + CountQuarantined(EventsOf(calls)) == |calls|
    ensures CountQuarantined(EventsOf(calls)) == Skipped(calls)
    ensures CountWarned(EventsOf(calls)) == Warnings(Skipped(calls))
  {
    if calls != [] {
      var front, state := calls[..|calls| - 1], calls[|calls| - 1];
      var before := EventsOf(front);
      CallsAreAccounted(front);
      if !ShouldQuarantine(state) {
        CountAppend(before, Forwarded(state));
      } else {
        SkippedCounts(before, state, Skipped(calls) % WRAP);
        WarningsStep(Skipped(front));
      }
    }
  }

  /** What one more call does. The original runs if the call sees a state below 2 or the state 15; any other
      call is skipped and counted, and is reported with its number if that is at most 8 or a multiple of 120. */
  lemma CallDoes(calls: seq<int>, state: int)
    ensures var idle := state < 2 || state == 15;
            var n := Skipped(calls + [state]) % 0x1_0000_0000;
            && Skipped(calls + [state]) == Skipped(calls) + (if idle then 0 else 1)
            && EventsOf(calls + [state])
               == EventsOf(calls) + (if idle then [Forwarded(state)]
                                     else [Quarantined(state)] + if n <= 8 || n % 120 == 0 then [Warned(n)] else [])
  {
    OneMoreCall(calls, state);
    var n := Skipped(calls + [state]) % 0x1_0000_0000;
    var warned := if IsWarned(n) then [Warned(n)] else [];
    assert EventsOf(calls) + [Quarantined(state)] + warned == EventsOf(calls) + ([Quarantined(state)] + warned);
  }

  /** Before the counter wraps: one warning for each of the first eight skipped calls and one for every
      120 of them. */
  lemma WarningsBelowWrap(calls: seq<int>)
    requires Skipped(calls) < 0x1_0000_0000
    ensures var n := Skipped(calls);
            CountWarned(EventsOf(calls)) == (if n < 8 then n else 8) + n / 120
  {
    CallsAreAccounted(calls);
    var n := Skipped(calls);
    assert n / WRAP == 0 && n % WRAP == n;
  }
}
