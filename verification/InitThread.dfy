/** The init thread of main.cpp: bounded polling phases, a detector for the moment at which the list of
    assemblies stops changing, and the order of attaching, walking metadata, hooking and detaching. */
module InitThread {
  import opened HookTables
  import opened HookInstaller

  const WAIT_STEPS := 6000
  const STABLE_CHECKS := 25
  const MAX_ASSEMBLIES := 8192

  // ---------------------------------------------------------------- sticky exports, il2cpp.cpp

  const REQUIRED := 16  // all but the last, il2cpp_thread_detach
  const EXPORTS := 17

  /** What the symbol lookup gives for each name. */
  type Found = f: seq<nat> | |f| == EXPORTS ghost witness seq(EXPORTS, i => 0)

  class Exports {
    var bound: seq<nat>  // the function pointers, 0 is null

    constructor ()
      ensures bound == seq(EXPORTS, i => 0)
    {
      bound := seq(EXPORTS, i => 0);
    }

    method Bind(i: nat, found: nat) returns (ok: bool)
      requires |bound| == EXPORTS && i < EXPORTS
      modifies this
      ensures bound == old(bound)[i := if old(bound)[i] != 0 then old(bound)[i] else found]
      ensures ok <==> bound[i] != 0
    {
      if bound[i] != 0 { return true; }
      bound := bound[i := found];
      return bound[i] != 0;
    }

    /** One call of resolve, with what the symbol lookup gives for each name this time: a bound export
        never changes, and a missing one does not keep the others from being bound. */
    method Resolve(found: Found) returns (ok: bool)
      requires |bound| == EXPORTS
      modifies this
      ensures |bound| == EXPORTS
      ensures forall i :: 0 <= i < EXPORTS ==> bound[i] == if old(bound)[i] != 0 then old(bound)[i] else found[i]
      ensures ok <==> forall i :: 0 <= i < REQUIRED ==> bound[i] != 0
    {
      ok := true;
      for k := 0 to EXPORTS
        invariant |bound| == EXPORTS
        invariant forall i :: 0 <= i < k ==> bound[i] == if old(bound)[i] != 0 then old(bound)[i] else found[i]
        invariant forall i :: k <= i < EXPORTS ==> bound[i] == old(bound)[i]
        invariant ok <==> forall i :: 0 <= i < k && i < REQUIRED ==> bound[i] != 0
      {
        var one := Bind(k, found[k]);
        if k < REQUIRED { ok := ok && one; }
      }
    }
  }

  // ---------------------------------------------------------------- when the list has settled

  /** The count of one sample; a torn read counts as nothing yet. */
  function Sample(raw: nat): nat { if raw > MAX_ASSEMBLIES then 0 else raw }

  /** The 26 samples that end at j are equal and not zero. */
  predicate Window(raw: nat -> nat, j: nat) {
    && STABLE_CHECKS <= j < WAIT_STEPS && Sample(raw(j)) != 0
    && forall k: nat :: j - STABLE_CHECKS <= k <= j ==> Sample(raw(k)) == Sample(raw(j))
  }

  /** The detector succeeds exactly when some 26 consecutive samples of the first 6000 are equal and not
      zero, and it stops at the first such window. */
  method AwaitSettled(raw: nat -> nat) returns (settled: bool, last: nat, used: nat)
    ensures used <= WAIT_STEPS
    ensures settled <==> exists j: nat :: Window(raw, j)
    ensures settled ==> used > 0 && Window(raw, used - 1) && last == Sample(raw(used - 1))
    ensures forall j: nat :: j + 1 < used ==> !Window(raw, j)
    ensures !settled ==> used == WAIT_STEPS
  {
    last := 0;
    var stable := 0;
    used := 0;
    while used < WAIT_STEPS && stable < STABLE_CHECKS
      invariant 0 <= used <= WAIT_STEPS && 0 <= stable <= STABLE_CHECKS
      invariant used == 0 ==> stable == 0 && last == 0
      invariant used > 0 ==> stable < used && last == Sample(raw(used - 1))
      invariant stable > 0 ==> last != 0
      invariant used > 0 ==> forall k: nat :: used - 1 - stable <= k < used ==> Sample(raw(k)) == last
      invariant used > 0 && last != 0 && stable + 1 < used ==> Sample(raw(used - 2 - stable)) != last
      invariant forall j: nat :: j + 1 < used ==> !Window(raw, j)
      invariant used > 0 ==> (stable == STABLE_CHECKS <==> Window(raw, used - 1))
    {
      var now := Sample(raw(used));
      stable := if now != 0 && now == last then stable + 1 else 0;
      last := now;
      used := used + 1;
      OldestDiffers(raw, used - 1, stable);
    }
    settled := stable >= STABLE_CHECKS;
  }

  lemma OldestDiffers(raw: nat -> nat, j: nat, stable: nat)
    requires j < WAIT_STEPS && stable <= STABLE_CHECKS && stable <= j
    requires forall k: nat :: j - stable <= k <= j ==> Sample(raw(k)) == Sample(raw(j))
    requires Sample(raw(j)) != 0 && stable < j ==> stable == STABLE_CHECKS || Sample(raw(j - 1 - stable)) != Sample(raw(j))
    requires stable > 0 ==> Sample(raw(j)) != 0
    ensures stable == STABLE_CHECKS <==> Window(raw, j)
  {
  }

  // ---------------------------------------------------------------- the polling loops

  /** Some lookup up to the i-th found export k. */
  ghost predicate FoundBy(lookups: nat -> Found, i: nat, k: nat)
    requires k < EXPORTS
  {
    exists j: nat :: j <= i && lookups(j)[k] != 0
  }

  /** The i-th call of resolve succeeds: every required export was found by then, not necessarily by one
      and the same lookup. */
  ghost predicate ResolvedAt(lookups: nat -> Found, i: nat) {
    forall k :: 0 <= k < REQUIRED ==> FoundBy(lookups, i, k)
  }

  ghost predicate Answered(probe: nat -> bool) { exists i: nat :: i < WAIT_STEPS && probe(i) }

  ghost predicate Resolved(lookups: nat -> Found) { exists i: nat :: i < WAIT_STEPS && ResolvedAt(lookups, i) }

  /** The loop ends with the first attempt that answers, or when time runs out. */
  ghost predicate Attempts(probe: nat -> bool, n: nat) {
    && 0 < n <= WAIT_STEPS
    && (forall i: nat :: i < n - 1 ==> !probe(i))
    && (probe(n - 1) || n == WAIT_STEPS)
  }

  ghost predicate Lookups(lookups: nat -> Found, n: nat) {
    && 0 < n <= WAIT_STEPS
    && (forall i: nat :: i < n - 1 ==> !ResolvedAt(lookups, i))
    && (ResolvedAt(lookups, n - 1) || n == WAIT_STEPS)
  }

  method Poll(probe: nat -> bool) returns (found: bool, attempts: nat)
    ensures Attempts(probe, attempts)
    ensures found <==> probe(attempts - 1)
    ensures found <==> Answered(probe)
  {
    found, attempts := false, 0;
    while attempts < WAIT_STEPS && !found
      invariant attempts <= WAIT_STEPS
      invariant found ==> attempts > 0 && probe(attempts - 1)
      invariant forall i: nat :: i < attempts && !(found && i == attempts - 1) ==> !probe(i)
      decreases WAIT_STEPS - attempts, !found
    {
      found := probe(attempts);
      attempts := attempts + 1;
    }
  }

  /** Calling resolve until it succeeds, from the state in which nothing is bound. */
  method AwaitExports(exports: Exports, lookups: nat -> Found) returns (resolved: bool, attempts: nat)
    requires exports.bound == seq(EXPORTS, i => 0)
    modifies exports
    ensures Lookups(lookups, attempts)
    ensures resolved <==> ResolvedAt(lookups, attempts - 1)
    ensures resolved <==> Resolved(lookups)
    ensures |exports.bound| == EXPORTS
    ensures forall k :: 0 <= k < EXPORTS ==> (exports.bound[k] != 0 <==> FoundBy(lookups, attempts - 1, k))
  {
    resolved, attempts := false, 0;
    while attempts < WAIT_STEPS && !resolved
      invariant attempts <= WAIT_STEPS && |exports.bound| == EXPORTS
      invariant attempts == 0 ==> exports.bound == seq(EXPORTS, i => 0) && !resolved
      invariant attempts > 0 ==>
                  forall k :: 0 <= k < EXPORTS ==> (exports.bound[k] != 0 <==> FoundBy(lookups, attempts - 1, k))
      invariant attempts > 0 ==> (resolved <==> ResolvedAt(lookups, attempts - 1))
      invariant forall i: nat :: i < attempts && !(resolved && i == attempts - 1) ==> !ResolvedAt(lookups, i)
      decreases WAIT_STEPS - attempts, !resolved
    {
      forall k | 0 <= k < EXPORTS
        ensures FoundBy(lookups, attempts, k)
                <==> lookups(attempts)[k] != 0 || (attempts > 0 && FoundBy(lookups, attempts - 1, k))
      {
        FoundOneMore(lookups, attempts, k);
      }
      resolved := exports.Resolve(lookups(attempts));
      attempts := attempts + 1;
    }
  }

  lemma FoundOneMore(lookups: nat -> Found, i: nat, k: nat)
    requires k < EXPORTS
    ensures FoundBy(lookups, i, k) <==> lookups(i)[k] != 0 || (i > 0 && FoundBy(lookups, i - 1, k))
  {
  }

  // ---------------------------------------------------------------- the thread

  /** How the process answers the thread: each poll by the number of the attempt, the rest once. The
      answers to the installs are those of the engine and the runtime, one for each row. */
  datatype Process = Process(library: nat -> bool, exports: nat -> Found, domain: nat -> bool, assemblies: nat -> nat,
                             attaches: bool, image: nat -> bool, tracing: TracingAnswers, guard: GuardAnswers)

  const NO_ANSWER := Answers(false, 0, 0, false, 0)

  type TracingAnswers = a: seq<Answers> | |a| == |TRACING| ghost witness seq(|TRACING|, i => NO_ANSWER)
  type GuardAnswers = a: seq<Answers> | |a| == |GUARD| ghost witness seq(|GUARD|, i => NO_ANSWER)

  datatype Event = Settled | AttachFailed | Attached | WalkMetadata | InstallTracing | InstallGuard | Detached

  /** The thread gets as far as attaching. */
  ghost predicate Ready(p: Process) {
    && Answered(p.library) && Resolved(p.exports) && Answered(p.domain)
    && exists j: nat :: Window(p.assemblies, j)
  }

  /** The hooks are installed. */
  ghost predicate Hooked(p: Process) { Ready(p) && p.attaches && Answered(p.image) }

  /** The optional export for detaching was found by the time the required ones were. */
  ghost predicate CanDetach(p: Process) {
    exists n: nat :: Lookups(p.exports, n) && FoundBy(p.exports, n - 1, REQUIRED)
  }

  function Walks(n: nat): seq<Event> { seq(n, i => WalkMetadata) }

  function Installs(installs: bool): seq<Event> { if installs then [InstallTracing, InstallGuard] else [] }

  function Ending(detachBound: bool): seq<Event> { if detachBound then [Detached] else [] }

  /** What an attached thread does: it walks the metadata until the image appears or time runs out,
      installs the tracing hooks and then the guard hooks if it appeared, and detaches if it can. */
  function Session(walks: nat, installs: bool, detachBound: bool): seq<Event> {
    [Settled, Attached] + Walks(walks) + Installs(installs) + Ending(detachBound)
  }

  /** These are the events of a run of the thread in this process. */
  ghost predicate EventsOf(p: Process, events: seq<Event>) {
    if !Ready(p) then events == []
    else if !p.attaches then events == [Settled, AttachFailed]
    else exists walks: nat :: Attempts(p.image, walks) && events == Session(walks, Answered(p.image), CanDetach(p))
  }

  /** The hooks after the thread. */
  ghost function HooksAfter(p: Process): State {
    if Hooked(p) then AfterAll(INITIAL, Requests(TABLE, p.tracing + p.guard)) else INITIAL
  }

  method Run(p: Process) returns (events: seq<Event>, polls: nat, hooked: State)
    ensures EventsOf(p, events)
    ensures hooked == HooksAfter(p)
    ensures polls <= 5 * WAIT_STEPS
  {
    var exports := new Exports();
    events, polls, hooked := [], 0, INITIAL;
    var found, n := Poll(p.library);
    polls := polls + n;
    if !found { return; }
    found, n := AwaitExports(exports, p.exports);
    polls := polls + n;
    if !found { return; }
    var detachBound := exports.bound[REQUIRED] != 0;
    DetachDecided(p, n);
    found, n := Poll(p.domain);
    polls := polls + n;
    if !found { return; }
    var settled, last, used := AwaitSettled(p.assemblies);
    polls := polls + used;
    if !settled { return; }
    if !p.attaches { return [Settled, AttachFailed], polls, INITIAL; }
    events, n, hooked := RunAttached(p, detachBound);
    polls := polls + n;
  }

  /** The thread from the successful attach on. */
  method RunAttached(p: Process, detachBound: bool) returns (events: seq<Event>, walks: nat, hooked: State)
    ensures Attempts(p.image, walks) && events == Session(walks, Answered(p.image), detachBound)
    ensures hooked == if Answered(p.image) then AfterAll(INITIAL, Requests(TABLE, p.tracing + p.guard)) else INITIAL
  {
    var hooks := new Hooks();
    var found;
    found, walks := Poll(p.image);
    events := [Settled, Attached] + Walks(walks);
    if found {
      var photonInstalled := hooks.InstallTracing(p.tracing);
      events := events + [InstallTracing];
      var guardInstalled := hooks.InstallGuard(p.guard);
      events := events + [InstallGuard];
      BothTables(p);
    }
    if detachBound { events := events + [Detached]; }
    hooked := hooks.state;
    assert events == Session(walks, found, detachBound);
  }

  lemma DetachDecided(p: Process, n: nat)
    requires Lookups(p.exports, n)
    ensures CanDetach(p) <==> FoundBy(p.exports, n - 1, REQUIRED)
  {
  }

  lemma BothTables(p: Process)
    ensures AfterAll(AfterAll(INITIAL, Requests(TRACING, p.tracing)), Requests(GUARD, p.guard))
            == AfterAll(INITIAL, Requests(TABLE, p.tracing + p.guard))
  {
    AfterBoth(INITIAL, Requests(TRACING, p.tracing), Requests(GUARD, p.guard));
    assert Requests(TRACING, p.tracing) + Requests(GUARD, p.guard) == Requests(TABLE, p.tracing + p.guard);
  }

  // ---------------------------------------------------------------- what every run keeps

  /** A process has one course of events. */
  lemma EventsOnce(p: Process, events: seq<Event>, others: seq<Event>)
    requires EventsOf(p, events) && EventsOf(p, others)
    ensures events == others
  {
  }

  /** In every run metadata is walked and hooks are installed only after settling and attaching, metadata
      before hooks, the guard hooks right after the tracing hooks, and detaching is the last thing done. */
  lemma RunOrder(p: Process, events: seq<Event>, i: nat)
    requires EventsOf(p, events) && i < |events|
    ensures events[i] in {WalkMetadata, InstallTracing, InstallGuard, Detached} ==>
              i >= 2 && events[0] == Settled && events[1] == Attached
    ensures events[i] == WalkMetadata ==> forall k :: 2 <= k < i ==> events[k] == WalkMetadata
    ensures events[i] == InstallTracing ==>
              events[i - 1] == WalkMetadata && i + 1 < |events| && events[i + 1] == InstallGuard
    ensures events[i] == InstallGuard ==> events[i - 1] == InstallTracing
    ensures events[i] == Detached ==> i == |events| - 1
  {
    if Ready(p) && p.attaches {
      var walks: nat :| Attempts(p.image, walks) && events == Session(walks, Answered(p.image), CanDetach(p));
      SessionAt(walks, Answered(p.image), CanDetach(p), i);
    }
  }

  /** The parts of a session by position. */
  lemma SessionAt(walks: nat, installs: bool, detachBound: bool, i: nat)
    requires i < |Session(walks, installs, detachBound)|
    ensures var s, n := Session(walks, installs, detachBound), 2 + walks;
            var m := n + if installs then 2 else 0;
            && |s| == m + (if detachBound then 1 else 0)
            && s[0] == Settled && s[1] == Attached
            && (forall k :: 2 <= k < n ==> s[k] == WalkMetadata)
            && (installs ==> s[n] == InstallTracing && s[n + 1] == InstallGuard)
            && (detachBound ==> s[m] == Detached)
  {
  }

  function Occurrences(events: seq<Event>, e: Event): nat { multiset(events)[e] }

  lemma {:induction false} WalksOnly(n: nat, e: Event)
    ensures Occurrences(Walks(n), e) == if e == WalkMetadata then n else 0
  {
    if n > 0 {
      WalksOnly(n - 1, e);
      assert Walks(n) == Walks(n - 1) + [WalkMetadata];
    }
  }

  lemma CountsAdd(a: seq<Event>, b: seq<Event>, e: Event)
    ensures Occurrences(a + b, e) == Occurrences(a, e) + Occurrences(b, e)
  {
  }

  lemma SessionCounts(walks: nat, installs: bool, detachBound: bool, e: Event)
    ensures Occurrences(Session(walks, installs, detachBound), e)
            == (if e == Settled || e == Attached then 1 else 0) + (if e == WalkMetadata then walks else 0)
               + (if installs && (e == InstallTracing || e == InstallGuard) then 1 else 0)
               + (if detachBound && e == Detached then 1 else 0)
  {
    var start, middle := [Settled, Attached], Walks(walks);
    CountsAdd(start + middle + Installs(installs), Ending(detachBound), e);
    CountsAdd(start + middle, Installs(installs), e);
    CountsAdd(start, middle, e);
    WalksOnly(walks, e);
  }

  lemma AttachedCounts(events: seq<Event>, walks: nat, installs: bool, detachBound: bool)
    requires events == Session(walks, installs, detachBound)
    ensures Occurrences(events, InstallTracing) == Occurrences(events, InstallGuard) == (if installs then 1 else 0)
    ensures Occurrences(events, Attached) == 1
    ensures Occurrences(events, Detached) == if detachBound then 1 else 0
    ensures Occurrences(events, WalkMetadata) == walks
  {
    SessionCounts(walks, installs, detachBound, InstallTracing);
    SessionCounts(walks, installs, detachBound, InstallGuard);
    SessionCounts(walks, installs, detachBound, Attached);
    SessionCounts(walks, installs, detachBound, Detached);
    SessionCounts(walks, installs, detachBound, WalkMetadata);
  }

  /** In every run each table is installed at most once, and exactly once in the processes that get that
      far; metadata is walked once for each attempt up to the first that finds the image; and a successful
      attach is followed by exactly one detach when detaching is possible. */
  lemma RunCounts(p: Process, events: seq<Event>)
    requires EventsOf(p, events)
    ensures Occurrences(events, InstallTracing) == Occurrences(events, InstallGuard) == (if Hooked(p) then 1 else 0)
    ensures Occurrences(events, Attached) == if Ready(p) && p.attaches then 1 else 0
    ensures Occurrences(events, Detached) == if CanDetach(p) then Occurrences(events, Attached) else 0
    ensures if Ready(p) && p.attaches then Attempts(p.image, Occurrences(events, WalkMetadata))
            else Occurrences(events, WalkMetadata) == 0
  {
    if Ready(p) && p.attaches {
      var walks: nat :| Attempts(p.image, walks) && events == Session(walks, Answered(p.image), CanDetach(p));
      AttachedCounts(events, walks, Answered(p.image), CanDetach(p));
    }
  }

  /** What the thread leaves behind in every process: all installs are accounted for, and a replacement
      that calls its slot reaches its own original. */
  lemma RunAccounted(p: Process)
    requires AlwaysFresh(Requests(TABLE, p.tracing + p.guard))
    ensures SlotsReachOwn(HooksAfter(p))
    ensures var requests := Requests(TABLE, p.tracing + p.guard);
            if Hooked(p) then Accounted(HooksAfter(p), requests, Outcomes(INITIAL, requests))
            else HooksAfter(p).patches == map[]
  {
    TablesAccounted(p.tracing + p.guard);
  }

  // ---------------------------------------------------------------- the same in plain numbers

  /** A window is 26 equal counts in a row, none of them zero and none above 8192. */
  lemma WindowMeans(raw: nat -> nat, j: nat)
    ensures Window(raw, j)
            <==> 25 <= j < 6000 && 0 < raw(j) <= 8192 && forall k: nat :: j - 25 <= k <= j ==> raw(k) == raw(j)
  {
  }

  /** By the i-th lookup each of the first sixteen exports has been found. */
  ghost predicate SixteenFoundBy(lookups: nat -> Found, i: nat) {
    forall k :: 0 <= k < 16 ==> FoundBy(lookups, i, k)
  }

  ghost predicate SettlesAt(raw: nat -> nat, j: nat) {
    25 <= j < 6000 && 0 < raw(j) <= 8192 && forall k: nat :: j - 25 <= k <= j ==> raw(k) == raw(j)
  }

  /** How far a run gets: it settles exactly when the library, sixteen exports, the domain and a settled
      list of assemblies come within 6000 attempts each; it attaches when the runtime lets it; and it
      installs its hooks when the image comes within another 6000. */
  lemma RunReaches(p: Process, events: seq<Event>)
    requires EventsOf(p, events)
    ensures Settled in events
            <==> && (exists i: nat :: i < 6000 && p.library(i))
                 && (exists i: nat :: i < 6000 && SixteenFoundBy(p.exports, i))
                 && (exists i: nat :: i < 6000 && p.domain(i))
                 && (exists j: nat :: SettlesAt(p.assemblies, j))
    ensures events == [] <==> Settled !in events
    ensures Attached in events <==> Settled in events && p.attaches
    ensures InstallTracing in events <==> Attached in events && exists i: nat :: i < 6000 && p.image(i)
    ensures InstallGuard in events <==> InstallTracing in events
  {
    forall j: nat ensures Window(p.assemblies, j) <==> SettlesAt(p.assemblies, j) { WindowMeans(p.assemblies, j); }
    forall i: nat ensures ResolvedAt(p.exports, i) <==> SixteenFoundBy(p.exports, i) { SixteenIsRequired(p.exports, i); }
    if Ready(p) && p.attaches {
      var walks: nat :| Attempts(p.image, walks) && events == Session(walks, Answered(p.image), CanDetach(p));
      SessionHas(events, walks, Answered(p.image), CanDetach(p));
    }
  }

  lemma SixteenIsRequired(lookups: nat -> Found, i: nat)
    ensures ResolvedAt(lookups, i) <==> SixteenFoundBy(lookups, i)
  {
  }

  lemma SessionHas(events: seq<Event>, walks: nat, installs: bool, detachBound: bool)
    requires events == Session(walks, installs, detachBound)
    ensures Settled in events && Attached in events && AttachFailed !in events
    ensures InstallTracing in events <==> installs
    ensures InstallGuard in events <==> installs
  {
    assert events[0] == Settled && events[1] == Attached;
    if installs {
      assert events[2 + walks] == InstallTracing && events[3 + walks] == InstallGuard;
    }
  }

  /** A run that finds all 22 methods at 22 addresses, with an engine that accepts them, leaves 22 hooks. */
  lemma FavourableRun(p: Process)
    requires Hooked(p) && Favourable(p.tracing + p.guard) && AlwaysFresh(Requests(TABLE, p.tracing + p.guard))
    ensures |HooksAfter(p).patches| == 22
  {
    AllInstalled(p.tracing + p.guard);
  }
}
