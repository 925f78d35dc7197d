/** hook.cpp: installing one inline hook, with rollback, on top of a hook engine in UNIQUE mode; the two
    tables of installs; and which original a replacement reaches through its slot afterwards.

    Code addresses and trampolines are numbers, 0 is null. The engine itself is foreign;
    what is relied on is its UNIQUE-mode contract: it refuses an address that is patched already, and
    a trampoline it hands out is a new address that runs the original code of the patched one. */
module HookInstaller {
  import opened Wrappers
  import opened HookTables

  type Pointer = nat

  datatype Patch = Patch(replacement: Replacement, trampoline: Pointer)

  /** How the engine and the runtime answer during one install. */
  datatype Answers = Answers(initOk: bool, methodInfo: Pointer, address: Pointer, accepts: bool, trampoline: Pointer)

  /** One call of install: the replacement, the slot that receives the original, either of which may be
      null, and the answers. */
  datatype Request = Request(replacement: Option<Replacement>, slot: Option<Slot>, answers: Answers)

  /** The engine once-flag and its outcome, the code patches, the slots, and which original each
      trampoline runs. */
  datatype State = State(tried: bool, ready: bool, patches: map<Pointer, Patch>, slots: map<Slot, Pointer>,
                         runs: map<Pointer, Pointer>)

  const INITIAL := State(false, false, map[], map[], map[])

  /** The contract of the engine: trampolines are new. */
  predicate Fresh(s: State, a: Answers) { a.trampoline != 0 ==> a.trampoline !in s.runs }

  class Hooks {
    var state: State

    constructor ()
      ensures state == INITIAL
    {
      state := INITIAL;
    }

    method EnsureEngine(initOk: bool)
      modifies this
      ensures state == old(state).(tried := true, ready := if old(state).tried then old(state).ready else initOk)
    {
      if !state.tried {
        state := state.(tried := true, ready := initOk);
      }
    }

    /** shadowhook_hook_func_addr: it patches and fills the slot, or refuses and touches nothing. */
    method HookFuncAddr(address: Pointer, replacement: Replacement, slot: Slot, a: Answers) returns (stub: Pointer)
      modifies this
      ensures var accepted := a.accepts && address !in old(state).patches;
              && (stub != 0 <==> accepted)
              && state == if !accepted then old(state)
                          else old(state).(patches := old(state).patches[address := Patch(replacement, a.trampoline)],
                                           slots := old(state).slots[slot := a.trampoline],
                                           runs := if a.trampoline == 0 then old(state).runs
                                                   else old(state).runs[a.trampoline := address])
    {
      if !a.accepts || address in state.patches { return 0; }
      state := state.(patches := state.patches[address := Patch(replacement, a.trampoline)],
                      slots := state.slots[slot := a.trampoline],
                      runs := if a.trampoline == 0 then state.runs else state.runs[a.trampoline := address]);
      return 1;
    }

    method Unhook(address: Pointer)
      modifies this
      ensures state == old(state).(patches := old(state).patches - {address})
    {
      state := state.(patches := state.patches - {address});
    }

    method Install(r: Request) returns (ok: bool)
      modifies this
      ensures ok <==> Succeeds(old(state), r)
      ensures state == After(old(state), r)
    {
      if r.replacement.None? || r.slot.None? { return false; }
      EnsureEngine(r.answers.initOk);
      if !state.ready { return false; }
      if r.answers.methodInfo == 0 { return false; }
      var address := r.answers.address;
      if address == 0 { return false; }
      var slot := r.slot.value;
      state := state.(slots := state.slots[slot := 0]);
      ghost var before := state;
      var stub := HookFuncAddr(address, r.replacement.value, slot, r.answers);
      if stub == 0 { return false; }
      if state.slots[slot] == 0 {
        Unhook(address);
        assert before.patches[address := Patch(r.replacement.value, 0)] - {address} == before.patches;
        assert before.slots[slot := 0] == before.slots;
        return false;
      }
      assert before.slots[slot := r.answers.trampoline] == old(state).slots[slot := r.answers.trampoline];
      return true;
    }

    /** A table of installs, with what the callers keep: the number of successes, and whether the first
        install, the required one, was among them. */
    method InstallAll(requests: seq<Request>) returns (installed: nat, first: bool)
      modifies this
      ensures state == AfterAll(old(state), requests)
      ensures installed == CountTrue(Outcomes(old(state), requests))
      ensures first <==> requests != [] && Outcomes(old(state), requests)[0]
    {
      installed, first := 0, false;
      assert requests[..0] == [];
      for i := 0 to |requests|
        invariant state == AfterAll(old(state), requests[..i])
        invariant installed == CountTrue(Outcomes(old(state), requests[..i]))
        invariant first <==> i > 0 && Outcomes(old(state), requests[..i])[0]
      {
        assert requests[..i + 1][..i] == requests[..i];
        ghost var done := Outcomes(old(state), requests[..i]);
        var ok := Install(requests[i]);
        assert (done + [ok])[..i] == done && Outcomes(old(state), requests[..i + 1]) == done + [ok];
        if ok { installed := installed + 1; }
        if i == 0 { first := ok; }
      }
      assert requests[..|requests|] == requests;
    }

    /** install_hooks of photon_hooks.cpp reports its core hook. */
    method InstallTracing(answers: seq<Answers>) returns (ok: bool)
      requires |answers| == |TRACING|
      modifies this
      ensures state == AfterAll(old(state), Requests(TRACING, answers))
      ensures ok <==> Outcomes(old(state), Requests(TRACING, answers))[0]
    {
      var installed, core := InstallAll(Requests(TRACING, answers));
      return core;
    }

    /** install_hooks of cloud_guard.h asks for the backend guard and one connect entry besides. */
    method InstallGuard(answers: seq<Answers>) returns (ok: bool)
      requires |answers| == |GUARD|
      modifies this
      ensures state == AfterAll(old(state), Requests(GUARD, answers))
      ensures ok <==> Outcomes(old(state), Requests(GUARD, answers))[0]
                      && CountTrue(Outcomes(old(state), Requests(GUARD, answers))) >= 2
    {
      var installed, backendGuard := InstallAll(Requests(GUARD, answers));
      return backendGuard && installed >= 2;
    }
  }

  /** The install calls of a table, with what the engine and the runtime answer to each. */
  function Requests(rows: seq<Row>, answers: seq<Answers>): (requests: seq<Request>)
    requires |rows| == |answers|
    ensures |requests| == |rows|
  {
    seq(|rows|, i requires 0 <= i < |rows| => Request(Some(rows[i].replacement), Some(rows[i].slot), answers[i]))
  }

  // ---------------------------------------------------------------- one install

  /** The install gets as far as clearing the slot. */
  predicate ReachesSlot(s: State, r: Request) {
    && r.replacement.Some? && r.slot.Some?
    && (if s.tried then s.ready else r.answers.initOk)
    && r.answers.methodInfo != 0 && r.answers.address != 0
  }

  predicate Succeeds(s: State, r: Request) {
    ReachesSlot(s, r) && r.answers.accepts && r.answers.address !in s.patches && r.answers.trampoline != 0
  }

  function After(s: State, r: Request): State {
    if r.replacement.None? || r.slot.None? then s
    else
      var started := s.(tried := true, ready := if s.tried then s.ready else r.answers.initOk);
      if !ReachesSlot(s, r) then started
      else if !Succeeds(s, r) then started.(slots := s.slots[r.slot.value := 0])
      else started.(patches := s.patches[r.answers.address := Patch(r.replacement.value, r.answers.trampoline)],
                    slots := s.slots[r.slot.value := r.answers.trampoline],
                    runs := s.runs[r.answers.trampoline := r.answers.address])
  }

  function AfterAll(s: State, requests: seq<Request>): State {
    if requests == [] then s else After(AfterAll(s, requests[..|requests| - 1]), requests[|requests| - 1])
  }

  /** What the installs return, in order. */
  function Outcomes(s: State, requests: seq<Request>): (done: seq<bool>)
    ensures |done| == |requests|
  {
    if requests == [] then []
    else
      var front := requests[..|requests| - 1];
      Outcomes(s, front) + [Succeeds(AfterAll(s, front), requests[|requests| - 1])]
  }

  function CountTrue(done: seq<bool>): nat {
    if done == [] then 0 else CountTrue(done[..|done| - 1]) + if done[|done| - 1] then 1 else 0
  }

  /** A failed install leaves every patch as it was. */
  lemma FailureKeepsCode(s: State, r: Request)
    ensures !Succeeds(s, r) ==> After(s, r).patches == s.patches && After(s, r).runs == s.runs
    ensures Succeeds(s, r) ==> After(s, r).patches.Keys == s.patches.Keys + {r.answers.address}
  {
  }

  // ---------------------------------------------------------------- what a replacement reaches

  datatype Outcome = Runs(original: Pointer) | Crash

  /** What calling the pointer in a slot does: a trampoline runs the original code of its address, and
      anything else, such as null, crashes. */
  function SlotTarget(s: State, slot: Slot): Outcome {
    if slot in s.slots && s.slots[slot] in s.runs then Runs(s.runs[s.slots[slot]]) else Crash
  }

  /** Whenever an installed replacement calls its slot, it reaches the original code of the very address
      that it replaces. Whether and how often it calls the slot is up to its body. */
  ghost predicate SlotsReachOwn(s: State) {
    && 0 !in s.runs
    && forall a :: a in s.patches ==> SlotTarget(s, SlotOf(s.patches[a].replacement)) == Runs(a)
  }

  /** The request pairs its replacement with the slot that the replacement calls. */
  predicate Paired(r: Request) {
    r.replacement.Some? && r.slot.Some? ==> SlotOf(r.replacement.value) == r.slot.value
  }

  /** Some installed replacement calls this slot. */
  ghost predicate InUse(s: State, slot: Slot) {
    exists a :: a in s.patches && SlotOf(s.patches[a].replacement) == slot
  }

  /** An install keeps every slot on its own original if and only if it stops before it clears the
      slot, or the slot is not one that an installed replacement calls. */
  lemma SlotsReachOwnIffFree(s: State, r: Request)
    requires SlotsReachOwn(s) && Paired(r) && Fresh(s, r.answers)
    ensures SlotsReachOwn(After(s, r)) <==> !ReachesSlot(s, r) || !InUse(s, r.slot.value)
  {
  }

  // ---------------------------------------------------------------- any sequence of installs

  /** No two requests share a slot, each is paired, and the engine keeps its contract throughout. */
  ghost predicate WellFormed(requests: seq<Request>) {
    requests == [] ||
    var front, last := requests[..|requests| - 1], requests[|requests| - 1];
    && WellFormed(front)
    && (forall i :: 0 <= i < |front| && front[i].slot.Some? ==> front[i].slot != last.slot)
    && Paired(last)
    && Fresh(AfterAll(INITIAL, front), last.answers)
  }

  lemma {:induction false} AllPaired(requests: seq<Request>)
    requires WellFormed(requests)
    ensures forall i :: 0 <= i < |requests| ==> Paired(requests[i])
  {
    if requests != [] {
      AllPaired(requests[..|requests| - 1]);
    }
  }

  /** Request i was carried out: its address is patched with its replacement and its slot holds the
      trampoline of that address. */
  predicate InForce(s: State, r: Request) {
    && r.replacement.Some? && r.slot.Some? && r.answers.address in s.patches
    && s.patches[r.answers.address] == Patch(r.replacement.value, r.answers.trampoline)
    && r.answers.trampoline != 0
    && r.slot.value in s.slots && s.slots[r.slot.value] == r.answers.trampoline
    && r.answers.trampoline in s.runs && s.runs[r.answers.trampoline] == r.answers.address
  }

  predicate NullSlot(s: State, r: Request) {
    r.slot.Some? ==> r.slot.value !in s.slots || s.slots[r.slot.value] == 0
  }

  ghost predicate PatchedBy(requests: seq<Request>, done: seq<bool>, a: Pointer)
    requires |done| == |requests|
  {
    exists i :: 0 <= i < |requests| && done[i] && requests[i].answers.address == a
  }

  ghost predicate Mentions(requests: seq<Request>, slot: Slot) {
    exists i :: 0 <= i < |requests| && requests[i].slot == Some(slot)
  }

  /** What holds after the requests: those that succeeded are in force, patched addresses come from
      exactly one of them, the slots of the others are null, and the counter is the number of patches. */
  ghost predicate Accounted(s: State, requests: seq<Request>, done: seq<bool>)
    requires |done| == |requests|
  {
    && (forall i :: 0 <= i < |requests| ==> if done[i] then InForce(s, requests[i]) else NullSlot(s, requests[i]))
    && (forall i, j :: 0 <= i < j < |requests| && done[i] && done[j] ==>
          requests[i].answers.address != requests[j].answers.address)
    && (forall a :: a in s.patches ==> PatchedBy(requests, done, a))
    && (forall slot :: slot in s.slots ==> Mentions(requests, slot))
    && |s.patches| == CountTrue(done)
  }

  /** After any sequence of installs with distinct slots, whatever the engine answers and however the
      methods share addresses. */
  lemma {:induction false} InstallsAccounted(requests: seq<Request>)
    requires WellFormed(requests)
    ensures Accounted(AfterAll(INITIAL, requests), requests, Outcomes(INITIAL, requests))
    ensures SlotsReachOwn(AfterAll(INITIAL, requests))
  {
    if requests == [] {
      NothingAccounted(INITIAL);
    } else {
      var n := |requests| - 1;
      var front, last := requests[..n], requests[n];
      InstallsAccounted(front);
      AllPaired(front);
      OneMoreInstall(AfterAll(INITIAL, front), front, Outcomes(INITIAL, front), last);
      assert requests == front + [last];
    }
  }

  lemma NothingAccounted(s: State)
    requires s.patches == map[] && s.slots == map[] && s.runs == map[]
    ensures Accounted(s, [], []) && SlotsReachOwn(s)
  {
  }

  lemma OneMoreInstall(s: State, front: seq<Request>, done: seq<bool>, last: Request)
    requires |done| == |front| && Accounted(s, front, done) && SlotsReachOwn(s)
    requires forall i :: 0 <= i < |front| ==> Paired(front[i])
    requires forall i :: 0 <= i < |front| && front[i].slot.Some? ==> front[i].slot != last.slot
    requires Paired(last) && Fresh(s, last.answers)
    ensures Accounted(After(s, last), front + [last], done + [Succeeds(s, last)])
    ensures SlotsReachOwn(After(s, last))
  {
    SlotIsFree(s, front, done, last);
    SlotsReachOwnIffFree(s, last);
    OneMoreAccounted(s, front, done, last);
  }

  lemma SlotIsFree(s: State, front: seq<Request>, done: seq<bool>, last: Request)
    requires |done| == |front| && Accounted(s, front, done)
    requires forall i :: 0 <= i < |front| && front[i].slot.Some? ==> front[i].slot != last.slot
    requires forall i :: 0 <= i < |front| ==> Paired(front[i])
    ensures last.slot.Some? ==> !InUse(s, last.slot.value)
  {
  }

  lemma StepHolds(s: State, r: Request, ok: bool, last: Request)
    requires if ok then InForce(s, r) else NullSlot(s, r)
    requires r.slot.Some? ==> r.slot != last.slot
    requires Fresh(s, last.answers)
    ensures if ok then InForce(After(s, last), r) else NullSlot(After(s, last), r)
  {
  }

  lemma LastHolds(s: State, last: Request)
    requires NullSlot(s, last)
    ensures if Succeeds(s, last) then InForce(After(s, last), last) else NullSlot(After(s, last), last)
    ensures forall slot :: slot in After(s, last).slots ==> slot in s.slots || last.slot == Some(slot)
    ensures |After(s, last).patches| == |s.patches| + if Succeeds(s, last) then 1 else 0
    ensures Succeeds(s, last) ==> last.answers.address !in s.patches
  {
  }

  lemma PatchedByMore(front: seq<Request>, done: seq<bool>, last: Request, ok: bool, a: Pointer)
    requires |done| == |front|
    requires PatchedBy(front, done, a) || (ok && last.answers.address == a)
    ensures PatchedBy(front + [last], done + [ok], a)
  {
    var requests, all := front + [last], done + [ok];
    if PatchedBy(front, done, a) {
      var i :| 0 <= i < |front| && done[i] && front[i].answers.address == a;
      assert requests[i] == front[i] && all[i];
    } else {
      assert requests[|front|] == last && all[|front|];
    }
  }

  lemma MentionsMore(front: seq<Request>, last: Request, slot: Slot)
    requires Mentions(front, slot) || last.slot == Some(slot)
    ensures Mentions(front + [last], slot)
  {
    var requests := front + [last];
    if Mentions(front, slot) {
      var i :| 0 <= i < |front| && front[i].slot == Some(slot);
      assert requests[i] == front[i];
    } else {
      assert requests[|front|] == last;
    }
  }

  lemma OneMoreHolds(s: State, front: seq<Request>, done: seq<bool>, last: Request)
    requires |done| == |front| && Accounted(s, front, done) && Fresh(s, last.answers)
    requires forall i :: 0 <= i < |front| && front[i].slot.Some? ==> front[i].slot != last.slot
    ensures NullSlot(s, last)
    ensures forall i :: 0 <= i < |front| ==>
              if done[i] then InForce(After(s, last), front[i]) else NullSlot(After(s, last), front[i])
  {
    assert last.slot.Some? && last.slot.value in s.slots ==> Mentions(front, last.slot.value);
    forall i | 0 <= i < |front|
      ensures if done[i] then InForce(After(s, last), front[i]) else NullSlot(After(s, last), front[i])
    {
      StepHolds(s, front[i], done[i], last);
    }
  }

  lemma AssembleHolds(s: State, t: State, front: seq<Request>, done: seq<bool>, last: Request, ok: bool)
    requires |done| == |front| && Accounted(s, front, done)
    requires forall i :: 0 <= i < |front| ==> if done[i] then InForce(t, front[i]) else NullSlot(t, front[i])
    requires if ok then InForce(t, last) else NullSlot(t, last)
    requires ok ==> last.answers.address !in s.patches
    ensures var requests, all := front + [last], done + [ok];
            && all[..|front|] == done
            && (forall i :: 0 <= i < |requests| ==> if all[i] then InForce(t, requests[i]) else NullSlot(t, requests[i]))
            && (forall i, j :: 0 <= i < j < |requests| && all[i] && all[j] ==>
                  requests[i].answers.address != requests[j].answers.address)
  {
  }

  /** The parts of Accounted put together, for any two states related as one install relates them. */
  lemma Assemble(s: State, t: State, front: seq<Request>, done: seq<bool>, last: Request, ok: bool)
    requires |done| == |front| && Accounted(s, front, done)
    requires forall i :: 0 <= i < |front| ==> if done[i] then InForce(t, front[i]) else NullSlot(t, front[i])
    requires if ok then InForce(t, last) else NullSlot(t, last)
    requires ok ==> last.answers.address !in s.patches
    requires forall a :: a in t.patches ==> a in s.patches || (ok && a == last.answers.address)
    requires forall slot :: slot in t.slots ==> slot in s.slots || last.slot == Some(slot)
    requires |t.patches| == |s.patches| + if ok then 1 else 0
    ensures Accounted(t, front + [last], done + [ok])
  {
    AssembleHolds(s, t, front, done, last, ok);
    AssembleRest(s, t, front, done, last, ok);
  }

  lemma AssembleRest(s: State, t: State, front: seq<Request>, done: seq<bool>, last: Request, ok: bool)
    requires |done| == |front|
    requires forall a :: a in s.patches ==> PatchedBy(front, done, a)
    requires forall slot :: slot in s.slots ==> Mentions(front, slot)
    requires |s.patches| == CountTrue(done)
    requires forall a :: a in t.patches ==> a in s.patches || (ok && a == last.answers.address)
    requires forall slot :: slot in t.slots ==> slot in s.slots || last.slot == Some(slot)
    requires |t.patches| == |s.patches| + if ok then 1 else 0
    ensures forall a :: a in t.patches ==> PatchedBy(front + [last], done + [ok], a)
    ensures forall slot :: slot in t.slots ==> Mentions(front + [last], slot)
    ensures |t.patches| == CountTrue(done + [ok])
  {
    assert (done + [ok])[..|done|] == done;
    forall a | a in t.patches ensures PatchedBy(front + [last], done + [ok], a) {
      PatchedByMore(front, done, last, ok, a);
    }
    forall slot | slot in t.slots ensures Mentions(front + [last], slot) { MentionsMore(front, last, slot); }
  }

  lemma OneMoreAccounted(s: State, front: seq<Request>, done: seq<bool>, last: Request)
    requires |done| == |front| && Accounted(s, front, done) && Fresh(s, last.answers)
    requires forall i :: 0 <= i < |front| && front[i].slot.Some? ==> front[i].slot != last.slot
    ensures Accounted(After(s, last), front + [last], done + [Succeeds(s, last)])
  {
    OneMoreHolds(s, front, done, last);
    LastHolds(s, last);
    FailureKeepsCode(s, last);
    Assemble(s, After(s, last), front, done, last, Succeeds(s, last));
  }

  /** Why each table must be installed once only: installing a successful request again clears its slot
      while the patch stays, and the next call of that slot crashes. */
  lemma SecondInstallCrashes(r: Request)
    requires Succeeds(INITIAL, r) && Paired(r)
    ensures var twice := AfterAll(INITIAL, [r, r]);
            && Outcomes(INITIAL, [r, r]) == [true, false]
            && r.answers.address in twice.patches
            && SlotTarget(twice, SlotOf(twice.patches[r.answers.address].replacement)) == Crash
  {
  }

  // ---------------------------------------------------------------- the two tables

  /** The engine keeps its contract throughout. */
  ghost predicate AlwaysFresh(requests: seq<Request>) {
    requests == [] ||
    var front, last := requests[..|requests| - 1], requests[|requests| - 1];
    AlwaysFresh(front) && Fresh(AfterAll(INITIAL, front), last.answers)
  }

  lemma {:induction false} PairedRowsAreWellFormed(rows: seq<Row>, answers: seq<Answers>)
    requires |rows| == |answers| && AlwaysFresh(Requests(rows, answers))
    requires forall i :: 0 <= i < |rows| ==> SlotOf(rows[i].replacement) == rows[i].slot
    requires forall i, j :: 0 <= i < j < |rows| ==> rows[i].slot != rows[j].slot
    ensures WellFormed(Requests(rows, answers))
  {
    if rows != [] {
      var n := |rows| - 1;
      assert Requests(rows, answers)[..n] == Requests(rows[..n], answers[..n]);
      PairedRowsAreWellFormed(rows[..n], answers[..n]);
    }
  }

  /** Installing both tables, whatever the engine and the runtime answer and however the methods share
      addresses: everything is accounted for, and every slot that is called reaches its own original. */
  lemma TablesAccounted(answers: seq<Answers>)
    requires |answers| == |TABLE| && AlwaysFresh(Requests(TABLE, answers))
    ensures var requests := Requests(TABLE, answers);
            && Accounted(AfterAll(INITIAL, requests), requests, Outcomes(INITIAL, requests))
            && SlotsReachOwn(AfterAll(INITIAL, requests))
  {
    TablesArePaired();
    PairedRowsAreWellFormed(TABLE, answers);
    InstallsAccounted(Requests(TABLE, answers));
  }

  /** An address carries a replacement exactly when the row of that replacement was installed there. */
  lemma CarriesIff(answers: seq<Answers>, i: nat, a: Pointer)
    requires |answers| == |TABLE| && AlwaysFresh(Requests(TABLE, answers)) && i < |TABLE|
    ensures var requests := Requests(TABLE, answers);
            var s := AfterAll(INITIAL, requests);
            a in s.patches && s.patches[a].replacement == TABLE[i].replacement
            <==> Outcomes(INITIAL, requests)[i] && answers[i].address == a
  {
    var requests := Requests(TABLE, answers);
    var s, done := AfterAll(INITIAL, requests), Outcomes(INITIAL, requests);
    TablesArePaired();
    TablesAccounted(answers);
    assert requests[i] == Request(Some(TABLE[i].replacement), Some(TABLE[i].slot), answers[i]);
    assert done[i] ==> InForce(s, requests[i]);
    if a in s.patches && s.patches[a].replacement == TABLE[i].replacement {
      assert PatchedBy(requests, done, a);
      var j :| 0 <= j < |requests| && done[j] && requests[j].answers.address == a;
      assert InForce(s, requests[j]) && requests[j].replacement == Some(TABLE[j].replacement);
      assert j == i;
    }
  }

  /** One table after the other is both as one. */
  lemma {:induction false} AfterBoth(s: State, first: seq<Request>, second: seq<Request>)
    ensures AfterAll(AfterAll(s, first), second) == AfterAll(s, first + second)
  {
    if second == [] {
      assert first + second == first;
    } else {
      var front := second[..|second| - 1];
      AfterBoth(s, first, front);
      assert (first + second)[..|first + second| - 1] == first + front;
    }
  }

  // ---------------------------------------------------------------- which installs succeed

  /** None of the arguments is null. */
  predicate Complete(requests: seq<Request>) {
    forall i :: 0 <= i < |requests| ==> requests[i].replacement.Some? && requests[i].slot.Some?
  }

  /** The outcomes of a list begin with those of any part of it from the start. */
  lemma {:induction false} OutcomesBoth(s: State, first: seq<Request>, second: seq<Request>)
    ensures Outcomes(s, first + second) == Outcomes(s, first) + Outcomes(AfterAll(s, first), second)
  {
    if second == [] {
      assert first + second == first;
    } else {
      var front, last := second[..|second| - 1], second[|second| - 1];
      assert (first + second)[..|first + second| - 1] == first + front && (first + second)[|first + second| - 1] == last;
      OutcomesBoth(s, first, front);
      AfterBoth(s, first, front);
    }
  }

  /** The engine starts once, with the first install, and the patched addresses are those of the installs
      that succeeded. */
  lemma {:induction false} EngineAndPatches(requests: seq<Request>)
    requires Complete(requests)
    ensures var s := AfterAll(INITIAL, requests);
            && s.tried == (requests != [])
            && (requests != [] ==> s.ready == requests[0].answers.initOk)
            && forall a :: a in s.patches <==> PatchedBy(requests, Outcomes(INITIAL, requests), a)
  {
    if requests != [] {
      var front, last := requests[..|requests| - 1], requests[|requests| - 1];
      assert requests == front + [last];
      EngineAndPatches(front);
      var s, done := AfterAll(INITIAL, front), Outcomes(INITIAL, front);
      FailureKeepsCode(s, last);
      forall a
        ensures PatchedBy(requests, done + [Succeeds(s, last)], a)
                <==> PatchedBy(front, done, a) || (Succeeds(s, last) && last.answers.address == a)
      {
        PatchedBySplits(front, done, last, Succeeds(s, last), a);
      }
    }
  }

  lemma PatchedBySplits(front: seq<Request>, done: seq<bool>, last: Request, ok: bool, a: Pointer)
    requires |done| == |front|
    ensures PatchedBy(front + [last], done + [ok], a) <==> PatchedBy(front, done, a) || (ok && last.answers.address == a)
  {
    var requests, all := front + [last], done + [ok];
    if PatchedBy(front, done, a) || (ok && last.answers.address == a) {
      PatchedByMore(front, done, last, ok, a);
    }
    if PatchedBy(requests, all, a) {
      var i :| 0 <= i < |requests| && all[i] && requests[i].answers.address == a;
      if i < |front| {
        assert done[i] && front[i].answers.address == a;
      }
    }
  }

  /** Outcome i is that of install i in the state that the installs before it leave. */
  lemma OutcomeAt(s: State, requests: seq<Request>, i: nat)
    requires i < |requests|
    ensures Outcomes(s, requests)[i] == Succeeds(AfterAll(s, requests[..i]), requests[i])
    ensures Outcomes(s, requests)[..i] == Outcomes(s, requests[..i])
  {
    var upTo, rest := requests[..i + 1], requests[i + 1..];
    assert requests == upTo + rest;
    OutcomesBoth(s, upTo, rest);
    assert upTo[..i] == requests[..i];
    assert Outcomes(s, upTo) == Outcomes(s, requests[..i]) + [Succeeds(AfterAll(s, requests[..i]), requests[i])];
  }

  /** An install succeeds exactly when the engine started, the method and its code are found, the engine
      accepts the address and returns a trampoline, and no earlier install succeeded at the same address. */
  lemma InstalledIff(requests: seq<Request>, i: nat)
    requires Complete(requests) && i < |requests|
    ensures var done, a := Outcomes(INITIAL, requests), requests[i].answers;
            done[i] <==> && requests[0].answers.initOk && a.methodInfo != 0 && a.address != 0
                         && a.accepts && a.trampoline != 0
                         && forall j :: 0 <= j < i && done[j] ==> requests[j].answers.address != a.address
  {
    OutcomeAt(INITIAL, requests, i);
    EngineAndPatches(requests[..i]);
    PatchedIffEarlier(requests, requests[..i], Outcomes(INITIAL, requests), Outcomes(INITIAL, requests[..i]), i,
                      requests[i].answers.address);
  }

  lemma PatchedIffEarlier(requests: seq<Request>, front: seq<Request>, done: seq<bool>, before: seq<bool>, i: nat,
                          a: Pointer)
    requires i <= |requests| == |done| && front == requests[..i] && before == done[..i]
    ensures PatchedBy(front, before, a) <==> exists j :: 0 <= j < i && done[j] && requests[j].answers.address == a
  {
    if PatchedBy(front, before, a) {
      var j :| 0 <= j < |front| && before[j] && front[j].answers.address == a;
      assert done[j] && requests[j].answers.address == a;
    }
    if exists j :: 0 <= j < i && done[j] && requests[j].answers.address == a {
      var j :| 0 <= j < i && done[j] && requests[j].answers.address == a;
      assert before[j] && front[j].answers.address == a;
    }
  }

  /** The same for the two tables of the program. */
  lemma RowInstalledIff(answers: seq<Answers>, i: nat)
    requires |answers| == |TABLE| && i < |TABLE|
    ensures var done, a := Outcomes(INITIAL, Requests(TABLE, answers)), answers[i];
            done[i] <==> && answers[0].initOk && a.methodInfo != 0 && a.address != 0 && a.accepts && a.trampoline != 0
                         && forall j :: 0 <= j < i && done[j] ==> answers[j].address != a.address
  {
    InstalledIff(Requests(TABLE, answers), i);
  }

  /** Everything is found, accepted and given a trampoline, and no two methods share an address. */
  predicate Favourable(answers: seq<Answers>) {
    && (forall i :: 0 <= i < |answers| ==>
          && answers[i].initOk && answers[i].methodInfo != 0 && answers[i].address != 0
          && answers[i].accepts && answers[i].trampoline != 0)
    && (forall i, j :: 0 <= i < j < |answers| ==> answers[i].address != answers[j].address)
  }

  lemma {:induction false} CountOfAll(done: seq<bool>)
    requires forall i :: 0 <= i < |done| ==> done[i]
    ensures CountTrue(done) == |done|
  {
    if done != [] {
      CountOfAll(done[..|done| - 1]);
    }
  }

  /** With 22 methods at 22 addresses and new trampolines all 22 hooks are in force, and both install calls
      report success. */
  lemma AllInstalled(answers: seq<Answers>)
    requires |answers| == |TABLE| && Favourable(answers) && AlwaysFresh(Requests(TABLE, answers))
    ensures |AfterAll(INITIAL, Requests(TABLE, answers)).patches| == 22
    ensures |TRACING| == 17 && |GUARD| == 5
    ensures var first, second := Requests(TRACING, answers[..17]), Requests(GUARD, answers[17..]);
            && Outcomes(INITIAL, first)[0]
            && Outcomes(AfterAll(INITIAL, first), second)[0]
            && CountTrue(Outcomes(AfterAll(INITIAL, first), second)) >= 2
  {
    TablesArePaired();
    TablesAccounted(answers);
    AllRows(answers);
    CountOfAll(Outcomes(INITIAL, Requests(TABLE, answers)));
    AllInTables(TRACING, GUARD, answers);
  }

  lemma AllInTables(rows: seq<Row>, more: seq<Row>, answers: seq<Answers>)
    requires |rows| >= 1 && |more| >= 2 && |answers| == |rows + more|
    requires forall i :: 0 <= i < |answers| ==> Outcomes(INITIAL, Requests(rows + more, answers))[i]
    ensures var first, second := Requests(rows, answers[..|rows|]), Requests(more, answers[|rows|..]);
            && Outcomes(INITIAL, first)[0]
            && Outcomes(AfterAll(INITIAL, first), second)[0]
            && CountTrue(Outcomes(AfterAll(INITIAL, first), second)) >= 2
  {
    var first, second := Requests(rows, answers[..|rows|]), Requests(more, answers[|rows|..]);
    assert Requests(rows + more, answers) == first + second;
    AllInBoth(first, second);
  }

  lemma AllInBoth(first: seq<Request>, second: seq<Request>)
    requires |first| >= 1 && |second| >= 2
    requires forall i :: 0 <= i < |first + second| ==> Outcomes(INITIAL, first + second)[i]
    ensures Outcomes(INITIAL, first)[0]
    ensures Outcomes(AfterAll(INITIAL, first), second)[0]
    ensures CountTrue(Outcomes(AfterAll(INITIAL, first), second)) >= 2
  {
    var front, later := Outcomes(INITIAL, first), Outcomes(AfterAll(INITIAL, first), second);
    OutcomesBoth(INITIAL, first, second);
    AllInParts(front, later);
    CountOfAll(later);
  }

  lemma AllInParts(front: seq<bool>, later: seq<bool>)
    requires forall i :: 0 <= i < |front + later| ==> (front + later)[i]
    ensures forall i :: 0 <= i < |front| ==> front[i]
    ensures forall i :: 0 <= i < |later| ==> later[i]
  {
    forall i | 0 <= i < |front| ensures front[i] {
      assert (front + later)[i] == front[i];
    }
    forall i | 0 <= i < |later| ensures later[i] {
      assert (front + later)[|front| + i] == later[i];
    }
  }

  lemma AllRows(answers: seq<Answers>)
    requires |answers| == |TABLE| && Favourable(answers)
    ensures forall i :: 0 <= i < |TABLE| ==> Outcomes(INITIAL, Requests(TABLE, answers))[i]
  {
    forall i | 0 <= i < |TABLE| ensures Outcomes(INITIAL, Requests(TABLE, answers))[i] {
      RowInstalledIff(answers, i);
    }
  }

  /** An install with a null argument does nothing, not even start the engine. */
  lemma NullArguments(s: State, r: Request)
    requires r.replacement.None? || r.slot.None?
    ensures After(s, r) == s && !Succeeds(s, r)
  {
  }
}
