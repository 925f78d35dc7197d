/** The connection guard of cloud_guard.h: before an original connect entry runs, the SDK is told to
    use the cloud route and the settings are read back.

    The game may do anything between calls and the SDK may do anything to the game's state during
    UseCloud, so every promise has to come from the read-back. Managed references are numbers, 0 is
    null; a settings object is its fields, each the bytes it occupies. */
module CloudGuard {
  import opened Wrappers
  import opened FieldReader

  const PHOTON_CLOUD_HOST := 1
  const FORCED_REGION_EU := 0
  const POINTER_WIDTH := 4
  const INT_WIDTH := 4
  const WRAP := 0x1_0000_0000

  type Word = w: int | 0 <= w < 0x1_0000_0000
  type Ref = Word
  type FieldBytes = s: seq<Byte> | |s| <= 16

  datatype Object = Object(fields: map<string, FieldBytes>)

  /** What the guard can see of the game: its objects and the static settings reference. */
  datatype World = World(objects: map<Ref, Object>, settings: Ref)

  /** What a field reads as, or nothing when the object or the field is missing. */
  function FieldValue(world: World, obj: Ref, name: string, width: nat): Option<nat>
    requires width <= 8
  {
    if obj in world.objects && name in world.objects[obj].fields
    then Some(LittleEndian(world.objects[obj].fields[name]) % Range(width))
    else None
  }

  /** The route the guard insists on: host PhotonCloud, region eu and this very AppID string. */
  predicate Routed(world: World, settings: Ref, appId: Ref) {
    && FieldValue(world, settings, "HostType", INT_WIDTH) == Some(PHOTON_CLOUD_HOST)
    && FieldValue(world, settings, "PreferredRegion", INT_WIDTH) == Some(FORCED_REGION_EU)
    && FieldValue(world, settings, "AppID", POINTER_WIDTH) == Some(appId)
  }

  /** How the runtime answers during one invocation: whether the settings field can be found and read,
      the string that string_new makes, whether UseCloud is found with a code pointer, whether fields can
      be read, and the state in which UseCloud leaves the game. */
  datatype Answers = Answers(fieldFound: bool, staticReadable: bool, newString: Ref, useCloudFound: bool,
                             fieldsReadable: bool, afterUseCloud: World)

  datatype Entry = SceneGo | ConnectionControl | GameConnectTier | GameConnectSquad

  datatype Event =
    | UseCloud(settings: Ref, appId: Ref, region: int)
    | ReadBack(settings: Ref, appId: Ref, ready: bool)
    | Connect(entry: Entry, world: World)
    | Block(entry: Entry)

  /** The guard's own variables; a cached lookup stays cached. */
  datatype State = State(cloudReady: bool, applyCount: Word, missingLogged: bool, fieldCached: bool, useCloudCached: bool)

  const INITIAL := State(false, 0, false, false, false)

  // ---------------------------------------------------------------- the guard

  class Guard {
    const configuredId: string  // PHOTON_APP_ID
    var state: State
    var world: World
    ghost var events: seq<Event>

    constructor (configuredId: string, world: World)
      ensures this.configuredId == configuredId && this.world == world
      ensures state == INITIAL && events == []
    {
      this.configuredId, this.world := configuredId, world;
      state, events := INITIAL, [];
    }

    method CurrentSettings(a: Answers) returns (settings: Ref)
      modifies this`state
      ensures state == old(state).(fieldCached := old(state).fieldCached || a.fieldFound)
      ensures settings == if state.fieldCached && a.staticReadable then world.settings else 0
    {
      if !state.fieldCached {
        state := state.(fieldCached := a.fieldFound);
      }
      if !state.fieldCached || !a.staticReadable { return 0; }
      settings := world.settings;
    }

    method Read(obj: Ref, name: string, width: nat, a: Answers) returns (value: Option<nat>)
      requires width <= 8
      ensures value == if a.fieldsReadable then FieldValue(world, obj, name, width) else None
    {
      var present := a.fieldsReadable && obj in world.objects && name in world.objects[obj].fields;
      var bytes := ReadField(if present then Some(world.objects[obj].fields[name]) else None, width);
      value := if bytes.Some? then Some(LittleEndian(bytes.value)) else None;
    }

    method ForceCloud(reapply: bool, a: Answers) returns (ready: bool)
      modifies this
      ensures !reapply && old(state.cloudReady) ==> ready && unchanged(this)
      ensures reapply || !old(state.cloudReady) ==>
                var r := Forced(configuredId, old(state), old(world), a);
                && ready == r.ready && state == r.state && world == r.world
                && events == old(events) + r.events
    {
      if !reapply && state.cloudReady { return true; }
      if configuredId == "" {
        if !state.missingLogged {
          state := state.(missingLogged := true);
        }
        return false;
      }
      var settings := CurrentSettings(a);
      if settings == 0 { return false; }
      var appId := a.newString;
      if appId == 0 { return false; }
      if !state.useCloudCached {
        state := state.(useCloudCached := a.useCloudFound);
      }
      if !state.useCloudCached {
        state := state.(cloudReady := false);
        return false;
      }
      world := a.afterUseCloud;
      events := events + [UseCloud(settings, appId, FORCED_REGION_EU)];

      var host := Read(settings, "HostType", INT_WIDTH, a);
      var region := Read(settings, "PreferredRegion", INT_WIDTH, a);
      var stored := Read(settings, "AppID", POINTER_WIDTH, a);
      var storedSame := stored.Some? && stored.value == appId;
      var count := (state.applyCount + 1) % WRAP;
      ready := host.Some? && host.value == PHOTON_CLOUD_HOST
               && region.Some? && region.value == FORCED_REGION_EU && storedSame;
      state := state.(applyCount := count, cloudReady := ready);
      events := events + [ReadBack(settings, appId, ready)];
      assert events == old(events) + [UseCloud(settings, appId, FORCED_REGION_EU), ReadBack(settings, appId, ready)];
    }

    /** The four guarded connect hooks: the original runs only if the route was forced. Its effect on
        the game is a game step and happens after it is called. */
    method HookConnect(entry: Entry, a: Answers) returns (connected: bool)
      modifies this
      ensures var r := Forced(configuredId, old(state), old(world), a);
              && connected == r.ready && state == r.state && world == r.world
              && events == old(events) + r.events + [if r.ready then Connect(entry, r.world) else Block(entry)]
    {
      var ready := ForceCloud(true, a);
      if !ready {
        events := events + [Block(entry)];
        return false;
      }
      events := events + [Connect(entry, world)];
      return true;
    }
  }

  datatype Result = Result(ready: bool, state: State, world: World, events: seq<Event>)

  /** One forced application, declaratively: it is refused at the first missing piece, and otherwise its
      outcome is what the read-back of the object that was current before the call says after it. */
  function Forced(configuredId: string, s: State, world: World, a: Answers): Result {
    var found := s.fieldCached || a.fieldFound;
    var settings := if found && a.staticReadable then world.settings else 0;
    if configuredId == "" then Result(false, s.(missingLogged := true), world, [])
    else if settings == 0 || a.newString == 0 then Result(false, s.(fieldCached := found), world, [])
    else if !s.useCloudCached && !a.useCloudFound then
      Result(false, s.(fieldCached := found, cloudReady := false), world, [])
    else
      var ready := a.fieldsReadable && Routed(a.afterUseCloud, settings, a.newString);
      Result(ready, State(ready, (s.applyCount + 1) % WRAP, s.missingLogged, found, true), a.afterUseCloud,
             [UseCloud(settings, a.newString, FORCED_REGION_EU), ReadBack(settings, a.newString, ready)])
  }

  // ---------------------------------------------------------------- whole runs

  /** The game may change its state in any way; or it enters one of the guarded connects. */
  datatype Step = GameStep(world: World) | EnterConnect(entry: Entry, answers: Answers)

  datatype Run = Run(state: State, world: World, events: seq<Event>)

  function Apply(configuredId: string, run: Run, step: Step): Run {
    match step
    case GameStep(w) => run.(world := w)
    case EnterConnect(entry, a) =>
      var r := Forced(configuredId, run.state, run.world, a);
      Run(r.state, r.world, run.events + r.events + [if r.ready then Connect(entry, r.world) else Block(entry)])
  }

  function ApplyAll(configuredId: string, start: World, steps: seq<Step>): Run {
    if steps == [] then Run(INITIAL, start, [])
    else Apply(configuredId, ApplyAll(configuredId, start, steps[..|steps| - 1]), steps[|steps| - 1])
  }

  /** A connect at position i has, right before it, the SDK call and a successful read-back of the same
      object and AppID, and at that moment the object holds the forced route. */
  predicate Guarded(events: seq<Event>, i: nat) {
    && 2 <= i < |events| && events[i].Connect?
    && events[i - 1].ReadBack? && events[i - 1].ready
    && var settings, appId := events[i - 1].settings, events[i - 1].appId;
    && events[i - 2] == UseCloud(settings, appId, FORCED_REGION_EU)
    && settings != 0 && appId != 0
    && Routed(events[i].world, settings, appId)
  }

  ghost predicate AllGuarded(events: seq<Event>) {
    forall i :: 0 <= i < |events| && events[i].Connect? ==> Guarded(events, i)
  }

  lemma GuardedExtends(events: seq<Event>, more: seq<Event>)
    requires AllGuarded(events)
    requires forall i :: 0 <= i < |more| && more[i].Connect? ==> Guarded(more, i)
    ensures AllGuarded(events + more)
  {
  }

  /** In every run, with any game steps and any effect of the SDK, every original connect is guarded. */
  lemma {:induction false} EveryConnectIsGuarded(configuredId: string, start: World, steps: seq<Step>)
    ensures AllGuarded(ApplyAll(configuredId, start, steps).events)
  {
    if steps != [] {
      var before, last := ApplyAll(configuredId, start, steps[..|steps| - 1]), steps[|steps| - 1];
      EveryConnectIsGuarded(configuredId, start, steps[..|steps| - 1]);
      if last.EnterConnect? {
        var r := Forced(configuredId, before.state, before.world, last.answers);
        var more := r.events + [if r.ready then Connect(last.entry, r.world) else Block(last.entry)];
        GuardedExtends(before.events, more);
        assert before.events + r.events + [if r.ready then Connect(last.entry, r.world) else Block(last.entry)]
            == before.events + more;
      }
    }
  }

  /** An entry gets as far as reading the fields back. */
  predicate Admitted(configuredId: string, s: State, world: World, a: Answers) {
    && configuredId != ""
    && (s.fieldCached || a.fieldFound) && a.staticReadable && world.settings != 0
    && a.newString != 0
    && (s.useCloudCached || a.useCloudFound)
    && a.fieldsReadable
  }

  /** When an entry is let through: everything is there and the SDK call took effect. */
  predicate LetThrough(configuredId: string, s: State, world: World, a: Answers) {
    Admitted(configuredId, s, world, a) && Routed(a.afterUseCloud, world.settings, a.newString)
  }

  lemma ConnectsIff(configuredId: string, run: Run, entry: Entry, a: Answers)
    ensures var next := Apply(configuredId, run, EnterConnect(entry, a));
            && |next.events| > |run.events|
            && (next.events[|next.events| - 1] == Connect(entry, a.afterUseCloud)
                <==> LetThrough(configuredId, run.state, run.world, a))
            && (next.events[|next.events| - 1] == Block(entry) <==> !LetThrough(configuredId, run.state, run.world, a))
  {
  }

  /** Fail-closed: without a configured AppID, or while UseCloud can never be found, no run connects. */
  lemma {:induction false} NothingConnectsWithout(configuredId: string, start: World, steps: seq<Step>)
    requires configuredId == ""
             || forall i :: 0 <= i < |steps| && steps[i].EnterConnect? ==> !steps[i].answers.useCloudFound
    ensures var run := ApplyAll(configuredId, start, steps);
            (forall e :: e in run.events ==> e.Block?) && !run.state.useCloudCached && !run.state.cloudReady
  {
    if steps != [] {
      var front := steps[..|steps| - 1];
      forall i | 0 <= i < |front| && front[i].EnterConnect? ensures configuredId == "" || !front[i].answers.useCloudFound {
        assert front[i] == steps[i];
      }
      NothingConnectsWithout(configuredId, start, front);
    }
  }

  // ---------------------------------------------------------------- what the ready flag says

  /** The application returns false before it looks UseCloud up: no AppID, no settings object, or no
      string. */
  predicate EndsEarly(configuredId: string, s: State, world: World, a: Answers) {
    || configuredId == ""
    || !((s.fieldCached || a.fieldFound) && a.staticReadable) || world.settings == 0
    || a.newString == 0
  }

  /** Step k is the last one that decided the flag, and it decided for ready: an entry that was let
      through, after which every entry ended early. */
  ghost predicate LastDecided(configuredId: string, start: World, steps: seq<Step>, k: nat) {
    && k < |steps| && steps[k].EnterConnect?
    && (var run := ApplyAll(configuredId, start, steps[..k]);
        LetThrough(configuredId, run.state, run.world, steps[k].answers))
    && forall j :: k < j < |steps| && steps[j].EnterConnect? ==>
         var run := ApplyAll(configuredId, start, steps[..j]);
         EndsEarly(configuredId, run.state, run.world, steps[j].answers)
  }

  lemma DecidedBefore(configuredId: string, start: World, front: seq<Step>, last: Step, k: nat)
    requires k < |front|
    ensures var before := ApplyAll(configuredId, start, front);
            LastDecided(configuredId, start, front + [last], k)
            <==> LastDecided(configuredId, start, front, k)
                 && (last.EnterConnect? ==> EndsEarly(configuredId, before.state, before.world, last.answers))
  {
    var steps := front + [last];
    assert forall j :: 0 <= j <= |front| ==> steps[..j] == front[..j];
    assert front[..|front|] == front && steps[|front|] == last;
    assert forall j :: 0 <= j < |front| ==> steps[j] == front[j];
  }

  /** In every run the flag is set if and only if some entry was let through and every later one ended
      early; what the game did to its settings since then does not matter. */
  lemma {:induction false} FlagIsLastOutcome(configuredId: string, start: World, steps: seq<Step>)
    ensures ApplyAll(configuredId, start, steps).state.cloudReady
            <==> exists k: nat :: LastDecided(configuredId, start, steps, k)
  {
    if steps != [] {
      var n := |steps| - 1;
      var front, last := steps[..n], steps[n];
      var before := ApplyAll(configuredId, start, front);
      FlagIsLastOutcome(configuredId, start, front);
      assert steps == front + [last];
      forall k: nat | k < n
        ensures LastDecided(configuredId, start, steps, k)
                <==> LastDecided(configuredId, start, front, k)
                     && (last.EnterConnect? ==> EndsEarly(configuredId, before.state, before.world, last.answers))
      {
        DecidedBefore(configuredId, start, front, last, k);
      }
      assert LastDecided(configuredId, start, steps, n)
        <==> last.EnterConnect? && LetThrough(configuredId, before.state, before.world, last.answers);
      assert forall k: nat :: LastDecided(configuredId, start, steps, k) ==> k <= n;
    }
  }

  /** The game since step k: what its UseCloud left, or what the last game step after it left. */
  function WorldSince(steps: seq<Step>, k: nat): World
    requires k < |steps| && steps[k].EnterConnect?
  {
    var last := steps[|steps| - 1];
    if |steps| == k + 1 then steps[k].answers.afterUseCloud
    else if last.GameStep? then last.world
    else WorldSince(steps[..|steps| - 1], k)
  }

  /** The game that the flag leaves behind: nothing but UseCloud and the game itself changes it. */
  lemma {:induction false} FlagLeaves(configuredId: string, start: World, steps: seq<Step>, k: nat)
    requires LastDecided(configuredId, start, steps, k)
    ensures ApplyAll(configuredId, start, steps).world == WorldSince(steps, k)
    decreases |steps|
  {
    var n := |steps| - 1;
    var front, last := steps[..n], steps[n];
    assert steps == front + [last];
    if k < n {
      DecidedBefore(configuredId, start, front, last, k);
      FlagLeaves(configuredId, start, front, k);
    }
  }

  /** An entry is blocked while the flag says ready if and only if the flag was set before and the
      application ended early. */
  lemma BlockedButReadyIff(configuredId: string, run: Run, entry: Entry, a: Answers)
    ensures var next := Apply(configuredId, run, EnterConnect(entry, a));
            && next.events != []
            && (next.events[|next.events| - 1] == Block(entry) && next.state.cloudReady
                <==> run.state.cloudReady && EndsEarly(configuredId, run.state, run.world, a))
  {
  }

  function RoutedObject(appId: Ref): Object {
    Object(map["HostType" := [1], "PreferredRegion" := [0], "AppID" := Bytes4(appId)])
  }

  function Bytes4(n: Word): FieldBytes {
    [n % 0x100, n / 0x100 % 0x100, n / 0x1_0000 % 0x100, n / 0x100_0000]
  }

  lemma FourDigits(n: Word)
    ensures n == n % 0x100 + 0x100 * (n / 0x100 % 0x100 + 0x100 * (n / 0x1_0000 % 0x100 + 0x100 * (n / 0x100_0000)))
  {
  }

  lemma FourBytes(n: Word)
    ensures LittleEndian(Bytes4(n)) == n
  {
    var b := Bytes4(n);
    LittleEndianConcat([b[0]], [b[1], b[2], b[3]]);
    LittleEndianConcat([b[1]], [b[2], b[3]]);
    LittleEndianConcat([b[2]], [b[3]]);
    assert b == [b[0]] + [b[1], b[2], b[3]] && [b[1], b[2], b[3]] == [b[1]] + [b[2], b[3]];
    assert [b[2], b[3]] == [b[2]] + [b[3]];
    assert Range(1) == 0x100;
    FourDigits(n);
  }

  lemma RoutedObjectIsRouted(settings: Ref, appId: Ref)
    ensures Routed(World(map[settings := RoutedObject(appId)], settings), settings, appId)
  {
    assert Range(1) == 0x100 && Range(2) == 0x1_0000 && Range(3) == 0x100_0000 && Range(4) == 0x1_0000_0000;
    FourBytes(appId);
    assert [1][1..] == [] && [0][1..] == [];
    assert LittleEndian([1]) == 1 && LittleEndian([0]) == 0;
  }

  // ---------------------------------------------------------------- what the references alone decide

  /** Two steps with the same references and answers; what the objects contain may differ. */
  predicate SameStep(x: Step, y: Step) {
    match x
    case GameStep(w) => y.GameStep? && y.world.settings == w.settings
    case EnterConnect(entry, a) =>
      && y.EnterConnect?
      && var left := World(y.answers.afterUseCloud.objects, a.afterUseCloud.settings);
      y == EnterConnect(entry, a.(afterUseCloud := left))
  }

  ghost predicate SameReferences(start: World, steps: seq<Step>, start': World, steps': seq<Step>) {
    && start.settings == start'.settings && |steps| == |steps'|
    && forall k :: 0 <= k < |steps| ==> SameStep(steps[k], steps'[k])
  }

  /** Which references are current and which lookups are cached does not depend on what objects contain. */
  lemma {:induction false} ReferencesDecide(configuredId: string, start: World, steps: seq<Step>, start': World,
                                            steps': seq<Step>)
    requires SameReferences(start, steps, start', steps')
    ensures var run, run' := ApplyAll(configuredId, start, steps), ApplyAll(configuredId, start', steps');
            && run.world.settings == run'.world.settings
            && run.state.fieldCached == run'.state.fieldCached && run.state.useCloudCached == run'.state.useCloudCached
  {
    if steps != [] {
      var n := |steps| - 1;
      assert SameStep(steps[n], steps'[n]);
      ReferencesDecide(configuredId, start, steps[..n], start', steps'[..n]);
      SameApply(configuredId, ApplyAll(configuredId, start, steps[..n]), ApplyAll(configuredId, start', steps'[..n]),
                steps[n], steps'[n]);
    }
  }

  lemma SameForced(configuredId: string, s: State, s': State, world: World, world': World, a: Answers, a': Answers)
    requires s.fieldCached == s'.fieldCached && s.useCloudCached == s'.useCloudCached && world.settings == world'.settings
    requires a' == a.(afterUseCloud := World(a'.afterUseCloud.objects, a.afterUseCloud.settings))
    ensures var r, r' := Forced(configuredId, s, world, a), Forced(configuredId, s', world', a');
            && r.world.settings == r'.world.settings
            && r.state.fieldCached == r'.state.fieldCached && r.state.useCloudCached == r'.state.useCloudCached
  {
  }

  lemma SameApply(configuredId: string, run: Run, run': Run, x: Step, y: Step)
    requires SameStep(x, y) && run.world.settings == run'.world.settings
    requires run.state.fieldCached == run'.state.fieldCached && run.state.useCloudCached == run'.state.useCloudCached
    ensures var next, next' := Apply(configuredId, run, x), Apply(configuredId, run', y);
            && next.world.settings == next'.world.settings
            && next.state.fieldCached == next'.state.fieldCached && next.state.useCloudCached == next'.state.useCloudCached
  {
    if x.EnterConnect? {
      SameForced(configuredId, run.state, run'.state, run.world, run'.world, x.answers, y.answers);
    }
  }

  lemma SamePrefix(start: World, steps: seq<Step>, start': World, steps': seq<Step>, k: nat)
    requires SameReferences(start, steps, start', steps') && k <= |steps|
    ensures SameReferences(start, steps[..k], start', steps'[..k])
  {
  }

  lemma SameAt(configuredId: string, start: World, steps: seq<Step>, start': World, steps': seq<Step>, k: nat)
    requires SameReferences(start, steps, start', steps') && k < |steps| && steps[k].EnterConnect?
    ensures steps'[k].EnterConnect?
    ensures var run, a := ApplyAll(configuredId, start, steps[..k]), steps[k].answers;
            var run', a' := ApplyAll(configuredId, start', steps'[..k]), steps'[k].answers;
            && run'.world.settings == run.world.settings
            && a'.newString == a.newString && a'.afterUseCloud.settings == a.afterUseCloud.settings
            && (Admitted(configuredId, run'.state, run'.world, a') <==> Admitted(configuredId, run.state, run.world, a))
            && (EndsEarly(configuredId, run'.state, run'.world, a') <==> EndsEarly(configuredId, run.state, run.world, a))
  {
    assert SameStep(steps[k], steps'[k]);
    SamePrefix(start, steps, start', steps', k);
    ReferencesDecide(configuredId, start, steps[..k], start', steps'[..k]);
  }

  /** An entry that gets as far as the read-back leaves the settings reference as it was. */
  predicate KeepsReference(configuredId: string, start: World, steps: seq<Step>, k: nat)
    requires k < |steps|
  {
    steps[k].EnterConnect? ==>
      var run, a := ApplyAll(configuredId, start, steps[..k]), steps[k].answers;
      Admitted(configuredId, run.state, run.world, a) ==> a.afterUseCloud.settings == run.world.settings
  }

  /** The game in which only this object holds the route, with these settings current. */
  function OnlyRouted(obj: Ref, appId: Ref, settings: Ref): World { World(map[obj := RoutedObject(appId)], settings) }

  lemma OnlyRoutedIs(obj: Ref, appId: Ref, settings: Ref)
    ensures Routed(OnlyRouted(obj, appId, settings), obj, appId)
    ensures settings != obj ==> !Routed(OnlyRouted(obj, appId, settings), settings, appId)
  {
    RoutedObjectIsRouted(obj, appId);
  }

  /** The steps with the entry at k read back from an object that holds the route, and no other object. */
  function ReadBackRouted(steps: seq<Step>, k: nat, obj: Ref): seq<Step>
    requires k < |steps| && steps[k].EnterConnect?
  {
    var a := steps[k].answers;
    steps[k := EnterConnect(steps[k].entry, a.(afterUseCloud := OnlyRouted(obj, a.newString, a.afterUseCloud.settings)))]
  }

  lemma ReadBackRoutedSame(start: World, steps: seq<Step>, k: nat, obj: Ref)
    requires k < |steps| && steps[k].EnterConnect?
    ensures SameReferences(start, steps, start, ReadBackRouted(steps, k, obj))
    ensures ReadBackRouted(steps, k, obj)[..k] == steps[..k]
  {
  }

  /** One entry that is let through from a game that holds the route already. */
  lemma EnterRouted(configuredId: string, settings: Ref, appId: Ref, after: World)
    requires configuredId != "" && settings != 0 && appId != 0 && Routed(after, settings, appId)
    ensures var start := World(map[settings := RoutedObject(appId)], settings);
            var enter := EnterConnect(SceneGo, Answers(true, true, appId, true, true, after));
            ApplyAll(configuredId, start, [enter])
            == Run(State(true, 1, false, true, true), after,
                   [UseCloud(settings, appId, FORCED_REGION_EU), ReadBack(settings, appId, true),
                    Connect(SceneGo, after)])
  {
  }

  /** Two such runs, for every configured ID: the game drops the route after the entry, and the flag
      stays; and the next entry is blocked because no string can be made, and the flag stays. */
  lemma FlagCanBeStale(configuredId: string, settings: Ref, appId: Ref)
    requires configuredId != "" && settings != 0 && appId != 0
    ensures var good := World(map[settings := RoutedObject(appId)], settings);
            var bad := World(map[settings := Object(map[])], settings);
            var enter := EnterConnect(SceneGo, Answers(true, true, appId, true, true, good));
            var refused := EnterConnect(SceneGo, Answers(true, true, 0, true, true, good));
            var dropped := ApplyAll(configuredId, good, [enter, GameStep(bad)]);
            var blocked := ApplyAll(configuredId, good, [enter, refused]);
            && dropped.state.cloudReady && !Routed(dropped.world, dropped.world.settings, appId)
            && blocked.state.cloudReady && blocked.events != [] && blocked.events[|blocked.events| - 1] == Block(SceneGo)
  {
    var good := World(map[settings := RoutedObject(appId)], settings);
    var bad := World(map[settings := Object(map[])], settings);
    RoutedObjectIsRouted(settings, appId);
    EnterRouted(configuredId, settings, appId, good);
    var enter := EnterConnect(SceneGo, Answers(true, true, appId, true, true, good));
    var refused := EnterConnect(SceneGo, Answers(true, true, 0, true, true, good));
    assert [enter, GameStep(bad)][..1] == [enter] == [enter, refused][..1];
    BlockedButReadyIff(configuredId, ApplyAll(configuredId, good, [enter]), SceneGo, refused.answers);
  }

  lemma SameDecided(configuredId: string, start: World, steps: seq<Step>, start': World, steps': seq<Step>, k: nat)
    requires LastDecided(configuredId, start, steps, k) && SameReferences(start, steps, start', steps')
    ensures var run := ApplyAll(configuredId, start', steps'[..k]);
            && steps'[k].EnterConnect? && run.world.settings == ApplyAll(configuredId, start, steps[..k]).world.settings
            && (Routed(steps'[k].answers.afterUseCloud, run.world.settings, steps'[k].answers.newString)
                <==> LastDecided(configuredId, start', steps', k))
  {
    SameAt(configuredId, start, steps, start', steps', k);
    forall j | k < j < |steps'| && steps'[j].EnterConnect?
      ensures var run := ApplyAll(configuredId, start', steps'[..j]);
              EndsEarly(configuredId, run.state, run.world, steps'[j].answers)
    {
      assert SameStep(steps[j], steps'[j]);
      SameAt(configuredId, start, steps, start', steps', j);
    }
  }

  /** The steps with every game step after k emptied of objects. */
  function Emptied(steps: seq<Step>, k: nat): (r: seq<Step>)
    ensures |r| == |steps|
  {
    seq(|steps|, j requires 0 <= j < |steps| =>
      if j > k && steps[j].GameStep? then GameStep(World(map[], steps[j].world.settings)) else steps[j])
  }

  lemma {:induction false} EmptySince(steps: seq<Step>, k: nat, j: nat)
    requires k < j < |steps| && steps[k].EnterConnect? && steps[j].GameStep?
    requires forall i :: k < i < |steps| && steps[i].GameStep? ==> steps[i].world.objects == map[]
    ensures WorldSince(steps, k).objects == map[]
    decreases |steps|
  {
    var n := |steps| - 1;
    if j < n {
      EmptySince(steps[..n], k, j);
    }
  }

  lemma {:induction false} NoGameStepSince(steps: seq<Step>, k: nat)
    requires k < |steps| && forall j :: k <= j < |steps| ==> steps[j].EnterConnect?
    ensures WorldSince(steps, k) == steps[k].answers.afterUseCloud
    decreases |steps|
  {
    var n := |steps| - 1;
    if k < n {
      NoGameStepSince(steps[..n], k);
    }
  }

  /** The flag was decided by step k and is true of the present settings. */
  ghost predicate TrueNow(configuredId: string, start: World, steps: seq<Step>, k: nat)
    requires k < |steps| && steps[k].EnterConnect?
  {
    var now := ApplyAll(configuredId, start, steps).world;
    Routed(now, now.settings, steps[k].answers.newString)
  }

  lemma GameStepDrops(configuredId: string, start: World, steps: seq<Step>, k: nat, j: nat)
    requires LastDecided(configuredId, start, steps, k) && k < j < |steps| && steps[j].GameStep?
    ensures var steps' := Emptied(steps, k);
            && SameReferences(start, steps, start, steps') && LastDecided(configuredId, start, steps', k)
            && !TrueNow(configuredId, start, steps', k)
  {
    var steps' := Emptied(steps, k);
    assert steps'[..k] == steps[..k] && steps'[k] == steps[k];
    SameDecided(configuredId, start, steps, start, steps', k);
    FlagLeaves(configuredId, start, steps', k);
    EmptySince(steps', k, j);
  }

  lemma ReplacementDrops(configuredId: string, start: World, steps: seq<Step>, k: nat)
    requires LastDecided(configuredId, start, steps, k) && forall j :: k <= j < |steps| ==> steps[j].EnterConnect?
    requires !KeepsReference(configuredId, start, steps, k)
    ensures var steps' := ReadBackRouted(steps, k, ApplyAll(configuredId, start, steps[..k]).world.settings);
            && SameReferences(start, steps, start, steps') && LastDecided(configuredId, start, steps', k)
            && !TrueNow(configuredId, start, steps', k)
  {
    var entered, a := ApplyAll(configuredId, start, steps[..k]).world.settings, steps[k].answers;
    var steps' := ReadBackRouted(steps, k, entered);
    ReadBackRoutedSame(start, steps, k, entered);
    OnlyRoutedIs(entered, a.newString, a.afterUseCloud.settings);
    SameDecided(configuredId, start, steps, start, steps', k);
    FlagLeaves(configuredId, start, steps', k);
    NoGameStepSince(steps', k);
  }

  lemma KeptStaysTrue(configuredId: string, start: World, steps: seq<Step>, start': World, steps': seq<Step>, k: nat)
    requires LastDecided(configuredId, start, steps, k) && forall j :: k <= j < |steps| ==> steps[j].EnterConnect?
    requires KeepsReference(configuredId, start, steps, k)
    requires SameReferences(start, steps, start', steps') && LastDecided(configuredId, start', steps', k)
    ensures TrueNow(configuredId, start', steps', k)
  {
    SameAt(configuredId, start, steps, start', steps', k);
    FlagLeaves(configuredId, start', steps', k);
    assert forall j :: k <= j < |steps| ==> SameStep(steps[j], steps'[j]);
    NoGameStepSince(steps', k);
  }

  /** When the ready flag speaks of the present. For the references of any run in which step k set it for
      the last time: the flag is true of the present settings, whatever the objects contain, if and only if
      the SDK call of that step kept the settings reference and the game has not moved since. */
  lemma FlagSpeaksOf(configuredId: string, start: World, steps: seq<Step>, k: nat)
    requires LastDecided(configuredId, start, steps, k)
    ensures (forall start', steps' ::
               SameReferences(start, steps, start', steps') && LastDecided(configuredId, start', steps', k) ==>
                 TrueNow(configuredId, start', steps', k))
            <==> KeepsReference(configuredId, start, steps, k) && forall j :: k < j < |steps| ==> steps[j].EnterConnect?
  {
    if j :| k < j < |steps| && steps[j].GameStep? {
      GameStepDrops(configuredId, start, steps, k, j);
    } else if !KeepsReference(configuredId, start, steps, k) {
      ReplacementDrops(configuredId, start, steps, k);
    } else {
      forall start', steps' | SameReferences(start, steps, start', steps') && LastDecided(configuredId, start', steps', k)
        ensures TrueNow(configuredId, start', steps', k)
      {
        KeptStaysTrue(configuredId, start, steps, start', steps', k);
      }
    }
  }

  // ---------------------------------------------------------------- from which settings a connect starts

  /** The connect at position i starts from settings that hold the forced route, with the AppID that was
      read back for it. */
  predicate StartsRouted(events: seq<Event>, i: nat) {
    && 1 <= i < |events| && events[i].Connect? && events[i - 1].ReadBack?
    && Routed(events[i].world, events[i].world.settings, events[i - 1].appId)
  }

  ghost predicate AllStartRouted(events: seq<Event>) {
    forall i :: 0 <= i < |events| && events[i].Connect? ==> StartsRouted(events, i)
  }

  /** After its SDK call the current settings hold the route. */
  predicate LeavesRouted(a: Answers) { Routed(a.afterUseCloud, a.afterUseCloud.settings, a.newString) }

  ghost predicate AllLeaveRouted(configuredId: string, start: World, steps: seq<Step>) {
    forall k :: 0 <= k < |steps| && steps[k].EnterConnect? ==>
      var run := ApplyAll(configuredId, start, steps[..k]);
      LetThrough(configuredId, run.state, run.world, steps[k].answers) ==> LeavesRouted(steps[k].answers)
  }

  lemma AllStartRoutedSplits(events: seq<Event>, more: seq<Event>)
    requires more != [] ==> !more[0].Connect?
    ensures AllStartRouted(events + more) <==> AllStartRouted(events) && AllStartRouted(more)
  {
    var all := events + more;
    assert forall i :: 0 <= i < |events| ==> all[i] == events[i];
    assert forall i :: 0 <= i < |more| ==> all[|events| + i] == more[i];
    forall i | 0 < i < |more| ensures StartsRouted(all, |events| + i) <==> StartsRouted(more, i) {
      assert all[|events| + i - 1] == more[i - 1];
    }
  }

  /** One entry: what it connects from is what its SDK call left. */
  lemma StepStartsRouted(configuredId: string, run: Run, entry: Entry, a: Answers, more: seq<Event>)
    requires var r := Forced(configuredId, run.state, run.world, a);
             more == r.events + [if r.ready then Connect(entry, r.world) else Block(entry)]
    ensures more != [] && !more[0].Connect?
    ensures AllStartRouted(more)
            <==> (LetThrough(configuredId, run.state, run.world, a) ==> LeavesRouted(a))
  {
    if LetThrough(configuredId, run.state, run.world, a) {
      assert StartsRouted(more, 2) <==> LeavesRouted(a);
    }
  }

  lemma LeaveRoutedSplits(configuredId: string, start: World, front: seq<Step>, last: Step)
    ensures var before := ApplyAll(configuredId, start, front);
            AllLeaveRouted(configuredId, start, front + [last])
            <==> AllLeaveRouted(configuredId, start, front)
                 && (last.EnterConnect? && LetThrough(configuredId, before.state, before.world, last.answers) ==>
                       LeavesRouted(last.answers))
  {
    var steps := front + [last];
    assert steps[..|front|] == front && steps[|front|] == last;
    assert forall k :: 0 <= k < |front| ==> front[k] == steps[k] && front[..k] == steps[..k];
  }

  lemma OneMoreStep(configuredId: string, start: World, front: seq<Step>, last: Step)
    ensures ApplyAll(configuredId, start, front + [last]) == Apply(configuredId, ApplyAll(configuredId, start, front), last)
  {
    var steps := front + [last];
    assert steps[..|steps| - 1] == front;
  }

  lemma StepConnects(configuredId: string, before: Run, last: Step)
    ensures AllStartRouted(Apply(configuredId, before, last).events)
            <==> AllStartRouted(before.events)
                 && (last.EnterConnect? && LetThrough(configuredId, before.state, before.world, last.answers) ==>
                       LeavesRouted(last.answers))
  {
    if last.EnterConnect? {
      var r := Forced(configuredId, before.state, before.world, last.answers);
      var more := r.events + [if r.ready then Connect(last.entry, r.world) else Block(last.entry)];
      StepStartsRouted(configuredId, before, last.entry, last.answers, more);
      AllStartRoutedSplits(before.events, more);
      assert Apply(configuredId, before, last).events == before.events + more;
    }
  }

  lemma {:induction false} ConnectsFromWhatIsLeft(configuredId: string, start: World, steps: seq<Step>)
    ensures AllStartRouted(ApplyAll(configuredId, start, steps).events) <==> AllLeaveRouted(configuredId, start, steps)
  {
    if steps != [] {
      var front, last := steps[..|steps| - 1], steps[|steps| - 1];
      assert steps == front + [last];
      ConnectsFromWhatIsLeft(configuredId, start, front);
      OneMoreStep(configuredId, start, front, last);
      StepConnects(configuredId, ApplyAll(configuredId, start, front), last);
      LeaveRoutedSplits(configuredId, start, front, last);
    }
  }

  lemma KeptIsRouted(configuredId: string, start: World, steps: seq<Step>, start': World, steps': seq<Step>)
    requires SameReferences(start, steps, start', steps')
    requires forall k :: 0 <= k < |steps| ==> KeepsReference(configuredId, start, steps, k)
    ensures AllLeaveRouted(configuredId, start', steps')
  {
    forall k | 0 <= k < |steps'| && steps'[k].EnterConnect?
      ensures var run := ApplyAll(configuredId, start', steps'[..k]);
              LetThrough(configuredId, run.state, run.world, steps'[k].answers) ==> LeavesRouted(steps'[k].answers)
    {
      assert SameStep(steps[k], steps'[k]) && KeepsReference(configuredId, start, steps, k);
      SameAt(configuredId, start, steps, start', steps', k);
    }
  }

  lemma ReplacedIsNotRouted(configuredId: string, start: World, steps: seq<Step>, k: nat)
    requires k < |steps| && !KeepsReference(configuredId, start, steps, k)
    ensures exists steps' :: SameReferences(start, steps, start, steps') && !AllLeaveRouted(configuredId, start, steps')
  {
    var run, a := ApplyAll(configuredId, start, steps[..k]), steps[k].answers;
    var steps' := ReadBackRouted(steps, k, run.world.settings);
    ReadBackRoutedSame(start, steps, k, run.world.settings);
    OnlyRoutedIs(run.world.settings, a.newString, a.afterUseCloud.settings);
    assert LetThrough(configuredId, run.state, run.world, steps'[k].answers) && !LeavesRouted(steps'[k].answers);
    assert !AllLeaveRouted(configuredId, start, steps');
  }

  /** For the references of any run: all original connects start from settings that hold the forced route,
      whatever the objects contain, if and only if no SDK call that is read back moves the settings
      reference to another object. */
  lemma ConnectStartsRouted(configuredId: string, start: World, steps: seq<Step>)
    ensures (forall start', steps' :: SameReferences(start, steps, start', steps') ==>
               AllStartRouted(ApplyAll(configuredId, start', steps').events))
            <==> forall k :: 0 <= k < |steps| ==> KeepsReference(configuredId, start, steps, k)
  {
    forall start', steps' | SameReferences(start, steps, start', steps')
      ensures AllStartRouted(ApplyAll(configuredId, start', steps').events)
              <==> AllLeaveRouted(configuredId, start', steps')
    {
      ConnectsFromWhatIsLeft(configuredId, start', steps');
    }
    if forall k :: 0 <= k < |steps| ==> KeepsReference(configuredId, start, steps, k) {
      forall start', steps' | SameReferences(start, steps, start', steps')
        ensures AllLeaveRouted(configuredId, start', steps')
      {
        KeptIsRouted(configuredId, start, steps, start', steps');
      }
    } else {
      var k :| 0 <= k < |steps| && !KeepsReference(configuredId, start, steps, k);
      ReplacedIsNotRouted(configuredId, start, steps, k);
    }
  }

  /** One such run: the SDK call makes another object current, and the original connect runs all the same. */
  lemma ReplacedSettingsConnect(configuredId: string, settings: Ref, other: Ref, appId: Ref)
    requires configuredId != "" && settings != 0 && other != 0 && other != settings && appId != 0
    ensures exists start, steps ::
              var run := ApplyAll(configuredId, start, steps);
              && start.settings == settings && run.world.settings == other
              && run.events != [] && run.events[|run.events| - 1].Connect?
              && !Routed(run.world, other, appId)
  {
    var start := World(map[settings := RoutedObject(appId)], settings);
    var after := World(map[settings := RoutedObject(appId), other := Object(map[])], other);
    RoutedObjectIsRouted(settings, appId);
    assert Routed(after, settings, appId);
    EnterRouted(configuredId, settings, appId, after);
    var enter := EnterConnect(SceneGo, Answers(true, true, appId, true, true, after));
    var run := ApplyAll(configuredId, start, [enter]);
    assert run.events != [] && run.events[|run.events| - 1].Connect? && !Routed(run.world, run.world.settings, appId);
  }

  // ---------------------------------------------------------------- when an entry connects, in bytes

  /** The bytes of a field of an object, read as a 32-bit number. */
  predicate FieldIs(world: World, obj: Ref, name: string, value: nat) {
    && obj in world.objects && name in world.objects[obj].fields
    && LittleEndian(world.objects[obj].fields[name]) % 0x1_0000_0000 == value
  }

  /** An original connect runs exactly when an AppID is configured, the settings object, the string and
      UseCloud are there, and after the SDK call the same object reads back as host 1, region 0 and this
      very string; otherwise the entry is blocked. The SDK is called with region 0 whenever those pieces
      are there, and the call is counted. */
  lemma ConnectsExactly(configuredId: string, run: Run, entry: Entry, a: Answers)
    ensures var next, settings := Apply(configuredId, run, EnterConnect(entry, a)), run.world.settings;
            var called := && configuredId != "" && (run.state.fieldCached || a.fieldFound) && a.staticReadable
                          && settings != 0 && a.newString != 0 && (run.state.useCloudCached || a.useCloudFound);
            var connects := && called && a.fieldsReadable
                            && FieldIs(a.afterUseCloud, settings, "HostType", 1)
                            && FieldIs(a.afterUseCloud, settings, "PreferredRegion", 0)
                            && FieldIs(a.afterUseCloud, settings, "AppID", a.newString);
            && next.events == run.events
                 + (if called then [UseCloud(settings, a.newString, 0), ReadBack(settings, a.newString, connects)] else [])
                 + [if connects then Connect(entry, a.afterUseCloud) else Block(entry)]
            && next.state.applyCount == (if called then (run.state.applyCount + 1) % 0x1_0000_0000 else run.state.applyCount)
            && next.world == if called then a.afterUseCloud else run.world
  {
    assert Range(4) == 0x1_0000_0000 by { FourBytesMean(0, 0, 0, 0); }
  }
}
