/** The trace hook of ServerSettings.UseCloud(appId, region) in photon_hooks.cpp: it logs, calls what its
    slot holds with the arguments it was given, and logs again.

    The original is foreign: `effect` gives the game after the original code of an address has run, and
    may do anything. A reference that is no string reads as null. */
module TraceHooks {
  import opened Wrappers
  import FieldReader
  import opened Numerals
  import opened Transcoder
  import opened Fingerprint
  import opened HookInstaller
  import HookTables
  import CloudGuard

  type Ref = CloudGuard.Ref
  type Text = m: ManagedString | Readable(m) witness ManagedString(0, None)

  /** The objects, the settings reference and the strings of the game. */
  datatype Game = Game(world: CloudGuard.World, strings: map<Ref, Text>)

  /** The arguments of one call. */
  datatype Call = Call(self: Ref, appId: Ref, region: int)

  /** Which exports are bound: il2cpp_string_length, il2cpp_string_chars and those that read fields. */
  datatype Api = Api(lengthBound: bool, charsBound: bool, fieldsReadable: bool)

  /** What the hook writes to the log. Fields are the words read, before any sign. */
  datatype Line =
    | UseCloudLine(requested: int, app: string)
    | NoSettings(point: string)
    | Settings(point: string, host: nat, protocol: nat, server: seq<Byte>, port: nat, app: string, region: nat,
               regions: nat, joinLobby: nat, lobbyStats: nat)

  const MINUS_ONE := 0xFFFF_FFFF
  const AFTER := "UseCloud(region)/end"

  function StringAt(game: Game, reference: nat): Option<Text> {
    if reference in game.strings then Some(game.strings[reference]) else None
  }

  // ---------------------------------------------------------------- what the log shows

  function Secret(value: Option<Text>, api: Api): string {
    if value.None? then "<null>"
    else
      var text := ManagedText(value.value, api.lengthBound && api.charsBound, 256);
      Printed(Summary(if api.lengthBound then value.value.length else -1, |text|, Fnv(text)), SUMMARY_BUFFER)
  }

  function Server(value: Option<Text>, api: Api): seq<Byte> {
    if value.None? then NULL_STRING else ManagedText(value.value, api.lengthBound && api.charsBound, 256)
  }

  /** A field of the object, or what the variable held before when it cannot be read. */
  function FieldOr(game: Game, api: Api, obj: Ref, name: string, width: nat, default: nat): nat
    requires width <= 8
  {
    var v := CloudGuard.FieldValue(game.world, obj, name, width);
    if api.fieldsReadable && v.Some? then v.value else default
  }

  function SettingsLine(game: Game, api: Api, point: string, settings: Ref): Line {
    if settings == 0 then NoSettings(point)
    else
      Settings(point,
               FieldOr(game, api, settings, "HostType", 4, MINUS_ONE),
               FieldOr(game, api, settings, "Protocol", 4, MINUS_ONE),
               Server(StringAt(game, FieldOr(game, api, settings, "ServerAddress", 4, 0)), api),
               FieldOr(game, api, settings, "ServerPort", 4, MINUS_ONE),
               Secret(StringAt(game, FieldOr(game, api, settings, "AppID", 4, 0)), api),
               FieldOr(game, api, settings, "PreferredRegion", 4, MINUS_ONE),
               FieldOr(game, api, settings, "EnabledRegions", 4, MINUS_ONE),
               FieldOr(game, api, settings, "JoinLobby", 1, 0),
               FieldOr(game, api, settings, "EnableLobbyStatistics", 1, 0))
  }

  // ---------------------------------------------------------------- the hook

  class Tracer {
    const api: Api
    const hooks: State
    const effect: (Pointer, Call, Game) -> Game
    var game: Game
    var log: seq<Line>

    constructor (api: Api, hooks: State, effect: (Pointer, Call, Game) -> Game, game: Game)
      ensures this.api == api && this.hooks == hooks && this.effect == effect && this.game == game && log == []
    {
      this.api, this.hooks, this.effect, this.game, log := api, hooks, effect, game, [];
    }

    method Read(obj: Ref, name: string, width: nat, default: nat) returns (value: nat)
      requires width <= 8
      ensures value == FieldOr(game, api, obj, name, width, default)
    {
      var objects := game.world.objects;
      var present := api.fieldsReadable && obj in objects && name in objects[obj].fields;
      var bytes := FieldReader.ReadField(if present then Some(objects[obj].fields[name]) else None, width);
      value := if bytes.Some? then FieldReader.LittleEndian(bytes.value) else default;
    }

    method SecretOf(reference: nat) returns (r: string)
      ensures r == Secret(StringAt(game, reference), api)
    {
      r := SecretSummary(StringAt(game, reference), api.lengthBound, api.charsBound);
    }

    /** log_settings: it reads and never writes the game. */
    method LogSettings(point: string, settings: Ref)
      modifies this`log
      ensures log == old(log) + [SettingsLine(game, api, point, settings)]
    {
      if settings == 0 {
        log := log + [NoSettings(point)];
        return;
      }
      var host := Read(settings, "HostType", 4, MINUS_ONE);
      var protocol := Read(settings, "Protocol", 4, MINUS_ONE);
      var address := Read(settings, "ServerAddress", 4, 0);
      var port := Read(settings, "ServerPort", 4, MINUS_ONE);
      var appId := Read(settings, "AppID", 4, 0);
      var region := Read(settings, "PreferredRegion", 4, MINUS_ONE);
      var regions := Read(settings, "EnabledRegions", 4, MINUS_ONE);
      var joinLobby := Read(settings, "JoinLobby", 1, 0);
      var lobbyStats := Read(settings, "EnableLobbyStatistics", 1, 0);
      var server := ToUtf8(StringAt(game, address), api.lengthBound && api.charsBound, 256);
      var app := SecretOf(appId);
      log := log + [Settings(point, host, protocol, server, port, app, region, regions, joinLobby, lobbyStats)];
    }

    /** Calling the pointer in a slot. */
    method CallSlot(slot: HookTables.Slot, call: Call) returns (ok: bool)
      modifies this`game
      ensures ok <==> SlotTarget(hooks, slot).Runs?
      ensures game == if ok then effect(SlotTarget(hooks, slot).original, call, old(game)) else old(game)
    {
      var target := SlotTarget(hooks, slot);
      if target.Crash? { return false; }
      game := effect(target.original, call, game);
      return true;
    }

    /** hook_use_cloud_region; false is a crash. */
    method HookUseCloudRegion(self: Ref, appId: Ref, region: int) returns (ok: bool)
      modifies this
      ensures Reply(hooks, api, effect, Call(self, appId, region), Trace(old(game), old(log)))
              == if ok then Done(Trace(game, log)) else Crashed
    {
      var summary := SecretOf(appId);
      log := log + [UseCloudLine(region, summary)];
      ok := CallSlot(HookTables.UseCloudRegion, Call(self, appId, region));
      if !ok { return; }
      LogSettings(AFTER, self);
    }
  }

  datatype Trace = Trace(game: Game, log: seq<Line>)

  datatype Result = Done(trace: Trace) | Crashed | OtherHook(replacement: HookTables.Replacement)

  /** What the hook's body does. */
  function Reply(s: State, api: Api, effect: (Pointer, Call, Game) -> Game, call: Call, before: Trace): Result {
    match SlotTarget(s, HookTables.UseCloudRegion)
    case Crash => Crashed
    case Runs(original) =>
      var game := effect(original, call, before.game);
      Done(Trace(game, before.log + [UseCloudLine(call.region, Secret(StringAt(before.game, call.appId), api)),
                                     SettingsLine(game, api, AFTER, call.self)]))
  }

  /** A call of the code at an address: its own code if it is not patched, otherwise its replacement. */
  function Called(s: State, api: Api, effect: (Pointer, Call, Game) -> Game, a: Pointer, call: Call,
                  before: Trace): Result
  {
    if a !in s.patches then Done(Trace(effect(a, call, before.game), before.log))
    else if s.patches[a].replacement == HookTables.HookUseCloudRegion then Reply(s, api, effect, call, before)
    else OtherHook(s.patches[a].replacement)
  }

  lemma ReplyKeeps(s: State, api: Api, effect: (Pointer, Call, Game) -> Game, a: Pointer, call: Call, before: Trace)
    requires SlotTarget(s, HookTables.UseCloudRegion) == Runs(a)
    ensures var result := Reply(s, api, effect, call, before);
            && result.Done? && result.trace.game == effect(a, call, before.game)
            && before.log <= result.trace.log && |result.trace.log| == |before.log| + 2
  {
  }

  lemma RegionSlot(s: State, a: Pointer)
    requires SlotsReachOwn(s) && a in s.patches && s.patches[a].replacement == HookTables.HookUseCloudRegion
    ensures SlotTarget(s, HookTables.UseCloudRegion) == Runs(a)
  {
  }

  /** Once both tables have been installed, a call of UseCloud(appId, region) leaves the game exactly as
      the original code of that very address leaves it, and only adds to the log; it never crashes. The
      exception is an address that was shared and carries the replacement of another method. */
  lemma UseCloudKeepsItsEffect(answers: seq<Answers>, api: Api, effect: (Pointer, Call, Game) -> Game, a: Pointer,
                               call: Call, before: Trace)
    requires |answers| == |HookTables.TABLE| && AlwaysFresh(Requests(HookTables.TABLE, answers))
    ensures var requests := Requests(HookTables.TABLE, answers);
            var s, result := AfterAll(INITIAL, requests), Called(AfterAll(INITIAL, requests), api, effect, a, call, before);
            var traced := Outcomes(INITIAL, requests)[HookTables.REGION_ROW] && answers[HookTables.REGION_ROW].address == a;
            && (result.Done? <==> a !in s.patches || traced)
            && !result.Crashed?
            && (result.Done? ==> result.trace.game == effect(a, call, before.game)
                                 && before.log <= result.trace.log
                                 && |result.trace.log| == |before.log| + if traced then 2 else 0)
  {
    HookTables.TablesArePaired();
    TablesAccounted(answers);
    CarriesIff(answers, HookTables.REGION_ROW, a);
    var s := AfterAll(INITIAL, Requests(HookTables.TABLE, answers));
    if a in s.patches && s.patches[a].replacement == HookTables.HookUseCloudRegion {
      RegionSlot(s, a);
      ReplyKeeps(s, api, effect, a, call, before);
    }
  }

  // ---------------------------------------------------------------- the settings line

  /** A secret is shown by the summary of its units, and a missing one as null. */
  lemma SecretMeans(value: Text, units: seq<Unit>, api: Api)
    requires HasUnits(value, units) && api.lengthBound && api.charsBound
    ensures Secret(Some(value), api) == SummaryOfUnits(units) && Secret(None, api) == "<null>"
    ensures Server(Some(value), api) == TextOf(units, 256) && Spells(Server(None, api), "<null>")
  {
    ManagedTextIs(value, units, 256);
    Notices();
  }

  type Small = b: int | 0 <= b < 0x100

  /** A settings object whose fields hold these values is logged with each value in its own place. */
  lemma SettingsShown(game: Game, api: Api, point: string, settings: Ref, host: Small, protocol: Small, address: Small,
                      port: Small, appId: Small, region: Small, regions: Small, joinLobby: Small, lobbyStats: Small)
    requires settings != 0 && settings in game.world.objects && api.fieldsReadable
    requires game.world.objects[settings].fields
             == map["HostType" := [host, 0, 0, 0], "Protocol" := [protocol], "ServerAddress" := [address, 0, 0, 0],
                    "ServerPort" := [port, 0, 0, 0], "AppID" := [appId, 0, 0, 0], "PreferredRegion" := [region, 0, 0, 0],
                    "EnabledRegions" := [regions, 0, 0, 0], "JoinLobby" := [joinLobby],
                    "EnableLobbyStatistics" := [lobbyStats]]
    ensures SettingsLine(game, api, point, settings)
            == Settings(point, host, protocol, Server(StringAt(game, address), api), port,
                        Secret(StringAt(game, appId), api), region, regions, joinLobby, lobbyStats)
  {
    WordOf(host);
    WordOf(address);
    WordOf(port);
    WordOf(appId);
    WordOf(region);
    WordOf(regions);
    ByteOf(protocol);
    ByteOf(joinLobby);
    ByteOf(lobbyStats);
  }

  lemma WordOf(b: Small)
    ensures FieldReader.LittleEndian([b, 0, 0, 0]) % FieldReader.Range(4) == b
  {
    FieldReader.FourBytesMean(b, 0, 0, 0);
  }

  lemma ByteOf(b: Small)
    ensures FieldReader.LittleEndian([b]) % FieldReader.Range(4) == b
    ensures FieldReader.LittleEndian([b]) % FieldReader.Range(1) == b
  {
    FieldReader.FourBytesMean(b, 0, 0, 0);
    assert [b][1..] == [] && FieldReader.LittleEndian([b]) == b;
  }
}
