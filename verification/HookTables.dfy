/** The two tables of install calls, of photon_hooks.cpp and of cloud_guard.h: which managed method is
    replaced by which function, and which global receives the original. */
module HookTables {

  datatype Replacement =
    | HookSelectAppId | HookSetUpPhoton | HookUseCloud | HookUseCloudBest | HookUseCloudRegion | HookUseMyServer
    | HookConnectUsingSettings | HookConnectToMaster | HookDisconnect | HookGetGameVersion | HookGameConnect
    | HookDebugReturn | HookOnStatusChanged | HookOnOperationResponse | HookFailedToConnect | HookDisconnected
    | HookConnectedToMaster
    | HookFriendsUpdate | HookConnectSceneGo | HookConnectionControlConnect | HookGameConnectTier
    | HookGameConnectSquad

  /** The globals that hold the originals. */
  datatype Slot =
    | SelectAppId | SetUpPhoton | UseCloud | UseCloudBest | UseCloudRegion | UseMyServer
    | ConnectUsingSettings | ConnectToMaster | Disconnect | GetGameVersion | GameConnect
    | DebugReturn | OnStatusChanged | OnOperationResponse | FailedToConnect | Disconnected
    | ConnectedToMaster
    | FriendsUpdate | ConnectSceneGo | ConnectionControlConnect | GameConnectTier
    | GameConnectSquad

  /** The global that the body of each replacement calls. */
  function SlotOf(r: Replacement): Slot {
    match r
    case HookSelectAppId => SelectAppId
    case HookSetUpPhoton => SetUpPhoton
    case HookUseCloud => UseCloud
    case HookUseCloudBest => UseCloudBest
    case HookUseCloudRegion => UseCloudRegion
    case HookUseMyServer => UseMyServer
    case HookConnectUsingSettings => ConnectUsingSettings
    case HookConnectToMaster => ConnectToMaster
    case HookDisconnect => Disconnect
    case HookGetGameVersion => GetGameVersion
    case HookGameConnect => GameConnect
    case HookDebugReturn => DebugReturn
    case HookOnStatusChanged => OnStatusChanged
    case HookOnOperationResponse => OnOperationResponse
    case HookFailedToConnect => FailedToConnect
    case HookDisconnected => Disconnected
    case HookConnectedToMaster => ConnectedToMaster
    case HookFriendsUpdate => FriendsUpdate
    case HookConnectSceneGo => ConnectSceneGo
    case HookConnectionControlConnect => ConnectionControlConnect
    case HookGameConnectTier => GameConnectTier
    case HookGameConnectSquad => GameConnectSquad
  }

  /** One install call. */
  datatype Row = Row(replacement: Replacement, slot: Slot)

  const TRACING: seq<Row> := [
    Row(HookSelectAppId, SelectAppId),                              // Switcher.SelectPhotonAppId/1
    Row(HookSetUpPhoton, SetUpPhoton),                              // Switcher.SetUpPhoton/1
    Row(HookUseCloud, UseCloud),                                    // ServerSettings.UseCloud/1
    Row(HookUseCloudBest, UseCloudBest),                            // ServerSettings.UseCloudBestRegion/1
    Row(HookUseCloudRegion, UseCloudRegion),                        // ServerSettings.UseCloud/2
    Row(HookUseMyServer, UseMyServer),                              // ServerSettings.UseMyServer/3
    Row(HookConnectUsingSettings, ConnectUsingSettings),            // PhotonNetwork.ConnectUsingSettings/1
    Row(HookConnectToMaster, ConnectToMaster),                      // PhotonNetwork.ConnectToMaster/4
    Row(HookDisconnect, Disconnect),                                // PhotonNetwork.Disconnect/0
    Row(HookGetGameVersion, GetGameVersion),                        // GameConnect.GetConnectGameVersion/0
    Row(HookGameConnect, GameConnect),                              // GameConnect.ConnectToPhoton/0
    Row(HookDebugReturn, DebugReturn),                              // NetworkingPeer.DebugReturn/2
    Row(HookOnStatusChanged, OnStatusChanged),                      // NetworkingPeer.OnStatusChanged/1
    Row(HookOnOperationResponse, OnOperationResponse),              // NetworkingPeer.OnOperationResponse/1
    Row(HookFailedToConnect, FailedToConnect),                      // ConnectionControl.OnFailedToConnect/1
    Row(HookDisconnected, Disconnected),                            // ConnectionControl.OnDisconnected/0
    Row(HookConnectedToMaster, ConnectedToMaster)                   // ConnectionControl.OnConnectedToMaster/0
  ]

  const GUARD: seq<Row> := [
    Row(HookFriendsUpdate, FriendsUpdate),                          // FriendsController.Update/0
    Row(HookConnectSceneGo, ConnectSceneGo),                        // ConnectScene.HandleGoBtnClicked/0
    Row(HookConnectionControlConnect, ConnectionControlConnect),    // ConnectionControl.ConnectToPhoton/0
    Row(HookGameConnectTier, GameConnectTier),                      // GameConnect.ConnectToPhoton/1
    Row(HookGameConnectSquad, GameConnectSquad)                     // GameConnect.ConnectToPhotonSquad/0
  ]

  /** Everything the program installs, in order. */
  const TABLE: seq<Row> := TRACING + GUARD

  const REGION_ROW := 4

  /** The place of a slot in the tables. */
  function Place(slot: Slot): nat {
    match slot
    case SelectAppId => 0
    case SetUpPhoton => 1
    case UseCloud => 2
    case UseCloudBest => 3
    case UseCloudRegion => 4
    case UseMyServer => 5
    case ConnectUsingSettings => 6
    case ConnectToMaster => 7
    case Disconnect => 8
    case GetGameVersion => 9
    case GameConnect => 10
    case DebugReturn => 11
    case OnStatusChanged => 12
    case OnOperationResponse => 13
    case FailedToConnect => 14
    case Disconnected => 15
    case ConnectedToMaster => 16
    case FriendsUpdate => 17
    case ConnectSceneGo => 18
    case ConnectionControlConnect => 19
    case GameConnectTier => 20
    case GameConnectSquad => 21
  }

  lemma TracingPlaces(i: nat)
    requires i < 17
    ensures |TRACING| == 17 && Place(TRACING[i].slot) == i && SlotOf(TRACING[i].replacement) == TRACING[i].slot
  {
  }

  lemma GuardPlaces(i: nat)
    requires i < 5
    ensures |GUARD| == 5 && Place(GUARD[i].slot) == 17 + i && SlotOf(GUARD[i].replacement) == GUARD[i].slot
  {
  }

  lemma Places(i: nat)
    requires i < |TABLE|
    ensures |TABLE| == 22 && Place(TABLE[i].slot) == i && SlotOf(TABLE[i].replacement) == TABLE[i].slot
  {
    if i < 17 {
      TracingPlaces(i);
    } else {
      GuardPlaces(i - 17);
    }
  }

  /** Over both tables, no slot and no replacement is used twice, and each replacement is installed with
      the slot that its body calls. */
  lemma TablesArePaired()
    ensures |TRACING| == 17 && |GUARD| == 5
    ensures forall i :: 0 <= i < |TABLE| ==> SlotOf(TABLE[i].replacement) == TABLE[i].slot
    ensures forall i, j :: 0 <= i < j < |TABLE| ==> TABLE[i].slot != TABLE[j].slot
    ensures forall i, j :: 0 <= i < j < |TABLE| ==> TABLE[i].replacement != TABLE[j].replacement
    ensures TABLE[REGION_ROW].replacement == HookUseCloudRegion
  {
    forall i | 0 <= i < |TABLE|
      ensures Place(TABLE[i].slot) == i && SlotOf(TABLE[i].replacement) == TABLE[i].slot
    {
      Places(i);
    }
  }
}
