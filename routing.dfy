/** The monitor's inbound side: the six topics a device listens on, all of the form
    `arduino/<uid>/<suffix>`, the exact-match dispatch of an incoming topic, and the
    messages the protobuf decoder hands the handlers. */
module Routing {
  import opened Common
  import opened Configs

  /** The handlers of `mqtt_callback_manager`, in the order it tries them. */
  datatype Handler = WifiCredentials | Security | ConfigModule | ConfigRemoval | RelayToggle | FactoryReset

  function Suffix(h: Handler): string {
    match h
    case WifiCredentials => "/wifi"
    case Security => "/rfid"
    case ConfigModule => "/config"
    case ConfigRemoval => "/config/remove"
    case RelayToggle => "/relay"
    case FactoryReset => "/factory_reset"
  }

  function Topic(deviceUid: string, h: Handler): string {
    "arduino/" + deviceUid + Suffix(h)
  }

  /** The handlers `mqtt_callback_manager` runs for `topic`: each whose topic equals it
      exactly, in the order of the code. */
  function Route(deviceUid: string, topic: string): (r: seq<Handler>)
    ensures forall i :: 0 <= i < |r| ==> topic == Topic(deviceUid, r[i])
    ensures topic == Topic(deviceUid, WifiCredentials) ==> WifiCredentials in r
    ensures topic == Topic(deviceUid, Security) ==> Security in r
    ensures topic == Topic(deviceUid, ConfigModule) ==> ConfigModule in r
    ensures topic == Topic(deviceUid, ConfigRemoval) ==> ConfigRemoval in r
    ensures topic == Topic(deviceUid, RelayToggle) ==> RelayToggle in r
    ensures topic == Topic(deviceUid, FactoryReset) ==> FactoryReset in r
  {
    (if topic == Topic(deviceUid, WifiCredentials) then [WifiCredentials] else [])
    + (if topic == Topic(deviceUid, Security) then [Security] else [])
    + (if topic == Topic(deviceUid, ConfigModule) then [ConfigModule] else [])
    + (if topic == Topic(deviceUid, ConfigRemoval) then [ConfigRemoval] else [])
    + (if topic == Topic(deviceUid, RelayToggle) then [RelayToggle] else [])
    + (if topic == Topic(deviceUid, FactoryReset) then [FactoryReset] else [])
  }

  /** Topics with a common prefix are equal only when their suffixes are. */
  lemma SamePrefix(p: string, a: string, b: string)
    requires p + a == p + b
    ensures a == b
  {
    assert a == (p + a)[|p|..];
    assert b == (p + b)[|p|..];
  }

  /** The six topics of a device are pairwise distinct. */
  lemma TopicsDistinct(deviceUid: string, h1: Handler, h2: Handler)
    requires h1 != h2
    ensures Topic(deviceUid, h1) != Topic(deviceUid, h2)
  {
    var p := "arduino/" + deviceUid;
    assert Topic(deviceUid, h1) == p + Suffix(h1);
    assert Topic(deviceUid, h2) == p + Suffix(h2);
    if p + Suffix(h1) == p + Suffix(h2) {
      SamePrefix(p, Suffix(h1), Suffix(h2));
    }
  }

  /** An incoming topic runs at most one handler, and a device's own topic runs exactly its
      handler. */
  lemma RouteIsExact(deviceUid: string, topic: string)
    ensures |Route(deviceUid, topic)| <= 1
    ensures forall h :: topic == Topic(deviceUid, h) ==> Route(deviceUid, topic) == [h]
  {
    forall h1, h2 | h1 != h2
      ensures !(topic == Topic(deviceUid, h1) && topic == Topic(deviceUid, h2))
    {
      TopicsDistinct(deviceUid, h1, h2);
    }
  }

  /** A topic that is none of the device's six runs nothing. */
  lemma UnknownTopicRunsNothing(deviceUid: string, topic: string)
    requires forall h :: topic != Topic(deviceUid, h)
    ensures Route(deviceUid, topic) == []
  {
  }

  // ---------------------------------------------------------------------------------
  // What `pb_decode` yields for each message schema.

  datatype WifiCredentialsMsg = WifiCredentialsMsg(ssid: string, password: string)

  /** The envelope on the RFID topic: its `which_payload` with the fields the decode
      callback collected. */
  datatype RfidEnvelope =
    | RegisterRequest(registrationId: string)
    | RevokeRequest(uid: seq<byte>)
    | NoRfidPayload

  datatype FullConfigMsg = FullConfigMsg(climates: seq<Climate>, ldrs: seq<Ldr>, motions: seq<Motion>)

  datatype ConfigTopic =
    | ClimateConfig(climate: Climate)
    | LdrConfig(ldr: Ldr)
    | MotionConfig(motion: Motion)
    | FullConfig(full: FullConfigMsg)
    | NoConfigPayload

  datatype ConfigRemovalMsg = RemoveClimate(id: byte) | RemoveLdr(id: byte) | RemoveMotion(id: byte) | NoRemovalPayload

  datatype RelayStateMsg = RelayStateMsg(relayType: byte, port: byte, state: byte)

  /** The decoder's verdict on one payload under each schema a handler might apply. */
  datatype Decodings = Decodings(
    wifi: Option<WifiCredentialsMsg>, rfid: Option<RfidEnvelope>, config: Option<ConfigTopic>,
    removal: Option<ConfigRemovalMsg>, relay: Option<RelayStateMsg>)

  /** A full configuration whose repeated fields fit the record's tables, as the decoder's
      fixed-size arrays guarantee. */
  predicate FitsTables(f: FullConfigMsg) {
    |f.climates| <= MAX_CLIMATE && |f.ldrs| <= MAX_LDR && |f.motions| <= MAX_MOTION
  }

  /** The record the full-config handler builds in an uninitialised local whose earlier
      contents are `stale`: the message's entries first, stale entries after them, version 1,
      size 36, the message's counts, and a relay count nobody sets. */
  function FullConfigRecord(stale: ConfigData, f: FullConfigMsg): (c: ConfigData)
    requires Shaped(stale) && FitsTables(f)
    ensures Shaped(c) && ValidHeader(c)
    ensures c.climateSize == |f.climates| && c.ldrSize == |f.ldrs| && c.motionSize == |f.motions|
    ensures c.climates[..|f.climates|] == f.climates && c.ldrs[..|f.ldrs|] == f.ldrs
    ensures c.motions[..|f.motions|] == f.motions
    ensures c.relaySize == stale.relaySize
  {
    ConfigData(1, CONFIG_SIZE, |f.climates|, |f.ldrs|, |f.motions|, stale.relaySize,
               f.climates + stale.climates[|f.climates|..],
               f.ldrs + stale.ldrs[|f.ldrs|..],
               f.motions + stale.motions[|f.motions|..])
  }
}
