/** The system monitor: the node's lifecycle (wait for a configuration, join WiFi, connect
    to the broker, run) and the dispatch of broker messages to the services. It owns the
    mux, the configuration engine, the relay control, the sensor manager and the whitelist
    manager, and creates the broker client and the security service as it goes. What the
    radio, the broker, the serial link and the protobuf/JSON libraries report arrives as
    parameters. */
module Monitor {
  import opened Common
  import opened Mqtt
  import opened Configs
  import opened Routing
  import WhitelistStore
  import WhitelistManager
  import SecurityService
  import ConfigManager
  import Multiplexer
  import Relays
  import Sensors

  datatype SystemState = WAIT_CONFIG | CONNECT_WIFI | CONNECT_MQTT | READY

  const TEST_TOPIC: string := "device/arduino/test"
  const TEST_MESSAGE: string := "Test message from SystemMonitor"

  /** The mux wiring `init` uses: signal on pin 3, select pins S0..S3. */
  const MUX_SIGNAL_PIN: int := 3
  const MUX_SELECTION_PINS: seq<int> := [10, 5, 8, 9]

  /** A default-initialised `Config`. */
  const EMPTY_CONFIG := ConfigManager.DeviceConfig("", "", "", "", 0, "", "", "")

  /** Where the relay state sync goes once the broker is reached. */
  function RelaySyncTopic(deviceUid: string): string {
    "arduino/" + deviceUid + "/relay/full"
  }

  /** The six subscriptions made before READY, in the order made. */
  function Subscriptions(deviceUid: string): (r: seq<string>)
    ensures |r| == 6
  {
    [Topic(deviceUid, WifiCredentials), Topic(deviceUid, Security), Topic(deviceUid, ConfigModule),
     Topic(deviceUid, ConfigRemoval), Topic(deviceUid, RelayToggle), Topic(deviceUid, FactoryReset)]
  }

  /** Every handler's topic is subscribed to. */
  lemma SubscriptionsReachEveryHandler(deviceUid: string)
    ensures forall h :: Topic(deviceUid, h) in Subscriptions(deviceUid)
  {
    var subs := Subscriptions(deviceUid);
    forall h ensures Topic(deviceUid, h) in subs {
      match h
      case WifiCredentials => assert subs[0] == Topic(deviceUid, h);
      case Security => assert subs[1] == Topic(deviceUid, h);
      case ConfigModule => assert subs[2] == Topic(deviceUid, h);
      case ConfigRemoval => assert subs[3] == Topic(deviceUid, h);
      case RelayToggle => assert subs[4] == Topic(deviceUid, h);
      case FactoryReset => assert subs[5] == Topic(deviceUid, h);
    }
  }

  /** A message on any subscribed topic runs exactly one handler. */
  lemma SubscribedTopicsRunOneHandler(deviceUid: string)
    ensures forall t :: t in Subscriptions(deviceUid) ==> |Route(deviceUid, t)| == 1
  {
    var subs := Subscriptions(deviceUid);
    forall t | t in subs ensures |Route(deviceUid, t)| == 1 {
      RouteIsExact(deviceUid, t);
      var k :| 0 <= k < 6 && subs[k] == t;
      var h := [WifiCredentials, Security, ConfigModule, ConfigRemoval, RelayToggle, FactoryReset][k];
      assert t == Topic(deviceUid, h);
    }
  }

  /** The record's counts are within its tables. */
  predicate CountsFit(c: ConfigData) {
    c.climateSize <= MAX_CLIMATE && c.ldrSize <= MAX_LDR && c.motionSize <= MAX_MOTION
  }

  /** A stored record that `load_config` would take as it is has counts within the tables;
      one it resets has counts 0. */
  predicate StoredCountsFit(m: seq<byte>)
    requires |m| == EEPROM_LENGTH
  {
    ValidHeader(Stored(m)) ==> CountsFit(Stored(m))
  }

  /** What the connectivity, the libraries and the hardware report during one `update`. */
  datatype Environment = Environment(
    now: uint32,
    wifiJoined: bool,            // `wifi->update()`
    wifiConnected: bool,         // `wifi->is_connected()`
    mqttConnected: bool,         // `mqtt->is_connected()`
    relaySyncEncodeOk: bool,     // `pb_encode` of the RelayStateSync
    rfidInitOk: bool,
    lockInitOk: bool,
    registrationEncodeOk: bool,  // `pb_encode` in the whitelist's registration answer
    authResponseAvailable: bool,
    registerResponseAvailable: bool,
    lastAuthOk: bool,
    lastRegisterOk: bool,
    relayResponseAvailable: bool,
    relayResponse: Option<seq<byte>>,
    alarm: nat -> bool,
    ldrValue: nat -> uint32,
    motion: nat -> bool)

  /** A response read from the relay link fills the 4-byte record. */
  predicate WellFormed(env: Environment) {
    env.relayResponse.Some? ==> |env.relayResponse.value| == 4
  }

  // ---------------------------------------------------------------------------------
  // The lifecycle as a transition system.

  /** Whether `update` reaches the point in CONNECT_MQTT where the security service is
      created: WiFi still up, broker connected, relay sync encoded. */
  predicate ReachesSecurity(s: SystemState, env: Environment) {
    s == CONNECT_MQTT && env.wifiConnected && env.mqttConnected && env.relaySyncEncodeOk
  }

  /** The state after one `update` from `s`, where `hasSecurity` says whether the security
      service already exists. */
  function NextState(s: SystemState, env: Environment, hasSecurity: bool): (r: SystemState)
    ensures r == s || r == WAIT_CONFIG || (s == CONNECT_WIFI && r == CONNECT_MQTT)
            || (s == CONNECT_MQTT && r == READY) || (s == READY && r == CONNECT_MQTT)
    ensures r == WAIT_CONFIG && s != WAIT_CONFIG ==> !env.wifiConnected
    ensures s == CONNECT_MQTT && r == READY ==> env.mqttConnected
  {
    match s
    case WAIT_CONFIG => WAIT_CONFIG
    case CONNECT_WIFI => if env.wifiJoined then CONNECT_MQTT else CONNECT_WIFI
    case CONNECT_MQTT =>
      if !env.wifiConnected then WAIT_CONFIG
      else if ReachesSecurity(s, env) && (hasSecurity || (env.rfidInitOk && env.lockInitOk)) then READY
      else CONNECT_MQTT
    case READY =>
      if !env.wifiConnected then WAIT_CONFIG
      else if !env.mqttConnected then CONNECT_MQTT
      else READY
  }

  /** Whether the security service exists after one `update`: once created it is never
      released, even when its `init` failed. */
  function NextHasSecurity(s: SystemState, env: Environment, hasSecurity: bool): (r: bool)
    ensures hasSecurity ==> r
    ensures r && !hasSecurity ==> s == CONNECT_MQTT && env.wifiConnected && env.mqttConnected
  {
    hasSecurity || ReachesSecurity(s, env)
  }

  /** The states and security flag after a run of `update` calls. */
  function Run(s: SystemState, hasSecurity: bool, envs: seq<Environment>): (r: (SystemState, bool))
    ensures hasSecurity ==> r.1
    decreases |envs|
  {
    if envs == [] then (s, hasSecurity)
    else Run(NextState(s, envs[0], hasSecurity), NextHasSecurity(s, envs[0], hasSecurity), envs[1..])
  }

  /** READY is entered only from CONNECT_MQTT, with WiFi and the broker up and the relay
      sync encoded, or kept from READY with both links up. */
  lemma EnteringReady(s: SystemState, env: Environment, hasSecurity: bool)
    requires NextState(s, env, hasSecurity) == READY
    ensures s == CONNECT_MQTT || s == READY
    ensures env.wifiConnected && env.mqttConnected
    ensures s == CONNECT_MQTT ==> env.relaySyncEncodeOk && (hasSecurity || (env.rfidInitOk && env.lockInitOk))
  {
  }

  /** Losing WiFi wins over losing the broker: from CONNECT_MQTT or READY it always goes
      back to WAIT_CONFIG. */
  lemma WifiLossFirst(s: SystemState, env: Environment, hasSecurity: bool)
    requires s == CONNECT_MQTT || s == READY
    requires !env.wifiConnected
    ensures NextState(s, env, hasSecurity) == WAIT_CONFIG
  {
  }

  /** `update` alone never leaves WAIT_CONFIG, whatever the links report: after a WiFi loss
      with a stored configuration there is no Bluetooth to provision again. */
  lemma {:induction false} WaitConfigIsAbsorbing(hasSecurity: bool, envs: seq<Environment>)
    ensures Run(WAIT_CONFIG, hasSecurity, envs).0 == WAIT_CONFIG
    decreases |envs|
  {
    if envs != [] {
      WaitConfigIsAbsorbing(NextHasSecurity(WAIT_CONFIG, envs[0], hasSecurity), envs[1..]);
    }
  }

  /** Whenever a run is in READY, the security service exists. */
  lemma {:induction false} ReadyHasSecurity(s: SystemState, hasSecurity: bool, envs: seq<Environment>)
    requires s == READY ==> hasSecurity
    ensures Run(s, hasSecurity, envs).0 == READY ==> Run(s, hasSecurity, envs).1
    decreases |envs|
  {
    if envs != [] {
      var s', h' := NextState(s, envs[0], hasSecurity), NextHasSecurity(s, envs[0], hasSecurity);
      assert s' == READY ==> h';
      ReadyHasSecurity(s', h', envs[1..]);
    }
  }

  /** A security `init` that fails is not retried: the next pass through CONNECT_MQTT finds
      the service already there and goes to READY even though the reader never started. */
  lemma FailedSecurityInitIsNotRetried(e1: Environment, e2: Environment)
    requires ReachesSecurity(CONNECT_MQTT, e1) && !e1.rfidInitOk
    requires ReachesSecurity(CONNECT_MQTT, e2) && !e2.rfidInitOk
    ensures Run(CONNECT_MQTT, false, [e1, e2]) == (READY, true)
  {
    assert [e1, e2][1..] == [e2];
    assert Run(CONNECT_MQTT, false, [e1, e2]) == Run(CONNECT_MQTT, true, [e2]);
    assert Run(CONNECT_MQTT, true, [e2]) == Run(READY, true, []);
  }

  /** With every link up and every library call succeeding, a configured node is READY after
      its second `update`. */
  lemma GoodLinksReachReady(e1: Environment, e2: Environment)
    requires e1.wifiJoined
    requires ReachesSecurity(CONNECT_MQTT, e2) && e2.rfidInitOk && e2.lockInitOk
    ensures Run(CONNECT_WIFI, false, [e1, e2]) == (READY, true)
  {
    assert [e1, e2][1..] == [e2];
    assert Run(CONNECT_WIFI, false, [e1, e2]) == Run(CONNECT_MQTT, false, [e2]);
    assert Run(CONNECT_MQTT, false, [e2]) == Run(READY, true, []);
  }

  // ---------------------------------------------------------------------------------
  // What the handlers do to the stored whitelist and to the configuration record.

  /** The UID the revoke branch of `handle_security` hands to `delete_uid`. The decode
      callback parses every payload as a register request and fills only the registration
      id of the zero-initialised shared record, so the UID length stays 0 and the copy is
      empty, whatever UID the revoke request carried. */
  const SHARED_UID: seq<byte> := []

  /** The EEPROM after `delete_uid(uid)` for the UID a revoke request carries: what the
      revoke handler is evidently meant to leave. Only length bytes in the whitelist area
      change, and only to 0; a UID the whitelist does not hold changes nothing. */
  function Revoked(m: seq<byte>, uid: seq<byte>): (r: seq<byte>)
    requires |m| == EEPROM_LENGTH
    ensures |r| == |m|
    ensures forall i :: 0 <= i < |m| && r[i] != m[i] ==> WhitelistStore.W_EEPROM_ADDR <= i && r[i] == 0
    ensures !WhitelistStore.Whitelisted(m, uid) ==> r == m
  {
    if |uid| == 0 || |uid| > WhitelistStore.MAX_UID_LENGTH then m
    else match WhitelistStore.FindRecord(m, WhitelistStore.W_EEPROM_ADDR, WhitelistStore.MAX_WHITELIST_SIZE, uid)
         case None => m
         case Some(a) => m[a := 0]
  }

  /** Deleting the UID a revoke request carries, as intended, leaves it no longer
      whitelisted, whether or not it was. */
  lemma RevokedUidNotWhitelisted(m: seq<byte>, uid: seq<byte>)
    requires |m| == EEPROM_LENGTH && 1 <= |uid| <= WhitelistStore.MAX_UID_LENGTH
    ensures !WhitelistStore.Whitelisted(Revoked(m, uid), uid)
  {
    match WhitelistStore.FindRecord(m, WhitelistStore.W_EEPROM_ADDR, WhitelistStore.MAX_WHITELIST_SIZE, uid) {
      case None =>
      case Some(a) => WhitelistStore.DeletedUidNotWhitelisted(m, uid, a);
    }
  }

  /** The revoke handler as written: a revoke request for a whitelisted UID of valid length
      leaves it whitelisted, where deleting the UID it carries would have removed it. */
  method RevokeLeavesUidWhitelisted(m: seq<byte>, uid: seq<byte>) returns (before: bool, after: bool)
    requires |m| == EEPROM_LENGTH && 1 <= |uid| <= WhitelistStore.MAX_UID_LENGTH
    ensures before == WhitelistStore.Whitelisted(m, uid)
    ensures after == before
    ensures !WhitelistStore.Whitelisted(Revoked(m, uid), uid)
  {
    var ee := new Eeprom(m);
    before := WhitelistStore.IsWhitelisted(ee, uid);
    var monitor := new SystemMonitor(ee);
    monitor.HandleSecurity(Some(RevokeRequest(uid)));
    after := WhitelistStore.IsWhitelisted(ee, uid);
    RevokedUidNotWhitelisted(m, uid);
  }

  /** The record after a decoded config message: an entry is appended when its table has
      room, a full configuration replaces the record, an empty payload changes nothing. */
  function Applied(c: ConfigData, t: ConfigTopic, stale: ConfigData): (r: ConfigData)
    requires Shaped(c) && Shaped(stale)
    requires t.FullConfig? ==> FitsTables(t.full)
    ensures Shaped(r)
    ensures !t.FullConfig? ==> r.version == c.version && r.size == c.size && r.relaySize == c.relaySize
    ensures t.ClimateConfig? ==>
              r.ldrs == c.ldrs && r.ldrSize == c.ldrSize && r.motions == c.motions && r.motionSize == c.motionSize
              && (c.climateSize < MAX_CLIMATE ==>
                    r.climateSize == c.climateSize + 1 && r.climates[c.climateSize] == t.climate
                    && r.climates[..c.climateSize] == c.climates[..c.climateSize])
              && (c.climateSize >= MAX_CLIMATE ==> r == c)
    ensures t.LdrConfig? ==>
              r.climates == c.climates && r.climateSize == c.climateSize && r.motions == c.motions
              && r.motionSize == c.motionSize
              && (c.ldrSize < MAX_LDR ==>
                    r.ldrSize == c.ldrSize + 1 && r.ldrs[c.ldrSize] == t.ldr && r.ldrs[..c.ldrSize] == c.ldrs[..c.ldrSize])
              && (c.ldrSize >= MAX_LDR ==> r == c)
    ensures t.MotionConfig? ==>
              r.climates == c.climates && r.climateSize == c.climateSize && r.ldrs == c.ldrs && r.ldrSize == c.ldrSize
              && (c.motionSize < MAX_MOTION ==>
                    r.motionSize == c.motionSize + 1 && r.motions[c.motionSize] == t.motion
                    && r.motions[..c.motionSize] == c.motions[..c.motionSize])
              && (c.motionSize >= MAX_MOTION ==> r == c)
    ensures t.NoConfigPayload? ==> r == c
  {
    match t
    case ClimateConfig(x) =>
      if c.climateSize < MAX_CLIMATE
      then c.(climates := c.climates[c.climateSize := x], climateSize := c.climateSize + 1) else c
    case LdrConfig(x) =>
      if c.ldrSize < MAX_LDR then c.(ldrs := c.ldrs[c.ldrSize := x], ldrSize := c.ldrSize + 1) else c
    case MotionConfig(x) =>
      if c.motionSize < MAX_MOTION
      then c.(motions := c.motions[c.motionSize := x], motionSize := c.motionSize + 1) else c
    case FullConfig(f) => FullConfigRecord(stale, f)
    case NoConfigPayload => c
  }

  /** No config message takes the counts past the tables, and a full configuration always
      carries a header that `load_config` keeps. */
  lemma AppliedKeepsTables(c: ConfigData, t: ConfigTopic, stale: ConfigData)
    requires Shaped(c) && Shaped(stale) && CountsFit(c)
    requires t.FullConfig? ==> FitsTables(t.full)
    ensures Shaped(Applied(c, t, stale)) && CountsFit(Applied(c, t, stale))
    ensures t.FullConfig? ==> ValidHeader(Applied(c, t, stale))
    ensures ValidHeader(c) ==> ValidHeader(Applied(c, t, stale))
  {
  }

  /** One copy loop of the full-config handler: `entries` written over the start of `table`
      element by element. */
  method CopyOver<T>(entries: seq<T>, table: seq<T>) returns (r: seq<T>)
    requires |entries| <= |table|
    ensures |r| == |table| && r[..|entries|] == entries && r[|entries|..] == table[|entries|..]
  {
    r := table;
    var i := 0;
    while i < |entries|
      invariant 0 <= i <= |entries| && |r| == |table|
      invariant forall k :: 0 <= k < i ==> r[k] == entries[k]
      invariant forall k :: i <= k < |table| ==> r[k] == table[k]
    {
      r := r[i := entries[i]];
      i := i + 1;
    }
    assert r[..|entries|] == entries;
    assert r[|entries|..] == table[|entries|..];
  }

  /** The full-config handler: the message's entries copied over an uninitialised local
      record whose earlier contents are `stale`, then version 1, size 36 and the counts. */
  method AssembleFullConfig(stale: ConfigData, f: FullConfigMsg) returns (c: ConfigData)
    requires Shaped(stale) && FitsTables(f)
    ensures c == FullConfigRecord(stale, f)
  {
    var climates := CopyOver(f.climates, stale.climates);
    var ldrs := CopyOver(f.ldrs, stale.ldrs);
    var motions := CopyOver(f.motions, stale.motions);
    c := stale.(climates := climates, ldrs := ldrs, motions := motions);
    c := c.(version := 1, size := CONFIG_SIZE);
    c := c.(climateSize := |f.climates|, ldrSize := |f.ldrs|, motionSize := |f.motions|);
  }

  /** Saving the provisioning text below address 1024 leaves the configuration record alone. */
  lemma ProvisioningKeepsStoredConfig(m: seq<byte>, json: seq<byte>)
    requires |m| == EEPROM_LENGTH
    ensures |ConfigManager.SavedImage(json)| <= EEPROM_ADDRESS
    ensures Stored(Overwrite(m, 0, ConfigManager.SavedImage(json))) == Stored(m)
  {
    var m' := Overwrite(m, 0, ConfigManager.SavedImage(json));
    assert m'[EEPROM_ADDRESS .. EEPROM_ADDRESS + CONFIG_SIZE] == m[EEPROM_ADDRESS .. EEPROM_ADDRESS + CONFIG_SIZE];
  }

  /** Writing the same number of bytes twice at one address keeps the second write. */
  lemma OverwriteTwice(m: seq<byte>, addr: nat, x: seq<byte>, y: seq<byte>)
    requires addr + |x| <= |m| && |x| == |y|
    ensures Overwrite(Overwrite(m, addr, x), addr, y) == Overwrite(m, addr, y)
  {
    var a := Overwrite(Overwrite(m, addr, x), addr, y);
    var b := Overwrite(m, addr, y);
    assert forall i :: 0 <= i < |m| ==> a[i] == b[i];
  }

  /** The two publications once the broker is reached: the relay state sync and the test
      message. */
  method AnnounceRelayState(client: MqttManager, deviceUid: string)
    modifies client
    ensures client.published == old(client.published)
              + [Publication(RelaySyncTopic(deviceUid), RelayStateSync), Publication(TEST_TOPIC, Text(TEST_MESSAGE))]
    ensures client.subscriptions == old(client.subscriptions) && client.polls == old(client.polls)
  {
    client.Publish(RelaySyncTopic(deviceUid), RelayStateSync);
    client.Publish(TEST_TOPIC, Text(TEST_MESSAGE));
  }

  /** The `switch` of `handle_config_manager`: the engine's own setter for the payload. */
  method ApplyConfigTopic(engine: ConfigEngine, ee: Eeprom, t: ConfigTopic, stale: ConfigData)
    requires engine.Valid() && ee.Valid() && CountsFit(engine.config) && Shaped(stale)
    requires t.FullConfig? ==> FitsTables(t.full)
    modifies engine, ee
    ensures engine.Valid() && ee.Valid() && CountsFit(engine.config)
    ensures engine.config == Applied(old(engine.config), t, stale)
    ensures ee.data == old(ee.data) || ee.data == Overwrite(old(ee.data), EEPROM_ADDRESS, Serialize(engine.config))
  {
    AppliedKeepsTables(engine.config, t, stale);
    match t {
      case FullConfig(f) =>
        var record := AssembleFullConfig(stale, f);
        var ok := engine.SetFullConfig(ee, record);
      case NoConfigPayload =>
      case _ =>
        AddEntry(engine, ee, t, stale);
    }
  }

  /** One entry appended by `set_climate_config`, `set_ldr_config` or `set_motion_config`. */
  method AddEntry(engine: ConfigEngine, ee: Eeprom, t: ConfigTopic, stale: ConfigData)
    requires engine.Valid() && ee.Valid() && Shaped(stale)
    requires t.ClimateConfig? || t.LdrConfig? || t.MotionConfig?
    modifies engine, ee
    ensures engine.Valid() && ee.Valid()
    ensures engine.config == Applied(old(engine.config), t, stale)
    ensures ee.data == old(ee.data) || ee.data == Overwrite(old(ee.data), EEPROM_ADDRESS, Serialize(engine.config))
  {
    ghost var want := Applied(engine.config, t, stale);
    match t {
      case ClimateConfig(c) =>
        var ok := engine.SetClimateConfig(ee, c);
        assert engine.config == want;
      case LdrConfig(l) =>
        var ok := engine.SetLdrConfig(ee, l);
        assert engine.config == want;
      case MotionConfig(m) =>
        var ok := engine.SetMotionConfig(ee, m);
        assert engine.config == want;
    }
  }

  /** The six `subscribe` calls of CONNECT_MQTT. */
  method SubscribeAll(client: MqttManager, deviceUid: string)
    modifies client
    ensures client.subscriptions == old(client.subscriptions) + Subscriptions(deviceUid)
    ensures client.published == old(client.published) && client.polls == old(client.polls)
  {
    client.Subscribe(Topic(deviceUid, WifiCredentials));
    client.Subscribe(Topic(deviceUid, Security));
    client.Subscribe(Topic(deviceUid, ConfigModule));
    client.Subscribe(Topic(deviceUid, ConfigRemoval));
    client.Subscribe(Topic(deviceUid, RelayToggle));
    client.Subscribe(Topic(deviceUid, FactoryReset));
  }

  // ---------------------------------------------------------------------------------

  class SystemMonitor {
    /** The board's EEPROM, shared by every component. */
    const ee: Eeprom
    const mux: Multiplexer.Mux
    const configEngine: ConfigEngine
    const relayControl: Relays.RelayControl
    const sensorManager: Sensors.SensorManager
    const whitelistManager: WhitelistManager.WhiteListManager
    /** Whether the Bluetooth provisioning service was started. */
    var hasBt: bool
    /** Whether the WiFi manager was created. */
    var hasWifi: bool
    var mqtt: MqttManager?
    var security: SecurityService.Security?
    var config: ConfigManager.DeviceConfig
    var state: SystemState
    /** Whether `NVIC_SystemReset` was called; nothing after it runs on the board. */
    var restarted: bool

    ghost predicate Valid()
      reads this, ee, mux, configEngine, sensorManager, whitelistManager, security
    {
      ee.Valid() && mux.Valid() && configEngine.Valid() && sensorManager.Valid() && whitelistManager.Valid()
      && CountsFit(configEngine.config)
      && !whitelistManager.newUidReceived
      && (security != null ==> security.Valid())
      && (state != WAIT_CONFIG ==> hasWifi)
      && (hasWifi ==> mqtt != null && whitelistManager.mqtt == mqtt)
      && (state == READY ==> security != null)
      && (if sensorManager.Ready()
          then sensorManager.configEngine == configEngine && sensorManager.mqtt == mqtt
               && sensorManager.mux == mux && !hasBt
          else sensorManager.configEngine == null && sensorManager.mqtt == null && sensorManager.mux == null)
    }

    constructor (ee: Eeprom)
      requires ee.Valid()
      ensures Valid() && this.ee == ee && ee.data == old(ee.data)
      ensures state == WAIT_CONFIG && !hasBt && !hasWifi && mqtt == null && security == null && !restarted
      ensures config == EMPTY_CONFIG && !sensorManager.Ready() && configEngine.config == ZERO_CONFIG
      ensures !relayControl.initialized && !mux.initialized
      ensures fresh(mux) && fresh(configEngine) && fresh(relayControl) && fresh(sensorManager)
      ensures fresh(sensorManager.climateModules) && fresh(sensorManager.ldrModules)
      ensures fresh(sensorManager.pirModules) && fresh(whitelistManager)
    {
      this.ee := ee;
      mux := new Multiplexer.Mux();
      configEngine := new ConfigEngine();
      relayControl := new Relays.RelayControl();
      sensorManager := new Sensors.SensorManager();
      whitelistManager := new WhitelistManager.WhiteListManager();
      hasBt, hasWifi, mqtt, security := false, false, null, null;
      config, state, restarted := EMPTY_CONFIG, WAIT_CONFIG, false;
    }

    /** `configureBasicConfig`: creates the WiFi manager and the broker client, loads the
        configuration record, hands the client to the whitelist manager, and moves to
        CONNECT_WIFI. */
    method ConfigureBasicConfig()
      requires Valid() && !sensorManager.Ready() && StoredCountsFit(ee.data)
      modifies this, ee, configEngine, whitelistManager
      ensures Valid() && hasWifi && state == CONNECT_WIFI
      ensures fresh(mqtt) && mqtt.published == [] && mqtt.subscriptions == [] && mqtt.polls == 0
      ensures configEngine.Persisted(ee) && ValidHeader(configEngine.config)
      ensures configEngine.config == (if ValidHeader(Stored(old(ee.data))) then Stored(old(ee.data))
                                      else ResetHeader(Stored(old(ee.data))))
      ensures ValidHeader(Stored(old(ee.data))) ==> ee.data == old(ee.data)
      ensures ChangedOnlyIn(old(ee.data), ee.data, EEPROM_ADDRESS, EEPROM_ADDRESS + CONFIG_SIZE)
      ensures whitelistManager.deviceUid == config.deviceUid
      ensures config == old(config) && hasBt == old(hasBt) && security == old(security)
      ensures restarted == old(restarted)
    {
      hasWifi := true;
      mqtt := new MqttManager();
      var loaded := configEngine.Init(ee);
      whitelistManager.Init(mqtt, config.deviceUid);
      state := CONNECT_WIFI;
    }

    /** `init`: a configuration that loads from EEPROM configures the node and moves it to
        CONNECT_WIFI; otherwise Bluetooth provisioning starts and the node waits. Then the
        relay control (when the serial link started), the mux, and (for a configured node)
        the sensor manager are set up. `stale` is the earlier content of `load`'s stack
        buffer and `parseJson` the JSON library. */
    method Init(stale: seq<byte>, parseJson: seq<byte> -> Option<ConfigManager.DeviceConfig>,
                serialOk: bool, climateInitOk: seq<bool>)
      requires Valid() && state == WAIT_CONFIG && !hasBt && !hasWifi && !sensorManager.Ready()
      requires |stale| == ConfigManager.AREA_SIZE && |climateInitOk| == MAX_CLIMATE
      requires StoredCountsFit(ee.data)
      modifies this, ee, mux, configEngine, relayControl, whitelistManager, sensorManager
      modifies sensorManager.climateModules, sensorManager.ldrModules, sensorManager.pirModules
      ensures Valid()
      ensures var loaded := ConfigManager.MagicOk(old(ee.data))
                            && parseJson(ConfigManager.LoadedText(old(ee.data), stale)).Some?;
              (state == CONNECT_WIFI <==> loaded) && (state == WAIT_CONFIG <==> !loaded)
              && (hasBt <==> !loaded) && (hasWifi <==> loaded)
              && (loaded ==> config == parseJson(ConfigManager.LoadedText(old(ee.data), stale)).value
                             && sensorManager.Ready() && configEngine.Persisted(ee)
                             && whitelistManager.deviceUid == config.deviceUid)
              && (!loaded ==> ee.data == old(ee.data) && !sensorManager.Ready()
                              && configEngine.config == old(configEngine.config))
      ensures state == CONNECT_WIFI ==>
                configEngine.config == (if ValidHeader(Stored(old(ee.data))) then Stored(old(ee.data))
                                        else ResetHeader(Stored(old(ee.data))))
                && ValidHeader(configEngine.config)
                && ChangedOnlyIn(old(ee.data), ee.data, EEPROM_ADDRESS, EEPROM_ADDRESS + CONFIG_SIZE)
      ensures state == CONNECT_WIFI ==>
                (forall i :: 0 <= i < MAX_CLIMATE ==>
                   sensorManager.climateModules[i]
                     == (if i < configEngine.config.climateSize then climateInitOk[i]
                         else old(sensorManager.climateModules[i])))
                && (forall i :: 0 <= i < MAX_LDR ==>
                      sensorManager.ldrModules[i] == (i < configEngine.config.ldrSize || old(sensorManager.ldrModules[i])))
                && (forall i :: 0 <= i < MAX_MOTION ==>
                      sensorManager.pirModules[i]
                        == (i < configEngine.config.motionSize || old(sensorManager.pirModules[i])))
      ensures state == WAIT_CONFIG ==>
                sensorManager.climateModules[..] == old(sensorManager.climateModules[..])
                && sensorManager.ldrModules[..] == old(sensorManager.ldrModules[..])
                && sensorManager.pirModules[..] == old(sensorManager.pirModules[..])
      ensures relayControl.initialized == (serialOk || old(relayControl.initialized))
      ensures mux.initialized && mux.muxSize == 16 && mux.signalPin == MUX_SIGNAL_PIN
      ensures mux.selectionPins == MUX_SELECTION_PINS && mux.selectionPinsSize == 4
      ensures mux.mode == Multiplexer.DIGITAL && mux.signal == Multiplexer.MUX_INPUT
      ensures security == old(security) && restarted == old(restarted)
    {
      LoadStoredConfig(stale, parseJson);
      SetUpPeripherals(serialOk, climateInitOk);
    }

    /** The first half of `init`: load the provisioning record and configure, or start
        Bluetooth. */
    method LoadStoredConfig(stale: seq<byte>, parseJson: seq<byte> -> Option<ConfigManager.DeviceConfig>)
      requires Valid() && state == WAIT_CONFIG && !hasBt && !hasWifi && !sensorManager.Ready()
      requires |stale| == ConfigManager.AREA_SIZE && StoredCountsFit(ee.data)
      modifies this, ee, configEngine, whitelistManager
      ensures Valid() && !sensorManager.Ready()
      ensures var loaded := ConfigManager.MagicOk(old(ee.data))
                            && parseJson(ConfigManager.LoadedText(old(ee.data), stale)).Some?;
              (state == CONNECT_WIFI <==> loaded) && (state == WAIT_CONFIG <==> !loaded)
              && (hasBt <==> !loaded) && (hasWifi <==> loaded)
              && (loaded ==> config == parseJson(ConfigManager.LoadedText(old(ee.data), stale)).value
                             && configEngine.Persisted(ee) && whitelistManager.deviceUid == config.deviceUid)
              && (!loaded ==> ee.data == old(ee.data) && configEngine.config == old(configEngine.config))
      ensures state == CONNECT_WIFI ==>
                configEngine.config == (if ValidHeader(Stored(old(ee.data))) then Stored(old(ee.data))
                                        else ResetHeader(Stored(old(ee.data))))
                && ValidHeader(configEngine.config)
                && ChangedOnlyIn(old(ee.data), ee.data, EEPROM_ADDRESS, EEPROM_ADDRESS + CONFIG_SIZE)
      ensures security == old(security) && restarted == old(restarted)
    {
      var ok, json, loaded := ConfigManager.Load(ee, stale, parseJson);
      if ok {
        config := loaded.value;
        ConfigureBasicConfig();
      } else {
        hasBt := true;
      }
    }

    /** The second half of `init`: the relay control when the serial link started, the mux,
        and the sensor manager for a node that is past WAIT_CONFIG. */
    method SetUpPeripherals(serialOk: bool, climateInitOk: seq<bool>)
      requires Valid() && !sensorManager.Ready() && |climateInitOk| == MAX_CLIMATE
      requires state == WAIT_CONFIG || (state == CONNECT_WIFI && !hasBt)
      modifies mux, relayControl, sensorManager
      modifies sensorManager.climateModules, sensorManager.ldrModules, sensorManager.pirModules
      ensures Valid()
      ensures sensorManager.Ready() <==> state != WAIT_CONFIG
      ensures state != WAIT_CONFIG ==>
                (forall i :: 0 <= i < MAX_CLIMATE ==>
                   sensorManager.climateModules[i]
                     == (if i < configEngine.config.climateSize then climateInitOk[i]
                         else old(sensorManager.climateModules[i])))
                && (forall i :: 0 <= i < MAX_LDR ==>
                      sensorManager.ldrModules[i] == (i < configEngine.config.ldrSize || old(sensorManager.ldrModules[i])))
                && (forall i :: 0 <= i < MAX_MOTION ==>
                      sensorManager.pirModules[i]
                        == (i < configEngine.config.motionSize || old(sensorManager.pirModules[i])))
      ensures state == WAIT_CONFIG ==>
                sensorManager.climateModules[..] == old(sensorManager.climateModules[..])
                && sensorManager.ldrModules[..] == old(sensorManager.ldrModules[..])
                && sensorManager.pirModules[..] == old(sensorManager.pirModules[..])
      ensures relayControl.initialized == (serialOk || old(relayControl.initialized))
      ensures mux.initialized && mux.muxSize == 16 && mux.signalPin == MUX_SIGNAL_PIN
      ensures mux.selectionPins == MUX_SELECTION_PINS && mux.selectionPinsSize == 4
      ensures mux.mode == Multiplexer.DIGITAL && mux.signal == Multiplexer.MUX_INPUT
    {
      if serialOk {
        var relayOk := relayControl.Init(true);
      }
      mux.Init(MUX_SIGNAL_PIN, MUX_SELECTION_PINS, 4, Multiplexer.DIGITAL, Multiplexer.MUX_INPUT);
      assert Multiplexer.Pow2(4) == 16;
      if state == CONNECT_WIFI || state == CONNECT_MQTT {
        var sensorsOk := sensorManager.Init(configEngine, mqtt, mux, config.deviceUid, climateInitOk);
      }
    }

    /** What `bt->update()` runs when a configuration arrives over Bluetooth: keep it, save its
        JSON text, and configure as `init` would. The sensor manager is not set up on this
        path. */
    method OnProvisioned(c: ConfigManager.DeviceConfig, json: seq<byte>)
      requires Valid() && hasBt && state == WAIT_CONFIG
      requires StoredCountsFit(ee.data)
      modifies this, ee, configEngine, whitelistManager
      ensures Valid() && state == CONNECT_WIFI && config == c && hasBt
      ensures ee.data[..EEPROM_ADDRESS] == Overwrite(old(ee.data), 0, ConfigManager.SavedImage(json))[..EEPROM_ADDRESS]
      ensures ChangedOnlyIn(old(ee.data), ee.data, 0, EEPROM_ADDRESS + CONFIG_SIZE)
      ensures configEngine.Persisted(ee)
      ensures configEngine.config == (if ValidHeader(Stored(old(ee.data))) then Stored(old(ee.data))
                                      else ResetHeader(Stored(old(ee.data))))
      ensures !sensorManager.Ready()
      ensures fresh(mqtt) && whitelistManager.deviceUid == c.deviceUid
    {
      config := c;
      ghost var before := ee.data;
      var saved := ConfigManager.Save(ee, json);
      ProvisioningKeepsStoredConfig(before, json);
      ghost var withText := ee.data;
      ConfigureBasicConfig();
      assert ee.data[..EEPROM_ADDRESS] == withText[..EEPROM_ADDRESS];
    }

    // -------------------------------------------------------------------------------
    // `update`

    /** One `update`: the state moves as `NextState` says; the security service is created
        as `NextHasSecurity` says; entering READY follows the relay sync, the test message
        and the six subscriptions; in READY the broker client, the whitelist, security, the
        relay link and the sensors each run once. */
    method Update(env: Environment)
      requires Valid() && WellFormed(env)
      modifies this, ee, mqtt, mux, relayControl, sensorManager, whitelistManager, security
      ensures Valid()
      ensures state == NextState(old(state), env, old(security) != null)
      ensures (security != null) == NextHasSecurity(old(state), env, old(security) != null)
      ensures config == old(config) && hasBt == old(hasBt) && hasWifi == old(hasWifi)
      ensures mqtt == old(mqtt) && restarted == old(restarted)
      ensures configEngine.config == old(configEngine.config)
      ensures old(state) != READY ==> ee.data == old(ee.data)
      ensures old(state) == CONNECT_MQTT && state == READY ==>
                mqtt.subscriptions == old(mqtt.subscriptions) + Subscriptions(config.deviceUid)
                && mqtt.published == old(mqtt.published)
                     + [Publication(RelaySyncTopic(config.deviceUid), RelayStateSync),
                        Publication(TEST_TOPIC, Text(TEST_MESSAGE))]
      ensures old(state) == CONNECT_MQTT && state != READY ==>
                mqtt.subscriptions == old(mqtt.subscriptions)
                && mqtt.published == old(mqtt.published)
                     + (if ReachesSecurity(CONNECT_MQTT, env)
                        then [Publication(RelaySyncTopic(config.deviceUid), RelayStateSync),
                              Publication(TEST_TOPIC, Text(TEST_MESSAGE))]
                        else [])
      ensures old(state) == CONNECT_MQTT ==> mqtt.polls == old(mqtt.polls) + (if env.wifiConnected then 1 else 0)
      ensures old(state) == CONNECT_WIFI ==>
                mqtt.published == old(mqtt.published) && mqtt.subscriptions == old(mqtt.subscriptions)
                && mqtt.polls == old(mqtt.polls)
      ensures old(state) == READY && state == READY ==>
                mqtt.polls == old(mqtt.polls) + 1
                && mqtt.subscriptions == old(mqtt.subscriptions)
                && !whitelistManager.newUidReceived
                && security.awaitingAuth
                     == (old(security.awaitingAuth)
                         && !SecurityService.Ends(true, env.authResponseAvailable, env.now, old(security.startTime)))
                && security.awaitingRegister
                     == (old(security.awaitingRegister)
                         && !SecurityService.Ends(true, env.registerResponseAvailable, env.now,
                                                  old(security.startTime)))
                && sensorManager.lastClimateReadTime
                     == (if Sensors.Due(env.now, old(sensorManager.lastClimateReadTime), Sensors.SENSOR_READ_INTERVAL)
                         then env.now else old(sensorManager.lastClimateReadTime))
                && sensorManager.lastLdrReadTime
                     == (if Sensors.Due(env.now, old(sensorManager.lastLdrReadTime), Sensors.SENSOR_READ_INTERVAL)
                         then env.now else old(sensorManager.lastLdrReadTime))
                && sensorManager.lastMotionReadTime
                     == (if Sensors.Due(env.now, old(sensorManager.lastMotionReadTime),
                                        Sensors.SENSOR_READ_INTERVAL_MOTION)
                         then env.now else old(sensorManager.lastMotionReadTime))
                && ee.data == old(ee.data)
                && mqtt.published
                     == old(mqtt.published) + old(sensorManager.DuePublications(env.now, env.ldrValue, env.motion))
      ensures old(state) == READY && state == READY ==>
                security.lockCalls
                  == old(security.lockCalls)
                     + SecurityService.HandleCalls(old(security.hasLock), old(security.awaitingAuth),
                                                   old(security.awaitingRegister), old(security.startTime), env.now,
                                                   env.authResponseAvailable, env.registerResponseAvailable,
                                                   env.lastAuthOk, env.lastRegisterOk)
                && security.startTime == old(security.startTime) && security.hasLock == old(security.hasLock)
                && security.hasRfid == old(security.hasRfid)
                && security.hasAuthenticator == old(security.hasAuthenticator)
      ensures old(state) == READY && state == READY ==>
                whitelistManager.mode == old(whitelistManager.mode)
                && whitelistManager.registrationRequestId == old(whitelistManager.registrationRequestId)
                && mux.events == old(mux.events) + old(sensorManager.DueEvents(env.now, env.alarm))
      ensures old(state) == READY && state != READY ==>
                ee.data == old(ee.data) && mqtt.published == old(mqtt.published) && mqtt.polls == old(mqtt.polls)
                && mux.events == old(mux.events) && security.lockCalls == old(security.lockCalls)
    {
      match state {
        case WAIT_CONFIG =>
        case CONNECT_WIFI =>
          if env.wifiJoined {
            state := CONNECT_MQTT;
          }
        case CONNECT_MQTT =>
          ConnectMqtt(env);
        case READY =>
          RunReady(env);
      }
    }

    /** The CONNECT_MQTT branch of `update`. */
    method ConnectMqtt(env: Environment)
      requires Valid() && state == CONNECT_MQTT
      modifies this, mqtt, whitelistManager
      ensures Valid()
      ensures state == NextState(CONNECT_MQTT, env, old(security) != null)
      ensures (security != null) == NextHasSecurity(CONNECT_MQTT, env, old(security) != null)
      ensures old(security) != null ==> security == old(security)
      ensures security != null && security != old(security) ==> fresh(security)
      ensures config == old(config) && hasBt == old(hasBt) && hasWifi == old(hasWifi)
      ensures mqtt == old(mqtt) && restarted == old(restarted)
      ensures state == READY ==>
                mqtt.subscriptions == old(mqtt.subscriptions) + Subscriptions(config.deviceUid)
                && mqtt.published == old(mqtt.published)
                     + [Publication(RelaySyncTopic(config.deviceUid), RelayStateSync),
                        Publication(TEST_TOPIC, Text(TEST_MESSAGE))]
      ensures state != READY ==>
                mqtt.subscriptions == old(mqtt.subscriptions)
                && mqtt.published == old(mqtt.published)
                     + (if ReachesSecurity(CONNECT_MQTT, env)
                        then [Publication(RelaySyncTopic(config.deviceUid), RelayStateSync),
                              Publication(TEST_TOPIC, Text(TEST_MESSAGE))]
                        else [])
      ensures mqtt.polls == old(mqtt.polls) + (if env.wifiConnected then 1 else 0)
    {
      if !env.wifiConnected {
        state := WAIT_CONFIG;
        return;
      }
      mqtt.Update();
      if env.mqttConnected {
        whitelistManager.Init(mqtt, config.deviceUid);
        if !env.relaySyncEncodeOk {
          return;
        }
        AnnounceRelayState(mqtt, config.deviceUid);
        if security == null {
          var ok := CreateSecurity(env.rfidInitOk, env.lockInitOk);
          if !ok {
            return;
          }
        }
        SubscribeAll(mqtt, config.deviceUid);
        state := READY;
      }
    }

    /** `new Security(...)` and its `init` with the whitelist manager as authenticator; the
        service stays in place when `init` fails. */
    method CreateSecurity(rfidInitOk: bool, lockInitOk: bool) returns (ok: bool)
      requires Valid() && security == null
      modifies this
      ensures Valid() && security != null && fresh(security)
      ensures ok <==> rfidInitOk && lockInitOk
      ensures security.hasAuthenticator && security.hasRfid && (security.hasLock <==> rfidInitOk)
      ensures !security.awaitingAuth && !security.awaitingRegister
      ensures security.startTime == 0 && security.lockCalls == []
      ensures state == old(state) && config == old(config) && hasBt == old(hasBt) && hasWifi == old(hasWifi)
      ensures mqtt == old(mqtt) && restarted == old(restarted)
    {
      var s := new SecurityService.Security();
      ok := s.Init(true, rfidInitOk, lockInitOk);
      security := s;
    }

    /** The READY branch of `update`. */
    method RunReady(env: Environment)
      requires Valid() && state == READY && WellFormed(env)
      modifies this, ee, mqtt, mux, sensorManager, whitelistManager, security
      ensures Valid()
      ensures state == NextState(READY, env, true)
      ensures security == old(security)
      ensures config == old(config) && hasBt == old(hasBt) && hasWifi == old(hasWifi)
      ensures mqtt == old(mqtt) && restarted == old(restarted)
      ensures state == READY ==>
                mqtt.polls == old(mqtt.polls) + 1
                && mqtt.subscriptions == old(mqtt.subscriptions)
                && !whitelistManager.newUidReceived
                && security.awaitingAuth
                     == (old(security.awaitingAuth)
                         && !SecurityService.Ends(true, env.authResponseAvailable, env.now, old(security.startTime)))
                && security.awaitingRegister
                     == (old(security.awaitingRegister)
                         && !SecurityService.Ends(true, env.registerResponseAvailable, env.now,
                                                  old(security.startTime)))
                && sensorManager.lastClimateReadTime
                     == (if Sensors.Due(env.now, old(sensorManager.lastClimateReadTime), Sensors.SENSOR_READ_INTERVAL)
                         then env.now else old(sensorManager.lastClimateReadTime))
                && sensorManager.lastLdrReadTime
                     == (if Sensors.Due(env.now, old(sensorManager.lastLdrReadTime), Sensors.SENSOR_READ_INTERVAL)
                         then env.now else old(sensorManager.lastLdrReadTime))
                && sensorManager.lastMotionReadTime
                     == (if Sensors.Due(env.now, old(sensorManager.lastMotionReadTime),
                                        Sensors.SENSOR_READ_INTERVAL_MOTION)
                         then env.now else old(sensorManager.lastMotionReadTime))
                && ee.data == old(ee.data)
                && mqtt.published
                     == old(mqtt.published) + old(sensorManager.DuePublications(env.now, env.ldrValue, env.motion))
      ensures state == READY ==>
                security.lockCalls
                  == old(security.lockCalls)
                     + SecurityService.HandleCalls(old(security.hasLock), old(security.awaitingAuth),
                                                   old(security.awaitingRegister), old(security.startTime), env.now,
                                                   env.authResponseAvailable, env.registerResponseAvailable,
                                                   env.lastAuthOk, env.lastRegisterOk)
                && security.startTime == old(security.startTime) && security.hasLock == old(security.hasLock)
                && security.hasRfid == old(security.hasRfid)
                && security.hasAuthenticator == old(security.hasAuthenticator)
      ensures state == READY ==>
                whitelistManager.mode == old(whitelistManager.mode)
                && whitelistManager.registrationRequestId == old(whitelistManager.registrationRequestId)
                && mux.events == old(mux.events) + old(sensorManager.DueEvents(env.now, env.alarm))
      ensures state != READY ==>
                ee.data == old(ee.data) && mqtt.published == old(mqtt.published) && mqtt.polls == old(mqtt.polls)
                && mux.events == old(mux.events) && security.lockCalls == old(security.lockCalls)
    {
      if !env.wifiConnected {
        state := WAIT_CONFIG;
        return;
      }
      if !env.mqttConnected {
        state := CONNECT_MQTT;
        return;
      }
      ServeReady(env);
    }

    /** The READY branch of `update` once both links are up: the broker client, the
        whitelist, security, the relay link and the sensors each run once. */
    method ServeReady(env: Environment)
      requires Valid() && state == READY && WellFormed(env) && env.wifiConnected && env.mqttConnected
      modifies this, ee, mqtt, mux, sensorManager, whitelistManager, security
      ensures Valid() && state == READY
      ensures security == old(security)
      ensures config == old(config) && hasBt == old(hasBt) && hasWifi == old(hasWifi)
      ensures mqtt == old(mqtt) && restarted == old(restarted)
      ensures mqtt.polls == old(mqtt.polls) + 1
                && mqtt.subscriptions == old(mqtt.subscriptions)
                && !whitelistManager.newUidReceived
                && security.awaitingAuth
                     == (old(security.awaitingAuth)
                         && !SecurityService.Ends(true, env.authResponseAvailable, env.now, old(security.startTime)))
                && security.awaitingRegister
                     == (old(security.awaitingRegister)
                         && !SecurityService.Ends(true, env.registerResponseAvailable, env.now,
                                                  old(security.startTime)))
                && sensorManager.lastClimateReadTime
                     == (if Sensors.Due(env.now, old(sensorManager.lastClimateReadTime), Sensors.SENSOR_READ_INTERVAL)
                         then env.now else old(sensorManager.lastClimateReadTime))
                && sensorManager.lastLdrReadTime
                     == (if Sensors.Due(env.now, old(sensorManager.lastLdrReadTime), Sensors.SENSOR_READ_INTERVAL)
                         then env.now else old(sensorManager.lastLdrReadTime))
                && sensorManager.lastMotionReadTime
                     == (if Sensors.Due(env.now, old(sensorManager.lastMotionReadTime),
                                        Sensors.SENSOR_READ_INTERVAL_MOTION)
                         then env.now else old(sensorManager.lastMotionReadTime))
                && ee.data == old(ee.data)
                && mqtt.published
                     == old(mqtt.published) + old(sensorManager.DuePublications(env.now, env.ldrValue, env.motion))
      ensures security.lockCalls
                  == old(security.lockCalls)
                     + SecurityService.HandleCalls(old(security.hasLock), old(security.awaitingAuth),
                                                   old(security.awaitingRegister), old(security.startTime), env.now,
                                                   env.authResponseAvailable, env.registerResponseAvailable,
                                                   env.lastAuthOk, env.lastRegisterOk)
                && security.startTime == old(security.startTime) && security.hasLock == old(security.hasLock)
                && security.hasRfid == old(security.hasRfid)
                && security.hasAuthenticator == old(security.hasAuthenticator)
      ensures whitelistManager.mode == old(whitelistManager.mode)
                && whitelistManager.registrationRequestId == old(whitelistManager.registrationRequestId)
                && mux.events == old(mux.events) + old(sensorManager.DueEvents(env.now, env.alarm))
    {
      ServeLinks(env);
      sensorManager.Update(env.now, env.alarm, env.ldrValue, env.motion);
    }

    /** The part of `ServeReady` before the sensors: one poll of the broker client, the
        whitelist's update with no UID pending, security's `handle`, and the relay link's
        responses. */
    method ServeLinks(env: Environment)
      requires Valid() && state == READY && WellFormed(env)
      modifies ee, mqtt, whitelistManager, security
      ensures Valid()
      ensures mqtt.polls == old(mqtt.polls) + 1 && mqtt.subscriptions == old(mqtt.subscriptions)
      ensures mqtt.published == old(mqtt.published) && ee.data == old(ee.data)
      ensures whitelistManager.mode == old(whitelistManager.mode)
      ensures whitelistManager.registrationRequestId == old(whitelistManager.registrationRequestId)
      ensures security.awaitingAuth
                == (old(security.awaitingAuth)
                    && !SecurityService.Ends(true, env.authResponseAvailable, env.now, old(security.startTime)))
      ensures security.awaitingRegister
                == (old(security.awaitingRegister)
                    && !SecurityService.Ends(true, env.registerResponseAvailable, env.now, old(security.startTime)))
      ensures security.lockCalls
                == old(security.lockCalls)
                   + SecurityService.HandleCalls(old(security.hasLock), old(security.awaitingAuth),
                                                 old(security.awaitingRegister), old(security.startTime), env.now,
                                                 env.authResponseAvailable, env.registerResponseAvailable,
                                                 env.lastAuthOk, env.lastRegisterOk)
      ensures security.startTime == old(security.startTime) && security.hasLock == old(security.hasLock)
      ensures security.hasRfid == old(security.hasRfid) && security.hasAuthenticator == old(security.hasAuthenticator)
    {
      mqtt.Update();
      whitelistManager.Update(ee, env.registrationEncodeOk);
      security.Handle(env.now, env.authResponseAvailable, env.registerResponseAvailable,
                      env.lastAuthOk, env.lastRegisterOk);
      var handled := relayControl.HandleResponses(env.relayResponseAvailable, env.relayResponse);
    }

    // -------------------------------------------------------------------------------
    // `mqtt_callback_manager` and its handlers

    /** `handle_security`: a register request sets the request id and then registration mode;
        a revoke request calls `delete_uid` with the empty shared UID, which it rejects, so
        the store is never changed; a message that does not decode, or carries neither,
        changes nothing. */
    method HandleSecurity(rfid: Option<RfidEnvelope>)
      requires Valid()
      modifies ee, whitelistManager
      ensures Valid()
      ensures whitelistManager.deviceUid == old(whitelistManager.deviceUid)
      ensures whitelistManager.mqtt == old(whitelistManager.mqtt)
      ensures whitelistManager.uidLength == old(whitelistManager.uidLength)
      ensures whitelistManager.newUidReceived == old(whitelistManager.newUidReceived)
      ensures rfid.Some? && rfid.value.RegisterRequest? ==>
                whitelistManager.registrationRequestId == rfid.value.registrationId
                && whitelistManager.mode == WhitelistManager.REGISTRATION
      ensures !(rfid.Some? && rfid.value.RegisterRequest?) ==>
                whitelistManager.registrationRequestId == old(whitelistManager.registrationRequestId)
                && whitelistManager.mode == old(whitelistManager.mode)
      ensures ee.data == old(ee.data)
    {
      if rfid.None? {
        return;
      }
      match rfid.value {
        case RegisterRequest(id) =>
          whitelistManager.SetRegistrationRequestId(id);
          whitelistManager.SetModeRegistration();
        case RevokeRequest(_) =>
          var outcome := WhitelistStore.DeleteUid(ee, Some(SHARED_UID));
        case NoRfidPayload =>
      }
    }

    /** `handle_config_manager`: a decoded message is applied to the configuration record
        (an entry appended, or a full configuration set) and the record is then saved,
        whatever the payload was. */
    method HandleConfigManager(t: Option<ConfigTopic>, stale: ConfigData)
      requires Valid() && Shaped(stale)
      requires t.Some? && t.value.FullConfig? ==> FitsTables(t.value.full)
      modifies ee, configEngine
      ensures Valid()
      ensures t.None? ==> configEngine.config == old(configEngine.config) && ee.data == old(ee.data)
      ensures t.Some? ==>
                configEngine.config == Applied(old(configEngine.config), t.value, stale)
                && configEngine.Persisted(ee)
                && ee.data == Overwrite(old(ee.data), EEPROM_ADDRESS, Serialize(configEngine.config))
    {
      if t.None? {
        return;
      }
      ghost var before := ee.data;
      ApplyConfigTopic(configEngine, ee, t.value, stale);
      ghost var applied := ee.data;
      var saved := configEngine.SaveConfig(ee);
      if applied != before {
        OverwriteTwice(before, EEPROM_ADDRESS, Serialize(configEngine.config), Serialize(configEngine.config));
      }
    }

    /** `handle_relay_toggle`: a decoded relay state becomes a toggle command. */
    method HandleRelayToggle(r: Option<RelayStateMsg>, sendOk: bool)
      modifies relayControl
      ensures relayControl.initialized == old(relayControl.initialized)
      ensures relayControl.hasSerialModule == old(relayControl.hasSerialModule)
      ensures r.None? || !relayControl.initialized ==> relayControl.sent == old(relayControl.sent)
      ensures r.Some? && relayControl.initialized ==>
                relayControl.sent == old(relayControl.sent)
                  + [Relays.Encode(Relays.RelayCommand(Relays.TOGGLE_RELAY, r.value.relayType,
                                                       r.value.port, r.value.state))]
    {
      if r.Some? {
        var ok := relayControl.ToggleRelay(r.value.relayType, r.value.port, r.value.state, sendOk);
      }
    }

    /** The factory-reset handler: every EEPROM address is written with 0, then the board
        restarts. */
    method EraseAndRestart()
      requires Valid()
      modifies this, ee
      ensures Valid() && restarted
      ensures |ee.data| == EEPROM_LENGTH && forall a :: 0 <= a < |ee.data| ==> ee.data[a] == 0
      ensures state == old(state) && config == old(config) && hasBt == old(hasBt) && hasWifi == old(hasWifi)
      ensures mqtt == old(mqtt) && security == old(security)
    {
      var i := 0;
      while i < EEPROM_LENGTH
        modifies ee
        invariant 0 <= i <= EEPROM_LENGTH && ee.Valid()
        invariant ee.data == Zeroed(old(ee.data), 0, i)
      {
        ee.Write(i, 0);
        i := i + 1;
      }
      restarted := true;
    }

    /** `mqtt_callback_manager`: every handler whose topic equals `topic` runs, in order.
        `d` holds what the protobuf decoder yields for the payload under each handler's
        schema, `sendOk` the relay link's send result, `stale` the earlier contents of the
        full-config handler's local record. */
    method HandleMessage(topic: string, d: Decodings, sendOk: bool, stale: ConfigData)
      requires Valid() && Shaped(stale)
      requires d.config.Some? && d.config.value.FullConfig? ==> FitsTables(d.config.value.full)
      modifies this, ee, configEngine, relayControl, whitelistManager
      ensures Valid()
      ensures state == old(state) && config == old(config) && hasBt == old(hasBt) && hasWifi == old(hasWifi)
      ensures mqtt == old(mqtt) && security == old(security)
      ensures var routed := Route(config.deviceUid, topic);
              (routed == [] ==>
                 ee.data == old(ee.data) && configEngine.config == old(configEngine.config)
                 && relayControl.sent == old(relayControl.sent) && restarted == old(restarted)
                 && whitelistManager.mode == old(whitelistManager.mode)
                 && whitelistManager.registrationRequestId == old(whitelistManager.registrationRequestId))
      ensures topic == Topic(config.deviceUid, WifiCredentials) ==>
                restarted == (old(restarted) || d.wifi.Some?) && ee.data == old(ee.data)
                && configEngine.config == old(configEngine.config)
      ensures topic == Topic(config.deviceUid, Security) ==>
                restarted == old(restarted) && configEngine.config == old(configEngine.config)
                && ee.data == old(ee.data)
                && (d.rfid.Some? && d.rfid.value.RegisterRequest? ==>
                      whitelistManager.registrationRequestId == d.rfid.value.registrationId
                      && whitelistManager.mode == WhitelistManager.REGISTRATION)
                && (!(d.rfid.Some? && d.rfid.value.RegisterRequest?) ==>
                      whitelistManager.mode == old(whitelistManager.mode))
      ensures topic == Topic(config.deviceUid, ConfigModule) ==>
                restarted == old(restarted)
                && (d.config.None? ==> configEngine.config == old(configEngine.config) && ee.data == old(ee.data))
                && (d.config.Some? ==>
                      configEngine.config == Applied(old(configEngine.config), d.config.value, stale)
                      && configEngine.Persisted(ee)
                      && ee.data == Overwrite(old(ee.data), EEPROM_ADDRESS, Serialize(configEngine.config)))
      ensures topic == Topic(config.deviceUid, ConfigRemoval) ==>
                restarted == (old(restarted) || d.removal.Some?) && ee.data == old(ee.data)
                && configEngine.config == old(configEngine.config)
      ensures topic == Topic(config.deviceUid, RelayToggle) ==>
                restarted == old(restarted) && ee.data == old(ee.data)
                && (d.relay.Some? && relayControl.initialized ==>
                      relayControl.sent == old(relayControl.sent)
                        + [Relays.Encode(Relays.RelayCommand(Relays.TOGGLE_RELAY, d.relay.value.relayType,
                                                             d.relay.value.port, d.relay.value.state))])
      ensures topic == Topic(config.deviceUid, FactoryReset) ==>
                restarted && forall a :: 0 <= a < |ee.data| ==> ee.data[a] == 0
      ensures topic != Topic(config.deviceUid, RelayToggle) ==> relayControl.sent == old(relayControl.sent)
      ensures !(topic == Topic(config.deviceUid, Security) && d.rfid.Some? && d.rfid.value.RegisterRequest?) ==>
                whitelistManager.mode == old(whitelistManager.mode)
                && whitelistManager.registrationRequestId == old(whitelistManager.registrationRequestId)
    {
      var uid := config.deviceUid;
      RouteIsExact(uid, topic);
      ghost var routed := Route(uid, topic);
      if topic == Topic(uid, WifiCredentials) {
        assert WifiCredentials in routed;
        if d.wifi.Some? {
          restarted := true;
        }
      }
      if topic == Topic(uid, Security) {
        assert Security in routed;
        HandleSecurity(d.rfid);
      }
      if topic == Topic(uid, ConfigModule) {
        assert ConfigModule in routed;
        HandleConfigManager(d.config, stale);
      }
      if topic == Topic(uid, ConfigRemoval) {
        assert ConfigRemoval in routed;
        if d.removal.Some? {
          restarted := true;
        }
      }
      if topic == Topic(uid, RelayToggle) {
        assert RelayToggle in routed;
        HandleRelayToggle(d.relay, sendOk);
      }
      if topic == Topic(uid, FactoryReset) {
        assert FactoryReset in routed;
        EraseAndRestart();
      }
    }
  }
}
