/** The sensor scheduler: after `init` has created one module per configured climate, LDR
    and motion entry, each `update` runs every group whose interval has passed on the
    32-bit millisecond clock, publishing one message per module present. Sensor readings
    (and the float alarm test on climate readings) arrive as parameters indexed by entry. */
module Sensors {
  import opened Common
  import opened Configs
  import opened Mqtt
  import opened Multiplexer

  const SENSOR_READ_INTERVAL: uint32 := 5000
  const SENSOR_READ_INTERVAL_MOTION: uint32 := 100

  const HIGH: byte := 1
  const LOW: byte := 0

  function ClimateTopic(deviceId: string): string { "arduino/" + deviceId + "/climate" }
  function LdrTopic(deviceId: string): string { "arduino/" + deviceId + "/ldr" }
  function RelayTopic(deviceId: string): string { "arduino/" + deviceId + "/relay" }

  /** Whether a group last run at `last` is due at `now`. */
  predicate Due(now: uint32, last: uint32, interval: uint32) {
    Elapsed(now, last) >= interval
  }

  /** The climate messages for the first `n` entries: one per entry whose module exists. */
  function ClimatePublications(climates: seq<Climate>, slots: seq<bool>, n: nat, topic: string): seq<Publication>
    requires n <= |climates| && n <= |slots|
  {
    if n == 0 then []
    else ClimatePublications(climates, slots, n - 1, topic)
         + (if slots[n - 1] then [Publication(topic, ClimateData(climates[n - 1].id))] else [])
  }

  /** The select-pin writes of choosing channel `port` on a mux wired as `w`: none before
      the mux's `init`, and none for a channel the mux does not have. */
  function ChannelEvents(w: Wiring, port: byte): (r: seq<PinEvent>)
    requires w.pinsSize <= |w.pins|
    ensures |r| == (if w.initialized && port < w.muxSize then w.pinsSize else 0)
    ensures forall e :: e in r ==> e.DigitalWrite? && e.pin in w.pins
  {
    if w.initialized && port < w.muxSize then SelectWrites(w.pins, port, w.pinsSize) else []
  }

  /** The pin events of sounding (or silencing) the buzzer at `port` through a mux wired as `w`. */
  function BuzzerEvents(w: Wiring, port: byte, level: byte): seq<PinEvent>
    requires w.pinsSize <= |w.pins|
  {
    if !w.initialized then []
    else ChannelEvents(w, port) + [DigitalWrite(w.signalPin, level)]
  }

  /** The buzzer events for the first `n` climate entries: for each present module with a
      buzzer, HIGH when its reading is alarming, LOW otherwise. */
  function ClimateBuzzerEvents(w: Wiring, climates: seq<Climate>, slots: seq<bool>, n: nat,
                               alarm: nat -> bool): seq<PinEvent>
    requires w.pinsSize <= |w.pins|
    requires n <= |climates| && n <= |slots|
  {
    if n == 0 then []
    else ClimateBuzzerEvents(w, climates, slots, n - 1, alarm)
         + (if slots[n - 1] && climates[n - 1].hasBuzzer
            then BuzzerEvents(w, climates[n - 1].buzzerPort, if alarm(n - 1) then HIGH else LOW)
            else [])
  }

  function LdrPublications(ldrs: seq<Ldr>, slots: seq<bool>, n: nat, topic: string,
                           value: nat -> uint32): seq<Publication>
    requires n <= |ldrs| && n <= |slots|
  {
    if n == 0 then []
    else LdrPublications(ldrs, slots, n - 1, topic, value)
         + (if slots[n - 1] then [Publication(topic, LdrData(ldrs[n - 1].id, value(n - 1)))] else [])
  }

  /** The relay messages for the first `n` motion entries: HIGH to the entry's relay when its
      sensor saw movement, LOW otherwise. A sensor is read through the mux, which reads 0
      before its `init` (`live` false), so then every sensor reads as still. */
  function MotionPublications(motions: seq<Motion>, slots: seq<bool>, n: nat, topic: string,
                              live: bool, moved: nat -> bool): seq<Publication>
    requires n <= |motions| && n <= |slots|
  {
    if n == 0 then []
    else MotionPublications(motions, slots, n - 1, topic, live, moved)
         + (if slots[n - 1]
            then [Publication(topic, RelayState(motions[n - 1].relayType, motions[n - 1].relayPort,
                                                if live && moved(n - 1) then HIGH else LOW))]
            else [])
  }

  /** The pin events of reading the first `n` motion entries: the channel selection of each
      present sensor's port. */
  function MotionSelectEvents(w: Wiring, motions: seq<Motion>, slots: seq<bool>, n: nat): seq<PinEvent>
    requires w.pinsSize <= |w.pins|
    requires n <= |motions| && n <= |slots|
  {
    if n == 0 then []
    else MotionSelectEvents(w, motions, slots, n - 1)
         + (if slots[n - 1] then ChannelEvents(w, motions[n - 1].port) else [])
  }

  /** Whether one of the first `n` slots holds a module. */
  predicate AnyPresent(slots: seq<bool>, n: nat)
    requires n <= |slots|
  {
    n > 0 && (slots[n - 1] || AnyPresent(slots, n - 1))
  }

  /** One more climate entry appends its message and its buzzer events to what the entries
      before it produced. */
  lemma {:induction false} ClimateStep(w: Wiring, climates: seq<Climate>, slots: seq<bool>, i: nat, alarm: nat -> bool,
                    topic: string, published: seq<Publication>, events: seq<PinEvent>)
    requires w.pinsSize <= |w.pins| && i < |climates| && i < |slots|
    ensures published + ClimatePublications(climates, slots, i + 1, topic)
         == (published + ClimatePublications(climates, slots, i, topic))
            + (if slots[i] then [Publication(topic, ClimateData(climates[i].id))] else [])
    ensures events + ClimateBuzzerEvents(w, climates, slots, i + 1, alarm)
         == (events + ClimateBuzzerEvents(w, climates, slots, i, alarm))
            + (if slots[i] && climates[i].hasBuzzer
               then BuzzerEvents(w, climates[i].buzzerPort, if alarm(i) then HIGH else LOW) else [])
  {
    var p := ClimatePublications(climates, slots, i, topic);
    var x := if slots[i] then [Publication(topic, ClimateData(climates[i].id))] else [];
    assert ClimatePublications(climates, slots, i + 1, topic) == p + x;
    AppendAssoc(published, p, x);
    var e := ClimateBuzzerEvents(w, climates, slots, i, alarm);
    var y := if slots[i] && climates[i].hasBuzzer
             then BuzzerEvents(w, climates[i].buzzerPort, if alarm(i) then HIGH else LOW) else [];
    assert ClimateBuzzerEvents(w, climates, slots, i + 1, alarm) == e + y;
    AppendAssoc(events, e, y);
  }

  /** One more motion entry appends its message and its channel selection to what the
      entries before it produced. */
  lemma {:induction false} MotionStep(w: Wiring, motions: seq<Motion>, slots: seq<bool>, i: nat, live: bool,
                                      moved: nat -> bool, topic: string, published: seq<Publication>,
                                      events: seq<PinEvent>)
    requires w.pinsSize <= |w.pins| && i < |motions| && i < |slots|
    ensures published + MotionPublications(motions, slots, i + 1, topic, live, moved)
         == (published + MotionPublications(motions, slots, i, topic, live, moved))
            + (if slots[i]
               then [Publication(topic, RelayState(motions[i].relayType, motions[i].relayPort,
                                                   if live && moved(i) then HIGH else LOW))]
               else [])
    ensures events + MotionSelectEvents(w, motions, slots, i + 1)
         == (events + MotionSelectEvents(w, motions, slots, i))
            + (if slots[i] then ChannelEvents(w, motions[i].port) else [])
  {
    var p := MotionPublications(motions, slots, i, topic, live, moved);
    var x := if slots[i]
             then [Publication(topic, RelayState(motions[i].relayType, motions[i].relayPort,
                                                 if live && moved(i) then HIGH else LOW))]
             else [];
    assert MotionPublications(motions, slots, i + 1, topic, live, moved) == p + x;
    AppendAssoc(published, p, x);
    var e := MotionSelectEvents(w, motions, slots, i);
    var y := if slots[i] then ChannelEvents(w, motions[i].port) else [];
    assert MotionSelectEvents(w, motions, slots, i + 1) == e + y;
    AppendAssoc(events, e, y);
  }

  /** With no module present, a group publishes nothing and selects no channel. */
  lemma {:induction false} NoModulesNoMotionMessages(w: Wiring, motions: seq<Motion>, slots: seq<bool>, n: nat,
                                                     topic: string, live: bool, moved: nat -> bool)
    requires w.pinsSize <= |w.pins|
    requires n <= |motions| && n <= |slots|
    requires !AnyPresent(slots, n)
    ensures MotionPublications(motions, slots, n, topic, live, moved) == []
    ensures MotionSelectEvents(w, motions, slots, n) == []
  {
    if n > 0 {
      assert !slots[n - 1];
      NoModulesNoMotionMessages(w, motions, slots, n - 1, topic, live, moved);
    }
  }

  /** Every relay message goes to the relay of its entry, with level HIGH or LOW. */
  lemma {:induction false} MotionMessagesAreRelayLevels(motions: seq<Motion>, slots: seq<bool>, n: nat,
                                                        topic: string, live: bool, moved: nat -> bool)
    requires n <= |motions| && n <= |slots|
    ensures var ps := MotionPublications(motions, slots, n, topic, live, moved);
            |ps| <= n
            && forall p :: p in ps ==>
                 p.topic == topic && p.payload.RelayState?
                 && (p.payload.level == HIGH || p.payload.level == LOW)
                 && exists i :: 0 <= i < n && slots[i]
                      && p.payload.relayType == motions[i].relayType && p.payload.port == motions[i].relayPort
  {
    if n > 0 {
      MotionMessagesAreRelayLevels(motions, slots, n - 1, topic, live, moved);
    }
  }

  class SensorManager {
    var configEngine: ConfigEngine?
    var mqtt: MqttManager?
    var mux: Mux?
    var deviceId: string

    /** Whether each module slot holds a module. */
    const climateModules: array<bool>
    const ldrModules: array<bool>
    const pirModules: array<bool>

    var lastClimateReadTime: uint32
    var lastLdrReadTime: uint32
    var lastMotionReadTime: uint32

    ghost predicate Valid()
      reads this
    {
      climateModules.Length == MAX_CLIMATE && ldrModules.Length == MAX_LDR
      && pirModules.Length == MAX_MOTION && climateModules != ldrModules
    }

    /** Whether `init` has taken its collaborators. */
    predicate Ready()
      reads this
    {
      configEngine != null && mqtt != null && mux != null
    }

    /** The collaborators are in the shape processing relies on: the record's counts are
        within the slot arrays, since the loops index the arrays by them. */
    ghost predicate Wired()
      reads this, configEngine, mux
    {
      Ready() && configEngine.Valid() && mux.Valid()
      && configEngine.config.climateSize <= MAX_CLIMATE
      && configEngine.config.ldrSize <= MAX_LDR
      && configEngine.config.motionSize <= MAX_MOTION
    }

    constructor ()
      ensures Valid() && !Ready() && configEngine == null && mqtt == null && mux == null
      ensures fresh(climateModules) && fresh(ldrModules) && fresh(pirModules)
      ensures climateModules[..] == [false, false] && ldrModules[..] == [false, false]
      ensures pirModules[..] == [false, false, false, false]
      ensures lastClimateReadTime == 0 && lastLdrReadTime == 0 && lastMotionReadTime == 0
    {
      configEngine, mqtt, mux, deviceId := null, null, null, "";
      climateModules := new bool[MAX_CLIMATE](_ => false);
      ldrModules := new bool[MAX_LDR](_ => false);
      pirModules := new bool[MAX_MOTION](_ => false);
      lastClimateReadTime, lastLdrReadTime, lastMotionReadTime := 0, 0, 0;
    }

    /** Takes the collaborators and creates the modules: a climate slot is filled only when
        that module's own `init` succeeded (`climateInitOk`), every configured LDR and
        motion slot is filled. Missing collaborators are refused with nothing stored. */
    method Init(ce: ConfigEngine?, mq: MqttManager?, mx: Mux?, id: string, climateInitOk: seq<bool>)
      returns (ok: bool)
      requires Valid() && |climateInitOk| == MAX_CLIMATE
      requires ce != null ==> ce.Valid() && ce.config.climateSize <= MAX_CLIMATE
                              && ce.config.ldrSize <= MAX_LDR && ce.config.motionSize <= MAX_MOTION
      requires mx != null ==> mx.Valid()
      modifies this, climateModules, ldrModules, pirModules
      ensures Valid()
      ensures ok <==> ce != null && mq != null && mx != null
      ensures !ok ==> configEngine == old(configEngine) && mqtt == old(mqtt) && mux == old(mux)
                      && deviceId == old(deviceId) && climateModules[..] == old(climateModules[..])
                      && ldrModules[..] == old(ldrModules[..]) && pirModules[..] == old(pirModules[..])
      ensures ok ==> configEngine == ce && mqtt == mq && mux == mx && deviceId == id && Wired()
      ensures ok ==> forall i :: 0 <= i < MAX_CLIMATE ==>
                       climateModules[i] == (if i < ce.config.climateSize then climateInitOk[i]
                                             else old(climateModules[i]))
      ensures ok ==> forall i :: 0 <= i < MAX_LDR ==>
                       ldrModules[i] == (i < ce.config.ldrSize || old(ldrModules[i]))
      ensures ok ==> forall i :: 0 <= i < MAX_MOTION ==>
                       pirModules[i] == (i < ce.config.motionSize || old(pirModules[i]))
      ensures lastClimateReadTime == old(lastClimateReadTime) && lastLdrReadTime == old(lastLdrReadTime)
      ensures lastMotionReadTime == old(lastMotionReadTime)
    {
      if ce == null || mq == null || mx == null {
        return false;
      }
      configEngine, mqtt, deviceId, mux := ce, mq, id, mx;
      var config := ce.config;
      var i := 0;
      while i < config.climateSize
        invariant 0 <= i <= config.climateSize
        invariant configEngine == ce && mqtt == mq && mux == mx && deviceId == id
        invariant lastClimateReadTime == old(lastClimateReadTime) && lastLdrReadTime == old(lastLdrReadTime)
        invariant lastMotionReadTime == old(lastMotionReadTime)
        invariant forall k :: 0 <= k < MAX_CLIMATE ==>
                    climateModules[k] == (if k < i then climateInitOk[k] else old(climateModules[k]))
        invariant ldrModules[..] == old(ldrModules[..]) && pirModules[..] == old(pirModules[..])
      {
        climateModules[i] := true;
        if !climateInitOk[i] {
          climateModules[i] := false;
          i := i + 1;
          continue;
        }
        i := i + 1;
      }
      i := 0;
      while i < config.ldrSize
        invariant 0 <= i <= config.ldrSize
        invariant configEngine == ce && mqtt == mq && mux == mx && deviceId == id
        invariant lastClimateReadTime == old(lastClimateReadTime) && lastLdrReadTime == old(lastLdrReadTime)
        invariant lastMotionReadTime == old(lastMotionReadTime)
        invariant forall k :: 0 <= k < MAX_LDR ==> ldrModules[k] == (k < i || old(ldrModules[k]))
        invariant forall k :: 0 <= k < MAX_CLIMATE ==>
                    climateModules[k] == (if k < config.climateSize then climateInitOk[k] else old(climateModules[k]))
        invariant pirModules[..] == old(pirModules[..])
      {
        ldrModules[i] := true;
        i := i + 1;
      }
      i := 0;
      while i < config.motionSize
        invariant 0 <= i <= config.motionSize
        invariant configEngine == ce && mqtt == mq && mux == mx && deviceId == id
        invariant lastClimateReadTime == old(lastClimateReadTime) && lastLdrReadTime == old(lastLdrReadTime)
        invariant lastMotionReadTime == old(lastMotionReadTime)
        invariant forall k :: 0 <= k < MAX_MOTION ==> pirModules[k] == (k < i || old(pirModules[k]))
        invariant forall k :: 0 <= k < MAX_LDR ==> ldrModules[k] == (k < config.ldrSize || old(ldrModules[k]))
        invariant forall k :: 0 <= k < MAX_CLIMATE ==>
                    climateModules[k] == (if k < config.climateSize then climateInitOk[k] else old(climateModules[k]))
      {
        pirModules[i] := true;
        i := i + 1;
      }
      return true;
    }

    /** Drives the buzzer at mux channel `port` to `level`: digital output mode, select the
        channel, write. */
    method SetBuzzerState(port: byte, level: byte)
      requires mux != null ==> mux.Valid()
      modifies mux
      ensures mux != null ==>
                mux.Valid() && mux.CurrentWiring() == old(mux.CurrentWiring())
                && mux.events == old(mux.events) + BuzzerEvents(old(mux.CurrentWiring()), port, level)
                && mux.mode == DIGITAL && mux.signal == MUX_OUTPUT
    {
      if mux == null {
        return;
      }
      mux.MMode(DIGITAL);
      mux.SMode(MUX_OUTPUT);
      mux.SelectChannel(port);
      mux.Write(level);
    }

    /** Publishes the reading of one climate module and, when the entry has a buzzer, sounds
        it for an alarming reading and silences it otherwise. */
    method ReportClimate(c: Climate, alarmed: bool)
      requires mqtt != null && mux != null && mux.Valid()
      modifies mqtt, mux
      ensures mux.Valid() && mux.CurrentWiring() == old(mux.CurrentWiring())
      ensures mqtt.published == old(mqtt.published) + [Publication(ClimateTopic(deviceId), ClimateData(c.id))]
      ensures mux.events == old(mux.events)
                + (if c.hasBuzzer then BuzzerEvents(old(mux.CurrentWiring()), c.buzzerPort, if alarmed then HIGH else LOW)
                   else [])
      ensures mqtt.subscriptions == old(mqtt.subscriptions) && mqtt.polls == old(mqtt.polls)
    {
      mqtt.Publish(ClimateTopic(deviceId), ClimateData(c.id));
      if c.hasBuzzer {
        SetBuzzerState(c.buzzerPort, if alarmed then HIGH else LOW);
      }
    }

    /** Publishes one climate message per configured entry whose module exists, and sets the
        buzzer of each such entry that has one. Nothing happens before `init`. */
    method ProcessClimateSensors(alarm: nat -> bool)
      requires Valid() && (Ready() ==> Wired())
      modifies mqtt, mux
      ensures !Ready() ==> (mqtt != null ==> mqtt.published == old(mqtt.published))
                           && (mux != null ==> mux.events == old(mux.events))
      ensures Ready() ==>
                mqtt.published == old(mqtt.published)
                  + ClimatePublications(configEngine.config.climates, climateModules[..],
                                        configEngine.config.climateSize, ClimateTopic(deviceId))
                && mux.Valid() && mux.CurrentWiring() == old(mux.CurrentWiring())
                && mux.events == old(mux.events)
                  + ClimateBuzzerEvents(old(mux.CurrentWiring()), configEngine.config.climates,
                                        climateModules[..], configEngine.config.climateSize, alarm)
      ensures mqtt != null ==> mqtt.subscriptions == old(mqtt.subscriptions) && mqtt.polls == old(mqtt.polls)
    {
      if configEngine == null || mqtt == null || mux == null {
        return;
      }
      var config := configEngine.config;
      ghost var slots := climateModules[..];
      ghost var w := mux.CurrentWiring();
      ghost var topic := ClimateTopic(deviceId);
      var i := 0;
      while i < config.climateSize
        invariant 0 <= i <= config.climateSize
        invariant mux.Valid() && mux.CurrentWiring() == w
        invariant mqtt.published == old(mqtt.published) + ClimatePublications(config.climates, slots, i, topic)
        invariant mux.events == old(mux.events) + ClimateBuzzerEvents(w, config.climates, slots, i, alarm)
        invariant mqtt.subscriptions == old(mqtt.subscriptions) && mqtt.polls == old(mqtt.polls)
      {
        var c := config.climates[i];
        ClimateStep(w, config.climates, slots, i, alarm, topic, old(mqtt.published), old(mux.events));
        if !climateModules[i] {
          i := i + 1;
          continue;
        }
        ReportClimate(c, alarm(i));
        i := i + 1;
      }
    }

    /** Publishes each present LDR module's reading. Nothing happens before `init`. */
    method ProcessLdrSensors(value: nat -> uint32)
      requires Valid() && (Ready() ==> Wired())
      modifies mqtt
      ensures !Ready() ==> (mqtt != null ==> mqtt.published == old(mqtt.published))
      ensures Ready() ==>
                mqtt.published == old(mqtt.published)
                  + LdrPublications(configEngine.config.ldrs, ldrModules[..], configEngine.config.ldrSize,
                                    LdrTopic(deviceId), value)
      ensures mqtt != null ==> mqtt.subscriptions == old(mqtt.subscriptions) && mqtt.polls == old(mqtt.polls)
    {
      if configEngine == null || mqtt == null || mux == null {
        return;
      }
      var config := configEngine.config;
      var i := 0;
      while i < config.ldrSize
        invariant 0 <= i <= config.ldrSize
        invariant mqtt.published == old(mqtt.published)
                    + LdrPublications(config.ldrs, ldrModules[..], i, LdrTopic(deviceId), value)
        invariant mqtt.subscriptions == old(mqtt.subscriptions) && mqtt.polls == old(mqtt.polls)
      {
        var l := config.ldrs[i];
        if !ldrModules[i] {
          i := i + 1;
          continue;
        }
        mqtt.Publish(LdrTopic(deviceId), LdrData(l.id, value(i)));
        i := i + 1;
      }
    }

    /** `PIR::detect_movement` through the mux: digital input mode, the sensor's channel,
        then a read of the signal pin, whose level is HIGH exactly when the sensor is
        `moving`. Movement is seen only on a mux that has been initialised. */
    method DetectMovement(port: byte, moving: bool) returns (movement: bool)
      requires mux != null && mux.Valid()
      modifies mux
      ensures mux.Valid() && mux.CurrentWiring() == old(mux.CurrentWiring())
      ensures movement <==> old(mux.initialized) && moving
      ensures mux.events == old(mux.events) + ChannelEvents(old(mux.CurrentWiring()), port)
      ensures mux.mode == DIGITAL && mux.signal == MUX_INPUT
    {
      mux.MMode(DIGITAL);
      mux.SMode(MUX_INPUT);
      mux.SelectChannel(port);
      var level := mux.Read(if moving then HIGH else LOW);
      movement := level == HIGH;
    }

    /** Publishes HIGH or LOW to the relay of each present motion sensor, by whether it saw
        movement when read through the mux. Nothing happens before `init`. */
    method ProcessMotionSensors(moved: nat -> bool)
      requires Valid() && (Ready() ==> Wired())
      modifies mqtt, mux
      ensures !Ready() ==> (mqtt != null ==> mqtt.published == old(mqtt.published))
                           && (mux != null ==> mux.events == old(mux.events))
      ensures Ready() ==>
                mqtt.published == old(mqtt.published)
                  + MotionPublications(configEngine.config.motions, pirModules[..],
                                       configEngine.config.motionSize, RelayTopic(deviceId),
                                       old(mux.initialized), moved)
                && mux.Valid() && mux.CurrentWiring() == old(mux.CurrentWiring())
                && mux.events == old(mux.events)
                  + MotionSelectEvents(old(mux.CurrentWiring()), configEngine.config.motions, pirModules[..],
                                       configEngine.config.motionSize)
      ensures Ready() && AnyPresent(pirModules[..], configEngine.config.motionSize) ==>
                mux.mode == DIGITAL && mux.signal == MUX_INPUT
      ensures Ready() && !AnyPresent(pirModules[..], configEngine.config.motionSize) ==>
                mux.mode == old(mux.mode) && mux.signal == old(mux.signal)
      ensures mqtt != null ==> mqtt.subscriptions == old(mqtt.subscriptions) && mqtt.polls == old(mqtt.polls)
    {
      if configEngine == null || mqtt == null || mux == null {
        return;
      }
      var config := configEngine.config;
      ghost var slots := pirModules[..];
      ghost var w := mux.CurrentWiring();
      ghost var topic := RelayTopic(deviceId);
      var i := 0;
      while i < config.motionSize
        invariant 0 <= i <= config.motionSize
        invariant mux.Valid() && mux.CurrentWiring() == w
        invariant mqtt.published == old(mqtt.published)
                    + MotionPublications(config.motions, slots, i, topic, w.initialized, moved)
        invariant mux.events == old(mux.events) + MotionSelectEvents(w, config.motions, slots, i)
        invariant AnyPresent(slots, i) ==> mux.mode == DIGITAL && mux.signal == MUX_INPUT
        invariant !AnyPresent(slots, i) ==> mux.mode == old(mux.mode) && mux.signal == old(mux.signal)
        invariant mqtt.subscriptions == old(mqtt.subscriptions) && mqtt.polls == old(mqtt.polls)
      {
        var m := config.motions[i];
        MotionStep(w, config.motions, slots, i, w.initialized, moved, topic, old(mqtt.published), old(mux.events));
        if !pirModules[i] {
          assert AnyPresent(slots, i + 1) == AnyPresent(slots, i);
          i := i + 1;
          continue;
        }
        var movement := DetectMovement(m.port, moved(i));
        assert AnyPresent(slots, i + 1);
        if movement {
          mqtt.Publish(RelayTopic(deviceId), RelayState(m.relayType, m.relayPort, HIGH));
        } else {
          mqtt.Publish(RelayTopic(deviceId), RelayState(m.relayType, m.relayPort, LOW));
        }
        i := i + 1;
      }
    }

    /** What one `update` at `now` publishes: the messages of each group whose interval has
        passed, climate first, then light, then motion; nothing before `init`. */
    ghost function DuePublications(now: uint32, value: nat -> uint32, moved: nat -> bool): seq<Publication>
      reads this, configEngine, mux, climateModules, ldrModules, pirModules
      requires Valid() && (Ready() ==> Wired())
    {
      if !Ready() then []
      else
        var config := configEngine.config;
        (if Due(now, lastClimateReadTime, SENSOR_READ_INTERVAL)
         then ClimatePublications(config.climates, climateModules[..], config.climateSize, ClimateTopic(deviceId))
         else [])
        + (if Due(now, lastLdrReadTime, SENSOR_READ_INTERVAL)
           then LdrPublications(config.ldrs, ldrModules[..], config.ldrSize, LdrTopic(deviceId), value)
           else [])
        + (if Due(now, lastMotionReadTime, SENSOR_READ_INTERVAL_MOTION)
           then MotionPublications(config.motions, pirModules[..], config.motionSize, RelayTopic(deviceId),
                                   mux.initialized, moved)
           else [])
    }

    /** The mux pin events of one `update` at `now`: the buzzer events of a due climate
        pass, then the channel selections of a due motion pass; light sensors are read
        without the mux. Nothing before `init`. */
    ghost function DueEvents(now: uint32, alarm: nat -> bool): seq<PinEvent>
      reads this, configEngine, mux, climateModules, pirModules
      requires Valid() && (Ready() ==> Wired())
    {
      if !Ready() then []
      else
        var config := configEngine.config;
        var w := mux.CurrentWiring();
        (if Due(now, lastClimateReadTime, SENSOR_READ_INTERVAL)
         then ClimateBuzzerEvents(w, config.climates, climateModules[..], config.climateSize, alarm)
         else [])
        + (if Due(now, lastMotionReadTime, SENSOR_READ_INTERVAL_MOTION)
           then MotionSelectEvents(w, config.motions, pirModules[..], config.motionSize)
           else [])
    }

    /** The climate block of `update`: when its interval has passed, the climate sensors
        are processed and the interval restarts at `now`. */
    method RunClimateGroup(now: uint32, alarm: nat -> bool)
      requires Valid() && (Ready() ==> Wired())
      modifies this`lastClimateReadTime, mqtt, mux
      ensures lastClimateReadTime == (if Due(now, old(lastClimateReadTime), SENSOR_READ_INTERVAL) then now
                                      else old(lastClimateReadTime))
      ensures Ready() ==> Wired() && mux.CurrentWiring() == old(mux.CurrentWiring())
      ensures mqtt != null ==>
                mqtt.published == old(mqtt.published)
                  + (if Ready() && Due(now, old(lastClimateReadTime), SENSOR_READ_INTERVAL)
                     then ClimatePublications(configEngine.config.climates, climateModules[..],
                                              configEngine.config.climateSize, ClimateTopic(deviceId))
                     else [])
                && mqtt.subscriptions == old(mqtt.subscriptions) && mqtt.polls == old(mqtt.polls)
      ensures mux != null ==>
                mux.events == old(mux.events)
                  + (if Ready() && Due(now, old(lastClimateReadTime), SENSOR_READ_INTERVAL)
                     then ClimateBuzzerEvents(old(mux.CurrentWiring()), configEngine.config.climates,
                                              climateModules[..], configEngine.config.climateSize, alarm)
                     else [])
    {
      if Elapsed(now, lastClimateReadTime) >= SENSOR_READ_INTERVAL {
        ProcessClimateSensors(alarm);
        lastClimateReadTime := now;
      }
    }

    /** The light block of `update`. */
    method RunLdrGroup(now: uint32, value: nat -> uint32)
      requires Valid() && (Ready() ==> Wired())
      modifies this`lastLdrReadTime, mqtt
      ensures lastLdrReadTime == (if Due(now, old(lastLdrReadTime), SENSOR_READ_INTERVAL) then now
                                  else old(lastLdrReadTime))
      ensures mqtt != null ==>
                mqtt.published == old(mqtt.published)
                  + (if Ready() && Due(now, old(lastLdrReadTime), SENSOR_READ_INTERVAL)
                     then LdrPublications(configEngine.config.ldrs, ldrModules[..], configEngine.config.ldrSize,
                                          LdrTopic(deviceId), value)
                     else [])
                && mqtt.subscriptions == old(mqtt.subscriptions) && mqtt.polls == old(mqtt.polls)
    {
      if Elapsed(now, lastLdrReadTime) >= SENSOR_READ_INTERVAL {
        ProcessLdrSensors(value);
        lastLdrReadTime := now;
      }
    }

    /** The motion block of `update`. */
    method RunMotionGroup(now: uint32, moved: nat -> bool)
      requires Valid() && (Ready() ==> Wired())
      modifies this`lastMotionReadTime, mqtt, mux
      ensures lastMotionReadTime == (if Due(now, old(lastMotionReadTime), SENSOR_READ_INTERVAL_MOTION) then now
                                     else old(lastMotionReadTime))
      ensures Ready() ==> Wired() && mux.CurrentWiring() == old(mux.CurrentWiring())
      ensures mqtt != null ==>
                mqtt.published == old(mqtt.published)
                  + (if Ready() && Due(now, old(lastMotionReadTime), SENSOR_READ_INTERVAL_MOTION)
                     then MotionPublications(configEngine.config.motions, pirModules[..],
                                             configEngine.config.motionSize, RelayTopic(deviceId),
                                             old(mux.initialized), moved)
                     else [])
                && mqtt.subscriptions == old(mqtt.subscriptions) && mqtt.polls == old(mqtt.polls)
      ensures mux != null ==>
                mux.events == old(mux.events)
                  + (if Ready() && Due(now, old(lastMotionReadTime), SENSOR_READ_INTERVAL_MOTION)
                     then MotionSelectEvents(old(mux.CurrentWiring()), configEngine.config.motions, pirModules[..],
                                             configEngine.config.motionSize)
                     else [])
    {
      if Elapsed(now, lastMotionReadTime) >= SENSOR_READ_INTERVAL_MOTION {
        ProcessMotionSensors(moved);
        lastMotionReadTime := now;
      }
    }

    /** Runs each group whose interval has passed since it last ran, on the unsigned clock,
        and restarts that group's interval at `now`. */
    method Update(now: uint32, alarm: nat -> bool, value: nat -> uint32, moved: nat -> bool)
      requires Valid() && (Ready() ==> Wired())
      modifies this, mqtt, mux
      ensures Valid() && configEngine == old(configEngine) && mqtt == old(mqtt) && mux == old(mux)
      ensures deviceId == old(deviceId)
      ensures lastClimateReadTime == (if Due(now, old(lastClimateReadTime), SENSOR_READ_INTERVAL) then now
                                      else old(lastClimateReadTime))
      ensures lastLdrReadTime == (if Due(now, old(lastLdrReadTime), SENSOR_READ_INTERVAL) then now
                                  else old(lastLdrReadTime))
      ensures lastMotionReadTime == (if Due(now, old(lastMotionReadTime), SENSOR_READ_INTERVAL_MOTION) then now
                                     else old(lastMotionReadTime))
      ensures mqtt != null ==> mqtt.published == old(mqtt.published) + old(DuePublications(now, value, moved))
      ensures mux != null ==> mux.events == old(mux.events) + old(DueEvents(now, alarm))
      ensures mqtt != null ==> mqtt.subscriptions == old(mqtt.subscriptions) && mqtt.polls == old(mqtt.polls)
      ensures Ready() ==> mux.Valid() && mux.CurrentWiring() == old(mux.CurrentWiring())
    {
      ghost var p0 := if mqtt != null then mqtt.published else [];
      ghost var e0 := if mux != null then mux.events else [];
      ghost var due := DuePublications(now, value, moved);
      ghost var dueEvents := DueEvents(now, alarm);
      RunClimateGroup(now, alarm);
      ghost var p1 := if mqtt != null then mqtt.published else [];
      ghost var e1 := if mux != null then mux.events else [];
      RunLdrGroup(now, value);
      ghost var p2 := if mqtt != null then mqtt.published else [];
      RunMotionGroup(now, moved);
      if Ready() {
        ghost var climate := p1[|p0|..];
        ghost var ldr := p2[|p1|..];
        ghost var motion := mqtt.published[|p2|..];
        assert due == climate + ldr + motion;
        AppendAssoc(p0, climate, ldr);
        AppendAssoc(p0, climate + ldr, motion);
        ghost var buzzer := e1[|e0|..];
        ghost var select := mux.events[|e1|..];
        assert dueEvents == buzzer + select;
        AppendAssoc(e0, buzzer, select);
      }
    }

    /** The destructor: every slot that holds a module is emptied. */
    method Destroy()
      requires Valid()
      modifies climateModules, ldrModules, pirModules
      ensures forall i :: 0 <= i < MAX_CLIMATE ==> !climateModules[i]
      ensures forall i :: 0 <= i < MAX_LDR ==> !ldrModules[i]
      ensures forall i :: 0 <= i < MAX_MOTION ==> !pirModules[i]
    {
      var i := 0;
      while i < MAX_CLIMATE
        invariant 0 <= i <= MAX_CLIMATE
        invariant forall k :: 0 <= k < i ==> !climateModules[k]
      {
        if climateModules[i] {
          climateModules[i] := false;
        }
        i := i + 1;
      }
      i := 0;
      while i < MAX_LDR
        invariant 0 <= i <= MAX_LDR
        invariant forall k :: 0 <= k < i ==> !ldrModules[k]
        invariant forall k :: 0 <= k < MAX_CLIMATE ==> !climateModules[k]
      {
        if ldrModules[i] {
          ldrModules[i] := false;
        }
        i := i + 1;
      }
      i := 0;
      while i < MAX_MOTION
        invariant 0 <= i <= MAX_MOTION
        invariant forall k :: 0 <= k < i ==> !pirModules[k]
        invariant forall k :: 0 <= k < MAX_LDR ==> !ldrModules[k]
        invariant forall k :: 0 <= k < MAX_CLIMATE ==> !climateModules[k]
      {
        if pirModules[i] {
          pirModules[i] := false;
        }
        i := i + 1;
      }
    }
  }
}
