/** The sensor configuration: a versioned record holding up to 2 climate modules, 2 light
    sensors (LDR) and 4 motion sensors, kept in memory and mirrored byte for byte into
    EEPROM at address 1024. New entries are appended; lookups return the first entry
    with the requested id. */
module Configs {
  import opened Common

  const EEPROM_ADDRESS: nat := 1024
  const MAX_CLIMATE: nat := 2
  const MAX_LDR: nat := 2
  const MAX_MOTION: nat := 4

  /** `sizeof(config_data)`: six header bytes, two 5-byte climate records, two 2-byte LDR
      records and four 4-byte motion records, with no padding (every field is one byte). */
  const CONFIG_SIZE: nat := 36

  datatype Climate = Climate(id: byte, dht22Port: byte, aqiPort: byte, hasBuzzer: bool, buzzerPort: byte)
  datatype Ldr = Ldr(id: byte, port: byte)
  datatype Motion = Motion(id: byte, port: byte, relayPort: byte, relayType: byte)

  /** `config_data`. `relaySize` is a count with no table behind it. */
  datatype ConfigData = ConfigData(
    version: byte, size: byte,
    climateSize: byte, ldrSize: byte, motionSize: byte, relaySize: byte,
    climates: seq<Climate>, ldrs: seq<Ldr>, motions: seq<Motion>)

  const ZERO_CLIMATE := Climate(0, 0, 0, false, 0)
  const ZERO_LDR := Ldr(0, 0)
  const ZERO_MOTION := Motion(0, 0, 0, 0)

  /** The tables have their fixed capacities. */
  predicate Shaped(c: ConfigData) {
    |c.climates| == MAX_CLIMATE && |c.ldrs| == MAX_LDR && |c.motions| == MAX_MOTION
  }

  /** A value-initialised `config_data`: every byte zero. */
  const ZERO_CONFIG := ConfigData(0, 0, 0, 0, 0, 0,
    [ZERO_CLIMATE, ZERO_CLIMATE], [ZERO_LDR, ZERO_LDR],
    [ZERO_MOTION, ZERO_MOTION, ZERO_MOTION, ZERO_MOTION])

  /** `default_config`: version 1, the structure's size, empty tables. */
  const DEFAULT_CONFIG := ZERO_CONFIG.(version := 1, size := CONFIG_SIZE)

  /** The header `load_config` accepts. */
  predicate ValidHeader(c: ConfigData) {
    c.version == 1 && c.size == CONFIG_SIZE
  }

  /** What `load_config` does to a rejected header: version and size set, every count zeroed,
      table contents kept. */
  function ResetHeader(c: ConfigData): ConfigData {
    c.(version := 1, size := CONFIG_SIZE, climateSize := 0, ldrSize := 0, motionSize := 0, relaySize := 0)
  }

  // ---------------------------------------------------------------------------------
  // The in-memory byte image that `EEPROM.put` and `EEPROM.get` copy.

  function BoolByte(b: bool): byte {
    if b then 1 else 0
  }

  /** The bytes of `c` in field order: the six header bytes, then each climate entry (id,
      DHT22 port, AQI port, buzzer flag, buzzer port), each LDR entry (id, port) and each
      motion entry (id, port, relay port, relay type). */
  function Serialize(c: ConfigData): (b: seq<byte>)
    requires Shaped(c)
    ensures |b| == CONFIG_SIZE
  {
    [c.version, c.size, c.climateSize, c.ldrSize, c.motionSize, c.relaySize,
     c.climates[0].id, c.climates[0].dht22Port, c.climates[0].aqiPort,
     BoolByte(c.climates[0].hasBuzzer), c.climates[0].buzzerPort,
     c.climates[1].id, c.climates[1].dht22Port, c.climates[1].aqiPort,
     BoolByte(c.climates[1].hasBuzzer), c.climates[1].buzzerPort,
     c.ldrs[0].id, c.ldrs[0].port, c.ldrs[1].id, c.ldrs[1].port,
     c.motions[0].id, c.motions[0].port, c.motions[0].relayPort, c.motions[0].relayType,
     c.motions[1].id, c.motions[1].port, c.motions[1].relayPort, c.motions[1].relayType,
     c.motions[2].id, c.motions[2].port, c.motions[2].relayPort, c.motions[2].relayType,
     c.motions[3].id, c.motions[3].port, c.motions[3].relayPort, c.motions[3].relayType]
  }

  function ClimateAt(b: seq<byte>, at: nat): Climate
    requires at + 5 <= |b|
  {
    Climate(b[at], b[at + 1], b[at + 2], b[at + 3] != 0, b[at + 4])
  }

  function LdrAt(b: seq<byte>, at: nat): Ldr
    requires at + 2 <= |b|
  {
    Ldr(b[at], b[at + 1])
  }

  function MotionAt(b: seq<byte>, at: nat): Motion
    requires at + 4 <= |b|
  {
    Motion(b[at], b[at + 1], b[at + 2], b[at + 3])
  }

  /** The record held by the 36 bytes of `b` from `at` on. A `bool` byte other than 0 reads
      as true. */
  function ParseAt(b: seq<byte>, at: nat): (c: ConfigData)
    requires at + CONFIG_SIZE <= |b|
    ensures Shaped(c)
  {
    ConfigData(b[at], b[at + 1], b[at + 2], b[at + 3], b[at + 4], b[at + 5],
      [ClimateAt(b, at + 6), ClimateAt(b, at + 11)],
      [LdrAt(b, at + 16), LdrAt(b, at + 18)],
      [MotionAt(b, at + 20), MotionAt(b, at + 24), MotionAt(b, at + 28), MotionAt(b, at + 32)])
  }

  /** The record a 36-byte image holds. */
  function Parse(b: seq<byte>): (c: ConfigData)
    requires |b| == CONFIG_SIZE
    ensures Shaped(c)
  {
    ParseAt(b, 0)
  }

  /** Copying the 36 bytes out first reads the same record. */
  lemma ParseCopy(m: seq<byte>, at: nat)
    requires at + CONFIG_SIZE <= |m|
    ensures Parse(m[at .. at + CONFIG_SIZE]) == ParseAt(m, at)
  {
    var b := m[at .. at + CONFIG_SIZE];
    assert forall k :: 0 <= k < CONFIG_SIZE ==> b[k] == m[at + k];
  }

  /** The climate table of a record reads back from its image. */
  lemma ClimatesReadBack(c: ConfigData)
    requires Shaped(c)
    ensures [ClimateAt(Serialize(c), 6), ClimateAt(Serialize(c), 11)] == c.climates
  {
    assert c.climates == [c.climates[0], c.climates[1]];
  }

  /** The LDR table of a record reads back from its image. */
  lemma LdrsReadBack(c: ConfigData)
    requires Shaped(c)
    ensures [LdrAt(Serialize(c), 16), LdrAt(Serialize(c), 18)] == c.ldrs
  {
    assert c.ldrs == [c.ldrs[0], c.ldrs[1]];
  }

  /** The motion table of a record reads back from its image. */
  lemma MotionsReadBack(c: ConfigData)
    requires Shaped(c)
    ensures [MotionAt(Serialize(c), 20), MotionAt(Serialize(c), 24),
             MotionAt(Serialize(c), 28), MotionAt(Serialize(c), 32)] == c.motions
  {
    assert c.motions == [c.motions[0], c.motions[1], c.motions[2], c.motions[3]];
  }

  /** Reading back the image of a record gives the record. */
  lemma ParseSerialize(c: ConfigData)
    requires Shaped(c)
    ensures Parse(Serialize(c)) == c
  {
    ClimatesReadBack(c);
    LdrsReadBack(c);
    MotionsReadBack(c);
  }

  /** An image whose two `bool` bytes are 0 or 1 is the image of the record it holds. */
  lemma SerializeParse(b: seq<byte>)
    requires |b| == CONFIG_SIZE && b[9] <= 1 && b[14] <= 1
    ensures Serialize(Parse(b)) == b
  {
    var s := Serialize(Parse(b));
    assert forall k :: 0 <= k < CONFIG_SIZE ==> s[k] == b[k];
  }

  /** The record stored in EEPROM contents `m`. */
  function Stored(m: seq<byte>): ConfigData
    requires |m| == EEPROM_LENGTH
  {
    ParseAt(m, EEPROM_ADDRESS)
  }

  /** After `save_config` of `c`, the stored record is `c`. */
  lemma StoredAfterSave(m: seq<byte>, c: ConfigData)
    requires |m| == EEPROM_LENGTH && Shaped(c)
    ensures Stored(Overwrite(m, EEPROM_ADDRESS, Serialize(c))) == c
  {
    var w := Overwrite(m, EEPROM_ADDRESS, Serialize(c));
    ParseCopy(w, EEPROM_ADDRESS);
    ParseSerialize(c);
  }

  // ---------------------------------------------------------------------------------

  class ConfigEngine {
    var config: ConfigData

    ghost predicate Valid()
      reads this
    {
      Shaped(config)
    }

    /** Memory and EEPROM hold the same record. */
    ghost predicate Persisted(ee: Eeprom)
      reads this, ee
    {
      Valid() && ee.Valid() && Stored(ee.data) == config
    }

    constructor ()
      ensures Valid() && config == ZERO_CONFIG
    {
      config := ZERO_CONFIG;
    }

    /** Starts the EEPROM library, which needs no modelling, and loads the config. */
    method Init(ee: Eeprom) returns (ok: bool)
      requires Valid() && ee.Valid()
      modifies this, ee
      ensures ok && Persisted(ee) && ValidHeader(config)
      ensures config == (if ValidHeader(Stored(old(ee.data))) then Stored(old(ee.data))
                         else ResetHeader(Stored(old(ee.data))))
      ensures ValidHeader(Stored(old(ee.data))) ==> ee.data == old(ee.data)
      ensures ChangedOnlyIn(old(ee.data), ee.data, EEPROM_ADDRESS, EEPROM_ADDRESS + CONFIG_SIZE)
    {
      ok := LoadConfig(ee);
    }

    /** Reads the stored record; a record with the wrong version or size gets a fresh
        header with empty counts, which is saved at once. Always succeeds. */
    method LoadConfig(ee: Eeprom) returns (ok: bool)
      requires Valid() && ee.Valid()
      modifies this, ee
      ensures ok && Persisted(ee) && ValidHeader(config)
      ensures ValidHeader(Stored(old(ee.data))) ==> config == Stored(old(ee.data)) && ee.data == old(ee.data)
      ensures !ValidHeader(Stored(old(ee.data))) ==>
                config == ResetHeader(Stored(old(ee.data)))
                && ee.data == Overwrite(old(ee.data), EEPROM_ADDRESS, Serialize(config))
    {
      config := Parse(ee.data[EEPROM_ADDRESS .. EEPROM_ADDRESS + CONFIG_SIZE]);
      ParseCopy(ee.data, EEPROM_ADDRESS);
      if config.version != 1 || config.size != CONFIG_SIZE {
        config := config.(version := 1, size := CONFIG_SIZE);
        config := config.(climateSize := 0, ldrSize := 0, motionSize := 0, relaySize := 0);
        ok := SaveConfig(ee);
        return;
      }
      return true;
    }

    /** Writes the record's image at address 1024. Always succeeds. */
    method SaveConfig(ee: Eeprom) returns (ok: bool)
      requires Valid() && ee.Valid()
      modifies ee
      ensures ok && Persisted(ee)
      ensures ee.data == Overwrite(old(ee.data), EEPROM_ADDRESS, Serialize(config))
    {
      ee.Put(EEPROM_ADDRESS, Serialize(config));
      StoredAfterSave(old(ee.data), config);
      return true;
    }

    method SetDefaultConfig(ee: Eeprom) returns (ok: bool)
      requires Valid() && ee.Valid()
      modifies this, ee
      ensures ok && Persisted(ee) && config == DEFAULT_CONFIG
      ensures ee.data == Overwrite(old(ee.data), EEPROM_ADDRESS, Serialize(DEFAULT_CONFIG))
    {
      config := DEFAULT_CONFIG;
      ok := SaveConfig(ee);
    }

    /** Replaces the whole record when its size field is right; the counts are taken as
        they come, without comparing them with the capacities. */
    method SetFullConfig(ee: Eeprom, c: ConfigData) returns (ok: bool)
      requires Valid() && ee.Valid() && Shaped(c)
      modifies this, ee
      ensures Valid() && ee.Valid()
      ensures ok <==> c.size == CONFIG_SIZE
      ensures ok ==> config == c && Persisted(ee)
                     && ee.data == Overwrite(old(ee.data), EEPROM_ADDRESS, Serialize(c))
      ensures !ok ==> config == old(config) && ee.data == old(ee.data)
    {
      if c.size != CONFIG_SIZE {
        return false;
      }
      config := c;
      ok := SaveConfig(ee);
    }

    /** Appends a climate entry unless the table is full (the id is not looked at). */
    method SetClimateConfig(ee: Eeprom, c: Climate) returns (ok: bool)
      requires Valid() && ee.Valid()
      modifies this, ee
      ensures Valid() && ee.Valid()
      ensures ok <==> old(config.climateSize) < MAX_CLIMATE
      ensures ok ==> config == old(config).(climates := old(config.climates)[old(config.climateSize) := c],
                                            climateSize := old(config.climateSize) + 1)
                     && Persisted(ee)
                     && ee.data == Overwrite(old(ee.data), EEPROM_ADDRESS, Serialize(config))
      ensures !ok ==> config == old(config) && ee.data == old(ee.data)
    {
      if config.climateSize >= MAX_CLIMATE {
        return false;
      }
      config := config.(climates := config.climates[config.climateSize := c],
                        climateSize := config.climateSize + 1);
      ok := SaveConfig(ee);
    }

    method SetLdrConfig(ee: Eeprom, l: Ldr) returns (ok: bool)
      requires Valid() && ee.Valid()
      modifies this, ee
      ensures Valid() && ee.Valid()
      ensures ok <==> old(config.ldrSize) < MAX_LDR
      ensures ok ==> config == old(config).(ldrs := old(config.ldrs)[old(config.ldrSize) := l],
                                            ldrSize := old(config.ldrSize) + 1)
                     && Persisted(ee)
                     && ee.data == Overwrite(old(ee.data), EEPROM_ADDRESS, Serialize(config))
      ensures !ok ==> config == old(config) && ee.data == old(ee.data)
    {
      if config.ldrSize >= MAX_LDR {
        return false;
      }
      config := config.(ldrs := config.ldrs[config.ldrSize := l], ldrSize := config.ldrSize + 1);
      ok := SaveConfig(ee);
    }

    method SetMotionConfig(ee: Eeprom, m: Motion) returns (ok: bool)
      requires Valid() && ee.Valid()
      modifies this, ee
      ensures Valid() && ee.Valid()
      ensures ok <==> old(config.motionSize) < MAX_MOTION
      ensures ok ==> config == old(config).(motions := old(config.motions)[old(config.motionSize) := m],
                                            motionSize := old(config.motionSize) + 1)
                     && Persisted(ee)
                     && ee.data == Overwrite(old(ee.data), EEPROM_ADDRESS, Serialize(config))
      ensures !ok ==> config == old(config) && ee.data == old(ee.data)
    {
      if config.motionSize >= MAX_MOTION {
        return false;
      }
      config := config.(motions := config.motions[config.motionSize := m], motionSize := config.motionSize + 1);
      ok := SaveConfig(ee);
    }

    /** The first of the `climateSize` climate entries with this id, or the all-zero entry. */
    method GetClimateConfig(id: byte) returns (r: Climate)
      requires Valid() && config.climateSize <= MAX_CLIMATE
      ensures (forall i :: 0 <= i < config.climateSize ==> config.climates[i].id != id) ==> r == ZERO_CLIMATE
      ensures forall i :: (0 <= i < config.climateSize && config.climates[i].id == id
                           && forall j :: 0 <= j < i ==> config.climates[j].id != id)
                          ==> r == config.climates[i]
    {
      var i := 0;
      while i < config.climateSize
        invariant 0 <= i <= config.climateSize
        invariant forall j :: 0 <= j < i ==> config.climates[j].id != id
      {
        if config.climates[i].id == id {
          return config.climates[i];
        }
        i := i + 1;
      }
      return ZERO_CLIMATE;
    }

    method GetLdrConfig(id: byte) returns (r: Ldr)
      requires Valid() && config.ldrSize <= MAX_LDR
      ensures (forall i :: 0 <= i < config.ldrSize ==> config.ldrs[i].id != id) ==> r == ZERO_LDR
      ensures forall i :: (0 <= i < config.ldrSize && config.ldrs[i].id == id
                           && forall j :: 0 <= j < i ==> config.ldrs[j].id != id)
                          ==> r == config.ldrs[i]
    {
      var i := 0;
      while i < config.ldrSize
        invariant 0 <= i <= config.ldrSize
        invariant forall j :: 0 <= j < i ==> config.ldrs[j].id != id
      {
        if config.ldrs[i].id == id {
          return config.ldrs[i];
        }
        i := i + 1;
      }
      return ZERO_LDR;
    }

    method GetMotionConfig(id: byte) returns (r: Motion)
      requires Valid() && config.motionSize <= MAX_MOTION
      ensures (forall i :: 0 <= i < config.motionSize ==> config.motions[i].id != id) ==> r == ZERO_MOTION
      ensures forall i :: (0 <= i < config.motionSize && config.motions[i].id == id
                           && forall j :: 0 <= j < i ==> config.motions[j].id != id)
                          ==> r == config.motions[i]
    {
      var i := 0;
      while i < config.motionSize
        invariant 0 <= i <= config.motionSize
        invariant forall j :: 0 <= j < i ==> config.motions[j].id != id
      {
        if config.motions[i].id == id {
          return config.motions[i];
        }
        i := i + 1;
      }
      return ZERO_MOTION;
    }
  }

  /** Appending a climate entry whose id is already present leaves lookups returning the
      earlier entry: the table grows, but the new entry is never found. */
  method DuplicateIdIsShadowed(ee: Eeprom, first: Climate, second: Climate) returns (found: Climate)
    requires ee.Valid() && first.id == second.id
    modifies ee
    ensures found == first
  {
    var engine := new ConfigEngine();
    var ok := engine.SetDefaultConfig(ee);
    ok := engine.SetClimateConfig(ee, first);
    assert engine.config.climateSize == 1 && engine.config.climates[0] == first;
    ok := engine.SetClimateConfig(ee, second);
    assert engine.config.climateSize == 2 && engine.config.climates[0] == first;
    found := engine.GetClimateConfig(first.id);
  }
}
