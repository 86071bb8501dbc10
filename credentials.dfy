/** Provisioning over Bluetooth: a central connects, writes the JSON configuration in
    chunks, and the node keeps the printable bytes until the text parses; the text is then
    stored as a C string at EEPROM address 1024, where it can be read back on the next boot.
    The radio's connect, disconnect and write events arrive as method calls; the JSON
    library is the parameter `parseJson`. */
module CredentialStore {
  import opened Common
  import Configs

  /** `CRED_EEPROM_ADDR` and `CRED_EEPROM_SIZE`. */
  const CRED_ADDR: nat := 1024
  const CRED_SIZE: nat := 512

  /** Shortest stored text accepted on load is 6 bytes. */
  const MIN_TEXT: nat := 6

  /** What the node keeps from a parsed document (`network_config`). */
  datatype NetworkConfig = NetworkConfig(
    deviceId: int, ssid: string, wifiPassword: string,
    mqttBroker: string, mqttUser: string, mqttPassword: string)

  /** `isPrintable`: the ASCII characters from space to tilde. */
  predicate IsPrintable(b: byte) {
    0x20 <= b <= 0x7E
  }

  /** The printable bytes of a chunk, in order. */
  function Printable(s: seq<byte>): (r: seq<byte>)
    ensures |r| <= |s| && NulFree(r)
    ensures forall i :: 0 <= i < |r| ==> IsPrintable(r[i])
  {
    if s == [] then []
    else Printable(s[..|s| - 1]) + (if IsPrintable(s[|s| - 1]) then [s[|s| - 1]] else [])
  }

  /** Filtering two chunks is filtering their concatenation: the buffer does not depend on
      how the central splits its writes. */
  lemma {:induction false} PrintableAppend(a: seq<byte>, b: seq<byte>)
    ensures Printable(a + b) == Printable(a) + Printable(b)
    decreases |b|
  {
    if b != [] {
      var b' := b[..|b| - 1];
      assert (a + b)[..|a + b| - 1] == a + b';
      assert (a + b)[|a + b| - 1] == b[|b| - 1];
      PrintableAppend(a, b');
      var last := if IsPrintable(b[|b| - 1]) then [b[|b| - 1]] else [];
      calc {
        Printable(a + b);
        Printable(a + b') + last;
        Printable(a) + Printable(b') + last;
        Printable(a) + Printable(b);
      }
    } else {
      assert a + b == a;
    }
  }

  /** A chunk of printable bytes is kept whole. */
  lemma {:induction false} PrintableKeepsText(s: seq<byte>)
    requires forall i :: 0 <= i < |s| ==> IsPrintable(s[i])
    ensures Printable(s) == s
  {
    if s != [] {
      PrintableKeepsText(s[..|s| - 1]);
    }
  }

  /** The bytes `_save_to_eeprom(json)` writes from address 1024: the text cut to 511
      bytes, then a NUL. */
  function SavedText(json: seq<byte>): (r: seq<byte>)
    ensures 1 <= |r| <= CRED_SIZE
  {
    var len := if |json| <= CRED_SIZE - 1 then |json| else CRED_SIZE - 1;
    json[..len] + [0]
  }

  /** The text `_load_from_eeprom` reads: the C string in the first 511 bytes of the area
      (the last byte of the buffer is always forced to NUL). */
  function LoadedText(m: seq<byte>): (r: seq<byte>)
    requires |m| == EEPROM_LENGTH
    ensures |r| < CRED_SIZE && NulFree(r)
  {
    CString(m[CRED_ADDR .. CRED_ADDR + CRED_SIZE - 1])
  }

  class Credentials {
    var bleName: string
    var connected: bool
    var configReceived: bool
    var triggered: bool
    var config: NetworkConfig
    var jsonBuffer: seq<byte>

    constructor ()
      ensures bleName == "" && !connected && !configReceived && !triggered && jsonBuffer == []
    {
      bleName, connected, configReceived, triggered := "", false, false, false;
      config := NetworkConfig(0, "", "", "", "", "");
      jsonBuffer := [];
    }

    method Init(name: string)
      modifies this
      ensures bleName == name
      ensures connected == old(connected) && configReceived == old(configReceived)
      ensures triggered == old(triggered) && config == old(config) && jsonBuffer == old(jsonBuffer)
    {
      bleName := name;
    }

    function IsConnected(): bool
      reads this
    {
      connected
    }

    function ConfigAvailable(): bool
      reads this
    {
      configReceived
    }

    /** A central connected: a new transfer starts from an empty buffer. */
    method OnConnect()
      modifies this
      ensures connected && !triggered && jsonBuffer == []
      ensures configReceived == old(configReceived) && config == old(config) && bleName == old(bleName)
    {
      connected := true;
      triggered := false;
      jsonBuffer := [];
    }

    /** The central went away: the partial text stays. */
    method OnDisconnect()
      modifies this
      ensures !connected
      ensures triggered == old(triggered) && jsonBuffer == old(jsonBuffer)
      ensures configReceived == old(configReceived) && config == old(config) && bleName == old(bleName)
    {
      connected := false;
    }

    /** A chunk written by the central: its printable bytes are appended, and when the whole
        buffer then parses, the configuration is taken, the text is saved at 1024 and the
        buffer is emptied; otherwise the buffer keeps growing. */
    method HandleBytes(ee: Eeprom, data: seq<byte>, parseJson: seq<byte> -> Option<NetworkConfig>)
      requires ee.Valid()
      modifies this, ee
      ensures ee.Valid()
      ensures var text := old(jsonBuffer) + Printable(data);
              (parseJson(text).None? ==>
                 jsonBuffer == text && ee.data == old(ee.data)
                 && config == old(config) && configReceived == old(configReceived))
              && (parseJson(text).Some? ==>
                    jsonBuffer == [] && configReceived && config == parseJson(text).value
                    && ee.data == Overwrite(old(ee.data), CRED_ADDR, SavedText(text)))
      ensures connected == old(connected) && triggered == old(triggered) && bleName == old(bleName)
    {
      var i := 0;
      while i < |data|
        invariant 0 <= i <= |data|
        invariant jsonBuffer == old(jsonBuffer) + Printable(data[..i])
        invariant ee.Valid() && ee.data == old(ee.data)
        invariant config == old(config) && configReceived == old(configReceived)
        invariant connected == old(connected) && triggered == old(triggered) && bleName == old(bleName)
      {
        assert data[..i + 1][..i] == data[..i];
        if IsPrintable(data[i]) {
          jsonBuffer := jsonBuffer + [data[i]];
        }
        i := i + 1;
      }
      assert data[..i] == data;
      var parsed := parseJson(jsonBuffer);
      if parsed.Some? {
        config := parsed.value;
        configReceived := true;
        SaveToEeprom(ee, jsonBuffer);
        jsonBuffer := [];
      }
    }

    /** `_save_to_eeprom`: at most 511 text bytes from 1024, then a NUL right after them. */
    method SaveToEeprom(ee: Eeprom, json: seq<byte>)
      requires ee.Valid()
      modifies ee
      ensures ee.Valid() && ee.data == Overwrite(old(ee.data), CRED_ADDR, SavedText(json))
    {
      var len := if |json| <= CRED_SIZE - 1 then |json| else CRED_SIZE - 1;
      var i := 0;
      while i < len
        invariant 0 <= i <= len
        invariant ee.Valid()
        invariant ee.data == Overwrite(old(ee.data), CRED_ADDR, json[..i])
      {
        ee.Write(CRED_ADDR + i, json[i]);
        OverwriteExtend(old(ee.data), CRED_ADDR, json[..i], json[i]);
        assert json[..i] + [json[i]] == json[..i + 1];
        i := i + 1;
      }
      ee.Write(CRED_ADDR + len, 0);
      OverwriteExtend(old(ee.data), CRED_ADDR, json[..len], 0);
    }

    /** `_load_from_eeprom`: copies the area into a stack buffer (whose earlier contents are
        `stale`) up to and including the first NUL, forces the last byte to NUL and reads
        the C string; the text is accepted when it is longer than 5 bytes. */
    method LoadFromEeprom(ee: Eeprom, stale: seq<byte>) returns (ok: bool, json: seq<byte>)
      requires ee.Valid() && |stale| == CRED_SIZE
      ensures json == LoadedText(ee.data) && (ok <==> |json| >= MIN_TEXT)
    {
      ghost var area := ee.data[CRED_ADDR .. CRED_ADDR + CRED_SIZE];
      var buffer := new byte[CRED_SIZE](k requires 0 <= k < CRED_SIZE => stale[k]);
      var i: nat := 0;
      while i < CRED_SIZE
        invariant 0 <= i <= CRED_SIZE
        invariant NulFree(area[..i])
        invariant buffer[..i] == area[..i]
      {
        buffer[i] := ee.data[CRED_ADDR + i];
        if buffer[i] == 0 {
          break;
        }
        assert area[..i + 1] == area[..i] + [area[i]];
        i := i + 1;
      }
      ghost var copied := i;
      buffer[CRED_SIZE - 1] := 0;
      json := CString(buffer[..]);
      ReadBackText(area, buffer[..], copied);
      AreaPrefix(ee.data);
      ok := |json| > 5;
    }

    /** `load_saved_config`: a stored text that is long enough and parses becomes the
        configuration; nothing changes otherwise. */
    method LoadSavedConfig(ee: Eeprom, stale: seq<byte>, parseJson: seq<byte> -> Option<NetworkConfig>)
      returns (ok: bool)
      requires ee.Valid() && |stale| == CRED_SIZE
      modifies this
      ensures var text := LoadedText(ee.data);
              ok <==> |text| >= MIN_TEXT && parseJson(text).Some?
      ensures ok ==> configReceived && config == parseJson(LoadedText(ee.data)).value
      ensures !ok ==> configReceived == old(configReceived) && config == old(config)
      ensures connected == old(connected) && triggered == old(triggered)
      ensures jsonBuffer == old(jsonBuffer) && bleName == old(bleName)
    {
      var loaded, json := LoadFromEeprom(ee, stale);
      if loaded {
        var parsed := parseJson(json);
        if parsed.Some? {
          config := parsed.value;
          configReceived := true;
          return true;
        }
      }
      return false;
    }

    /** `reset_config`: zeroes the 512-byte area. */
    method ResetConfig(ee: Eeprom)
      requires ee.Valid()
      modifies ee
      ensures ee.Valid() && ee.data == Zeroed(old(ee.data), CRED_ADDR, CRED_SIZE)
    {
      var i := 0;
      while i < CRED_SIZE
        invariant 0 <= i <= CRED_SIZE
        invariant ee.Valid()
        invariant ee.data == Zeroed(old(ee.data), CRED_ADDR, i)
      {
        ee.Write(CRED_ADDR + i, 0);
        i := i + 1;
      }
    }
  }

  /** The first 511 bytes of the copied area are the bytes `LoadedText` reads. */
  lemma AreaPrefix(m: seq<byte>)
    requires |m| == EEPROM_LENGTH
    ensures m[CRED_ADDR .. CRED_ADDR + CRED_SIZE][..CRED_SIZE - 1] == m[CRED_ADDR .. CRED_ADDR + CRED_SIZE - 1]
  {
  }

  /** The string read from the load buffer is the C string of the area's first 511 bytes,
      whatever the buffer held beyond the copied bytes. */
  lemma ReadBackText(area: seq<byte>, buffer: seq<byte>, i: nat)
    requires |area| == CRED_SIZE && |buffer| == CRED_SIZE && i <= CRED_SIZE
    requires NulFree(area[..i]) && buffer[CRED_SIZE - 1] == 0
    requires i < CRED_SIZE ==> area[i] == 0 && buffer[..i + 1] == area[..i + 1]
    requires i == CRED_SIZE ==> buffer[..CRED_SIZE - 1] == area[..CRED_SIZE - 1]
    ensures CString(buffer) == CString(area[..CRED_SIZE - 1])
  {
    if i < CRED_SIZE - 1 {
      StoppedReadBack(area, buffer, i);
    } else {
      assert buffer[..CRED_SIZE - 1] == area[..CRED_SIZE - 1] by {
        if i == CRED_SIZE - 1 {
          assert buffer[..CRED_SIZE - 1] == buffer[..i + 1][..CRED_SIZE - 1];
        }
      }
      assert area[..CRED_SIZE - 1] == area[..i][..CRED_SIZE - 1];
      FullReadBack(area[..CRED_SIZE - 1], buffer);
    }
  }

  /** A copy that stopped at a NUL before the last byte reads as the area's text. */
  lemma StoppedReadBack(area: seq<byte>, buffer: seq<byte>, i: nat)
    requires |area| == CRED_SIZE && |buffer| == CRED_SIZE && i < CRED_SIZE - 1
    requires NulFree(area[..i]) && area[i] == 0 && buffer[..i + 1] == area[..i + 1]
    ensures CString(buffer) == CString(area[..CRED_SIZE - 1])
  {
    assert buffer == area[..i] + [0] + buffer[i + 1..];
    CStringOfTerminated(area[..i], buffer[i + 1..]);
    assert area[..CRED_SIZE - 1] == area[..i] + [0] + area[i + 1 .. CRED_SIZE - 1];
    CStringOfTerminated(area[..i], area[i + 1 .. CRED_SIZE - 1]);
  }

  /** A buffer holding a NUL-free text `t` and a NUL after it reads as `t`. */
  lemma FullReadBack(t: seq<byte>, buffer: seq<byte>)
    requires |t| == CRED_SIZE - 1 && |buffer| == CRED_SIZE && NulFree(t)
    requires buffer[..CRED_SIZE - 1] == t && buffer[CRED_SIZE - 1] == 0
    ensures CString(buffer) == CString(t)
  {
    assert buffer == t + [0] + [];
    CStringOfTerminated(t, []);
    CStringOfNulFree(t);
  }

  // ---------------------------------------------------------------------------------

  /** Saving a NUL-free text of at most 511 bytes and loading it back gives the same text,
      accepted exactly when it has more than 5 bytes. */
  lemma SaveThenLoad(m: seq<byte>, json: seq<byte>)
    requires |m| == EEPROM_LENGTH && NulFree(json) && |json| <= CRED_SIZE - 1
    ensures LoadedText(Overwrite(m, CRED_ADDR, SavedText(json))) == json
  {
    var saved := Overwrite(m, CRED_ADDR, SavedText(json));
    var area := saved[CRED_ADDR .. CRED_ADDR + CRED_SIZE - 1];
    assert SavedText(json) == json + [0];
    if |json| < CRED_SIZE - 1 {
      assert area == json + [0] + area[|json| + 1..];
      CStringOfTerminated(json, area[|json| + 1..]);
    } else {
      assert area == json;
      CStringOfNulFree(json);
    }
  }

  /** A longer text reads back as its first 511 bytes. */
  lemma LongSaveThenLoad(m: seq<byte>, json: seq<byte>)
    requires |m| == EEPROM_LENGTH && NulFree(json) && |json| >= CRED_SIZE - 1
    ensures LoadedText(Overwrite(m, CRED_ADDR, SavedText(json))) == json[..CRED_SIZE - 1]
  {
    var saved := Overwrite(m, CRED_ADDR, SavedText(json));
    var area := saved[CRED_ADDR .. CRED_ADDR + CRED_SIZE - 1];
    assert area == json[..CRED_SIZE - 1];
    CStringOfNulFree(area);
  }

  /** After `reset_config` nothing loads. */
  lemma ResetThenLoadFails(m: seq<byte>)
    requires |m| == EEPROM_LENGTH
    ensures LoadedText(Zeroed(m, CRED_ADDR, CRED_SIZE)) == []
  {
    var z := Zeroed(m, CRED_ADDR, CRED_SIZE);
    assert z[CRED_ADDR] == 0;
  }

  /** The credentials area starts where the configuration table is stored: saving a
      non-empty printable text puts its first character where the table's version byte is,
      so the table's header no longer checks out. */
  lemma SavedTextBreaksConfigHeader(m: seq<byte>, json: seq<byte>)
    requires |m| == EEPROM_LENGTH && 1 <= |json|
    requires forall i :: 0 <= i < |json| ==> IsPrintable(json[i])
    ensures !Configs.ValidHeader(Configs.Stored(Overwrite(m, CRED_ADDR, SavedText(json))))
  {
    var saved := Overwrite(m, CRED_ADDR, SavedText(json));
    assert saved[CRED_ADDR] == json[0];
  }

  /** Once a configuration has been received, a run through a disconnect, a reconnect,
      further bytes, a reset and a reload does not forget it. */
  method ConfigReceivedIsSticky(ee: Eeprom, chunk: seq<byte>, parseJson: seq<byte> -> Option<NetworkConfig>)
    returns (stillReceived: bool)
    requires ee.Valid()
    modifies ee
    ensures stillReceived
  {
    var c := new Credentials();
    c.OnConnect();
    c.HandleBytes(ee, chunk, _ => Some(NetworkConfig(1, "", "", "", "", "")));
    c.OnDisconnect();
    c.OnConnect();
    c.HandleBytes(ee, chunk, parseJson);
    c.ResetConfig(ee);
    var stale := seq(CRED_SIZE, _ => 0);
    var loaded := c.LoadSavedConfig(ee, stale, parseJson);
    stillReceived := c.ConfigAvailable();
  }
}
