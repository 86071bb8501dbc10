/** The provisioning record: the JSON text received over Bluetooth, stored from EEPROM
    address 0 as a 4-byte magic word followed by the text and a terminating NUL. The
    object that reads and writes it has no state of its own, so its three operations are
    module-level methods on the shared EEPROM. */
module ConfigManager {
  import opened Common
  import WhitelistStore

  /** Bytes of the provisioning area the code reads and clears. */
  const AREA_SIZE: nat := 512
  const CONFIG_MAGIC: int := 0xABCD1234
  /** `sizeof(CONFIG_MAGIC)`: where the text starts. */
  const TEXT_ADDR: nat := 4
  /** Longest text stored: `EEPROM_SIZE - sizeof(CONFIG_MAGIC)`. */
  const MAX_TEXT: nat := 508

  /** The magic word as `EEPROM.put` lays it out on this little-endian board. */
  const MAGIC_BYTES: seq<byte> := [0x34, 0x12, 0xCD, 0xAB]

  /** What `deserializeJson` extracts from a valid document. */
  datatype DeviceConfig = DeviceConfig(
    deviceUid: string, wifiSsid: string, wifiPassword: string,
    mqttBroker: string, mqttPort: int, mqttTopic: string,
    mqttUsername: string, mqttPassword: string)

  /** The little-endian 32-bit word in four bytes. */
  function LeWord(b: seq<byte>): (w: nat)
    requires |b| == 4
    ensures w < UINT32_MODULUS
  {
    b[0] as int + 256 * (b[1] as int + 256 * (b[2] as int + 256 * b[3] as int))
  }

  /** The word at address 0 is the magic exactly when the first four bytes are `MAGIC_BYTES`. */
  lemma MagicWordBytes(b: seq<byte>)
    requires |b| == 4
    ensures LeWord(b) == CONFIG_MAGIC <==> b == MAGIC_BYTES
  {
    if LeWord(b) == CONFIG_MAGIC {
      var hi := b[1] as int + 256 * (b[2] as int + 256 * b[3] as int);
      assert b[0] == 0x34 && hi == 0xABCD12 by {
        assert b[0] + 256 * hi == 0x34 + 256 * 0xABCD12;
      }
      var hi2 := b[2] as int + 256 * b[3] as int;
      assert b[1] == 0x12 && hi2 == 0xABCD by {
        assert b[1] + 256 * hi2 == 0x12 + 256 * 0xABCD;
      }
      assert b[2] == 0xCD && b[3] == 0xAB;
    }
  }

  predicate MagicOk(m: seq<byte>)
    requires |m| == EEPROM_LENGTH
  {
    LeWord(m[0..4]) == CONFIG_MAGIC
  }

  /** The text bytes `load` copies: those from address 4 up to the first NUL, at most 512. */
  function Copied(m: seq<byte>): (r: seq<byte>)
    requires |m| == EEPROM_LENGTH
    ensures |r| <= AREA_SIZE && NulFree(r)
  {
    CString(m[TEXT_ADDR .. TEXT_ADDR + AREA_SIZE])
  }

  /** The 512-byte stack buffer after the copy loop and `buffer[511] = '\0'`: the copied
      bytes, then whatever the buffer held before (`stale`), since the terminator itself
      is never copied. */
  function LoadBuffer(m: seq<byte>, stale: seq<byte>): (b: seq<byte>)
    requires |m| == EEPROM_LENGTH && |stale| == AREA_SIZE
    ensures |b| == AREA_SIZE
  {
    (Copied(m) + stale[|Copied(m)|..])[AREA_SIZE - 1 := 0]
  }

  /** The text handed to the JSON parser. */
  function LoadedText(m: seq<byte>, stale: seq<byte>): seq<byte>
    requires |m| == EEPROM_LENGTH && |stale| == AREA_SIZE
  {
    CString(LoadBuffer(m, stale))
  }

  /** The bytes `save(json)` writes from address 0. */
  function SavedImage(json: seq<byte>): (r: seq<byte>)
    ensures |r| <= TEXT_ADDR + MAX_TEXT + 1
  {
    MAGIC_BYTES + json[..Min(|json|, MAX_TEXT)] + [0]
  }

  function Min(a: nat, b: nat): nat {
    if a <= b then a else b
  }

  // ---------------------------------------------------------------------------------

  /** `save`: the magic word, at most 508 text bytes, then a NUL. Always succeeds. */
  method Save(ee: Eeprom, json: seq<byte>) returns (ok: bool)
    requires ee.Valid()
    modifies ee
    ensures ok && ee.Valid()
    ensures ee.data == Overwrite(old(ee.data), 0, SavedImage(json))
  {
    ee.Put(0, MAGIC_BYTES);
    ghost var withMagic := ee.data;
    var len := Min(|json|, MAX_TEXT);
    var i := 0;
    while i < len
      invariant 0 <= i <= len
      invariant ee.Valid()
      invariant ee.data == Overwrite(withMagic, TEXT_ADDR, json[..i])
    {
      ee.Write(TEXT_ADDR + i, json[i]);
      OverwriteExtend(withMagic, TEXT_ADDR, json[..i], json[i]);
      assert json[..i] + [json[i]] == json[..i + 1];
      i := i + 1;
    }
    ee.Write(TEXT_ADDR + len, 0);
    OverwriteExtend(withMagic, TEXT_ADDR, json[..len], 0);
    OverwriteAdjacent(old(ee.data), 0, MAGIC_BYTES, json[..len] + [0]);
    return true;
  }

  /** `load`: false on a wrong magic word; otherwise the stored text is copied into a stack
      buffer whose earlier contents are `stale`, and the JSON library (`parseJson`) decides
      the rest. `json` is the text handed to it. */
  method Load(ee: Eeprom, stale: seq<byte>, parseJson: seq<byte> -> Option<DeviceConfig>)
    returns (ok: bool, json: seq<byte>, config: Option<DeviceConfig>)
    requires ee.Valid() && |stale| == AREA_SIZE
    ensures !MagicOk(ee.data) ==> !ok && config == None
    ensures MagicOk(ee.data) ==>
              json == LoadedText(ee.data, stale) && config == parseJson(json) && (ok <==> config.Some?)
  {
    var magic := LeWord(ee.data[0..4]);
    if magic != CONFIG_MAGIC {
      return false, [], None;
    }
    var buffer := new byte[AREA_SIZE](k requires 0 <= k < AREA_SIZE => stale[k]);
    var i := 0;
    while i < AREA_SIZE
      invariant 0 <= i <= AREA_SIZE
      invariant NulFree(ee.data[TEXT_ADDR .. TEXT_ADDR + i])
      invariant buffer[..] == ee.data[TEXT_ADDR .. TEXT_ADDR + i] + stale[i..]
    {
      var c := ee.data[TEXT_ADDR + i];
      if c == 0 {
        break;
      }
      assert ee.data[TEXT_ADDR .. TEXT_ADDR + i + 1] == ee.data[TEXT_ADDR .. TEXT_ADDR + i] + [c];
      buffer[i] := c;
      i := i + 1;
    }
    CopiedUpTo(ee.data, i);
    buffer[AREA_SIZE - 1] := 0;
    json := CString(buffer[..]);
    config := parseJson(json);
    ok := config.Some?;
  }

  /** The copy loop stops at `i` exactly when the copied text is the `i` bytes before it. */
  lemma CopiedUpTo(m: seq<byte>, i: nat)
    requires |m| == EEPROM_LENGTH && i <= AREA_SIZE
    requires NulFree(m[TEXT_ADDR .. TEXT_ADDR + i])
    requires i < AREA_SIZE ==> m[TEXT_ADDR + i] == 0
    ensures Copied(m) == m[TEXT_ADDR .. TEXT_ADDR + i]
  {
    var area := m[TEXT_ADDR .. TEXT_ADDR + AREA_SIZE];
    if i < AREA_SIZE {
      assert area == m[TEXT_ADDR .. TEXT_ADDR + i] + [0] + area[i + 1..];
      CStringOfTerminated(m[TEXT_ADDR .. TEXT_ADDR + i], area[i + 1..]);
    } else {
      CStringOfNulFree(area);
    }
  }

  /** `clear`: zeroes the 512 bytes from address 0. */
  method Clear(ee: Eeprom)
    requires ee.Valid()
    modifies ee
    ensures ee.Valid() && ee.data == Zeroed(old(ee.data), 0, AREA_SIZE)
  {
    var i := 0;
    while i < AREA_SIZE
      invariant 0 <= i <= AREA_SIZE
      invariant ee.Valid()
      invariant ee.data == Zeroed(old(ee.data), 0, i)
    {
      ee.Write(i, 0);
      i := i + 1;
    }
  }

  // ---------------------------------------------------------------------------------

  /** After `save(s)` of a NUL-free text, `load` finds the magic word and copies `s` cut
      to 508 bytes; the text it parses starts with those bytes. */
  lemma {:induction false} SaveThenLoad(m: seq<byte>, s: seq<byte>, stale: seq<byte>)
    requires |m| == EEPROM_LENGTH && |stale| == AREA_SIZE && NulFree(s)
    ensures var saved := Overwrite(m, 0, SavedImage(s));
            MagicOk(saved) && Copied(saved) == s[..Min(|s|, MAX_TEXT)]
            && LoadedText(saved, stale)[..Min(|s|, MAX_TEXT)] == s[..Min(|s|, MAX_TEXT)]
  {
    var saved := Overwrite(m, 0, SavedImage(s));
    var n := Min(|s|, MAX_TEXT);
    var image := SavedImage(s);
    assert saved[0..4] == MAGIC_BYTES by {
      assert saved[0..4] == image[0..4];
    }
    MagicWordBytes(saved[0..4]);
    assert saved[TEXT_ADDR .. TEXT_ADDR + n] == s[..n] by {
      assert saved[TEXT_ADDR .. TEXT_ADDR + n] == image[TEXT_ADDR .. TEXT_ADDR + n];
    }
    assert saved[TEXT_ADDR + n] == 0 by {
      assert saved[TEXT_ADDR + n] == image[TEXT_ADDR + n];
    }
    CopiedUpTo(saved, n);
    var buffer := LoadBuffer(saved, stale);
    assert NulFree(buffer[..n]) by {
      assert buffer[..n] == s[..n];
    }
    LongerThanNulFreePrefix(buffer, n);
  }

  /** A C string read from `b` is at least as long as any NUL-free prefix of `b`, and
      starts with it. */
  lemma LongerThanNulFreePrefix(b: seq<byte>, n: nat)
    requires n <= |b| && NulFree(b[..n])
    ensures n <= |CString(b)| && CString(b)[..n] == b[..n]
  {
  }

  /** The parsed text is exactly the copied text when the copy stopped at a NUL and the
      buffer byte just after the copy happened to be 0 already (or is the forced final 0). */
  lemma LoadedTextIsCopiedWhenBufferEnds(m: seq<byte>, stale: seq<byte>)
    requires |m| == EEPROM_LENGTH && |stale| == AREA_SIZE
    requires |Copied(m)| < AREA_SIZE
    requires |Copied(m)| < AREA_SIZE - 1 ==> stale[|Copied(m)|] == 0
    ensures LoadedText(m, stale) == Copied(m)
  {
    var c := Copied(m);
    var b := LoadBuffer(m, stale);
    if |c| < AREA_SIZE - 1 {
      assert b == c + [0] + b[|c| + 1..];
      CStringOfTerminated(c, b[|c| + 1..]);
    } else {
      assert b == c + [0] + [];
      CStringOfTerminated(c, []);
    }
  }

  /** Otherwise the parsed text runs on into the stale bytes: it is strictly longer than
      what was copied from EEPROM. */
  lemma StaleBytesExtendLoadedText(m: seq<byte>, stale: seq<byte>)
    requires |m| == EEPROM_LENGTH && |stale| == AREA_SIZE
    requires |Copied(m)| < AREA_SIZE - 1 && stale[|Copied(m)|] != 0
    ensures |LoadedText(m, stale)| > |Copied(m)|
  {
    var c := Copied(m);
    var b := LoadBuffer(m, stale);
    assert NulFree(b[..|c| + 1]) by {
      assert b[..|c| + 1] == c + [stale[|c|]];
    }
    LongerThanNulFreePrefix(b, |c| + 1);
  }

  /** `clear` destroys the magic word, so the next `load` fails. */
  lemma ClearedAreaDoesNotLoad(m: seq<byte>)
    requires |m| == EEPROM_LENGTH
    ensures !MagicOk(Zeroed(m, 0, AREA_SIZE))
  {
    var z := Zeroed(m, 0, AREA_SIZE);
    assert z[0] == 0;
  }

  /** A text of 508 bytes or more puts its NUL at address 512, the whitelist's first
      length byte: after such a save no UID is whitelisted. */
  lemma LongSaveEmptiesWhitelist(m: seq<byte>, s: seq<byte>, uid: seq<byte>)
    requires |m| == EEPROM_LENGTH && |s| >= MAX_TEXT
    ensures Overwrite(m, 0, SavedImage(s))[WhitelistStore.W_EEPROM_ADDR] == 0
    ensures !WhitelistStore.Whitelisted(Overwrite(m, 0, SavedImage(s)), uid)
  {
    var image := SavedImage(s);
    assert |image| == 513 && image[512] == 0;
  }
}
