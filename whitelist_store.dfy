/** The persistent whitelist: up to five length-prefixed UID records packed back to back
    in EEPROM from address 512. A scan starts at 512, reads a length byte, stops at the
    first length byte that is 0 or 0xFF, and otherwise steps over `1 + length` bytes to
    the next record, visiting at most five records. `IsWhitelisted`, `SaveToEeprom` and
    `DeleteUid` are the three walks of this layout that `WhiteListManager` performs. */
module WhitelistStore {
  import opened Common

  const W_EEPROM_ADDR: nat := 512
  const MAX_UID_LENGTH: nat := 10
  const MAX_WHITELIST_SIZE: nat := 5

  /** A length byte that ends the scan: erased (0xFF) or deleted (0). */
  predicate IsEmptyMarker(len: byte) {
    len == 0 || len == 0xFF
  }

  /** A scan of `k` records from `index` stays inside `m`, whatever the length bytes say. */
  predicate ScanFits(m: seq<byte>, index: nat, k: nat) {
    index + 256 * k <= |m|
  }

  /** The UID bytes of the record whose length byte is at `a`. */
  function RecordAt(m: seq<byte>, a: nat): (r: seq<byte>)
    requires a + 256 <= |m|
    ensures |r| == m[a]
  {
    m[a + 1 .. a + 1 + m[a]]
  }

  /** Where the scan goes after the record at `a`: `index += 1 + len`. */
  function Next(m: seq<byte>, a: nat): nat
    requires a < |m|
  {
    a + 1 + m[a]
  }

  /** The record addresses a scan of at most `k` records from `index` visits. */
  function Visited(m: seq<byte>, index: nat, k: nat): (r: seq<nat>)
    requires ScanFits(m, index, k)
    ensures |r| <= k
    ensures forall a :: a in r ==> index <= a && a + 256 <= |m| && !IsEmptyMarker(m[a])
    decreases k
  {
    if k == 0 || IsEmptyMarker(m[index]) then []
    else [index] + Visited(m, Next(m, index), k - 1)
  }

  /** The first visited record equal to `uid`, if any. */
  function FindRecord(m: seq<byte>, index: nat, k: nat, uid: seq<byte>): (r: Option<nat>)
    requires ScanFits(m, index, k)
    ensures r.Some? ==> index <= r.value && r.value + 256 <= |m|
    decreases k
  {
    if k == 0 || IsEmptyMarker(m[index]) then None
    else if m[index] == |uid| && RecordAt(m, index) == uid then Some(index)
    else FindRecord(m, Next(m, index), k - 1, uid)
  }

  /** The lookup answers the first visited record equal to `uid`, and `None` exactly when no
      visited record equals it. */
  lemma {:induction false} FindRecordIsFirstMatch(m: seq<byte>, index: nat, k: nat, uid: seq<byte>)
    requires ScanFits(m, index, k)
    ensures var r := FindRecord(m, index, k, uid);
            (r.Some? ==> r.value in Visited(m, index, k) && RecordAt(m, r.value) == uid
                         && forall a :: a in Visited(m, index, k) && a < r.value ==> RecordAt(m, a) != uid)
            && (r.None? ==> forall a :: a in Visited(m, index, k) ==> RecordAt(m, a) != uid)
    decreases k
  {
    if k > 0 && !IsEmptyMarker(m[index]) {
      assert Visited(m, index, k) == [index] + Visited(m, Next(m, index), k - 1);
      FindRecordIsFirstMatch(m, Next(m, index), k - 1, uid);
    }
  }

  /** The first position, among the first `k` the scan reaches, whose length byte is empty. */
  function FreeSlot(m: seq<byte>, index: nat, k: nat): (r: Option<nat>)
    requires ScanFits(m, index, k)
    ensures r.Some? ==> index <= r.value && r.value + 256 <= |m| && IsEmptyMarker(m[r.value])
    decreases k
  {
    if k == 0 then None
    else if IsEmptyMarker(m[index]) then Some(index)
    else FreeSlot(m, Next(m, index), k - 1)
  }

  /** A free position exists exactly when the scan visits fewer than `k` records, and it
      comes after every one of them. */
  lemma {:induction false} FreeSlotFollowsVisited(m: seq<byte>, index: nat, k: nat)
    requires ScanFits(m, index, k)
    ensures var r := FreeSlot(m, index, k);
            (r.Some? <==> |Visited(m, index, k)| < k)
            && (r.Some? ==> forall a :: a in Visited(m, index, k) ==> a < r.value)
    decreases k
  {
    if k > 0 && !IsEmptyMarker(m[index]) {
      assert Visited(m, index, k) == [index] + Visited(m, Next(m, index), k - 1);
      FreeSlotFollowsVisited(m, Next(m, index), k - 1);
    }
  }

  /** What `is_whitelisted` answers for the EEPROM contents `m`. */
  predicate Whitelisted(m: seq<byte>, uid: seq<byte>)
    requires |m| == EEPROM_LENGTH
  {
    FindRecord(m, W_EEPROM_ADDR, MAX_WHITELIST_SIZE, uid).Some?
  }

  /** The EEPROM after `save_to_eeprom(uid)`: the record written at the first free position,
      or nothing written when all five visited positions hold records. */
  function Insert(m: seq<byte>, uid: seq<byte>): (r: seq<byte>)
    requires |m| == EEPROM_LENGTH && |uid| <= MAX_UID_LENGTH
    ensures |r| == |m|
    ensures forall i :: 0 <= i < W_EEPROM_ADDR ==> r[i] == m[i]
    ensures FreeSlot(m, W_EEPROM_ADDR, MAX_WHITELIST_SIZE).None? ==> r == m
  {
    match FreeSlot(m, W_EEPROM_ADDR, MAX_WHITELIST_SIZE)
    case None => m
    case Some(a) => Overwrite(m, a, [|uid|] + uid)
  }

  /** Where there is a free position, the save writes its record there. */
  lemma InsertAt(m: seq<byte>, uid: seq<byte>, a: nat)
    requires |m| == EEPROM_LENGTH && |uid| <= MAX_UID_LENGTH
    requires FreeSlot(m, W_EEPROM_ADDR, MAX_WHITELIST_SIZE) == Some(a)
    ensures a + 1 + |uid| <= |m| && Insert(m, uid) == Overwrite(m, a, [|uid|] + uid)
  {
  }

  /** One step of the scan past a non-empty length byte. */
  lemma FindStep(m: seq<byte>, index: nat, k: nat, uid: seq<byte>)
    requires ScanFits(m, index, k) && k > 0 && !IsEmptyMarker(m[index])
    ensures FindRecord(m, index, k, uid)
         == if RecordAt(m, index) == uid then Some(index) else FindRecord(m, Next(m, index), k - 1, uid)
  {
  }

  // ---------------------------------------------------------------------------------
  // What the layout promises across saves and deletes.

  /** A UID of 1 to 10 bytes saved where there is room is found by the next lookup. */
  lemma {:induction false} SavedUidIsWhitelisted(m: seq<byte>, uid: seq<byte>)
    requires |m| == EEPROM_LENGTH && 1 <= |uid| <= MAX_UID_LENGTH
    requires FreeSlot(m, W_EEPROM_ADDR, MAX_WHITELIST_SIZE).Some?
    ensures Whitelisted(Insert(m, uid), uid)
  {
    var a := FreeSlot(m, W_EEPROM_ADDR, MAX_WHITELIST_SIZE).value;
    FoundAfterWrite(m, Overwrite(m, a, [|uid|] + uid), W_EEPROM_ADDR, MAX_WHITELIST_SIZE, a, uid);
  }

  lemma {:induction false} FoundAfterWrite(m: seq<byte>, c: seq<byte>, index: nat, k: nat, a: nat, uid: seq<byte>)
    requires ScanFits(m, index, k) && 1 <= |uid| <= MAX_UID_LENGTH
    requires FreeSlot(m, index, k) == Some(a) && c == Overwrite(m, a, [|uid|] + uid)
    ensures FindRecord(c, index, k, uid).Some?
    decreases k
  {
    if !IsEmptyMarker(m[index]) {
      var next := Next(m, index);
      assert RecordAt(c, index) == RecordAt(m, index);
      FoundAfterWrite(m, c, next, k - 1, a, uid);
    } else {
      assert RecordAt(c, index) == uid;
    }
  }

  /** Saving a UID leaves every UID that was already whitelisted whitelisted, at the same
      record: the new record goes after every record the lookup visits. */
  lemma SaveKeepsWhitelisted(m: seq<byte>, uid: seq<byte>, x: seq<byte>)
    requires |m| == EEPROM_LENGTH && |uid| <= MAX_UID_LENGTH && Whitelisted(m, x)
    ensures Whitelisted(Insert(m, uid), x)
    ensures FindRecord(Insert(m, uid), W_EEPROM_ADDR, MAX_WHITELIST_SIZE, x)
         == FindRecord(m, W_EEPROM_ADDR, MAX_WHITELIST_SIZE, x)
  {
    match FreeSlot(m, W_EEPROM_ADDR, MAX_WHITELIST_SIZE)
    case None =>
    case Some(a) =>
      FoundBeforeWrite(m, Insert(m, uid), W_EEPROM_ADDR, MAX_WHITELIST_SIZE, a, x);
  }

  lemma {:induction false} FoundBeforeWrite(m: seq<byte>, c: seq<byte>, index: nat, k: nat, a: nat, x: seq<byte>)
    requires ScanFits(m, index, k) && |c| == |m|
    requires FreeSlot(m, index, k) == Some(a)
    requires forall i :: index <= i < a ==> c[i] == m[i]
    requires FindRecord(m, index, k, x).Some?
    ensures FindRecord(c, index, k, x) == FindRecord(m, index, k, x)
    decreases k
  {
    var next := Next(m, index);
    SlotAdvances(m, index, k);
    assert index < next <= a;
    assert c[index] == m[index];
    assert c[index + 1 .. next] == m[index + 1 .. next];
    assert RecordAt(c, index) == RecordAt(m, index) && Next(c, index) == next;
    FindStep(m, index, k, x);
    FindStep(c, index, k, x);
    if RecordAt(m, index) != x {
      FoundBeforeWrite(m, c, next, k - 1, a, x);
    }
  }

  /** `r` when it is a record before `a`, otherwise `None`. */
  function FoundBefore(r: Option<nat>, a: nat): Option<nat> {
    if r.Some? && r.value < a then r else None
  }

  /** Zeroing the length byte of a visited record ends every later scan there: a lookup
      still finds the records before it and nothing at or after it. */
  lemma {:induction false} DeleteTruncates(m: seq<byte>, index: nat, k: nat, a: nat, x: seq<byte>)
    requires ScanFits(m, index, k) && a in Visited(m, index, k)
    ensures FindRecord(m[a := 0], index, k, x) == FoundBefore(FindRecord(m, index, k, x), a)
    decreases k
  {
    var d := m[a := 0];
    assert Visited(m, index, k) == [index] + Visited(m, Next(m, index), k - 1);
    if index == a {
      assert IsEmptyMarker(d[index]);
    } else {
      var next := Next(m, index);
      assert a in Visited(m, next, k - 1);
      assert d[index] == m[index];
      assert RecordAt(d, index) == RecordAt(m, index) by {
        assert d[index + 1 .. next] == m[index + 1 .. next];
      }
      if RecordAt(m, index) != x {
        DeleteTruncates(m, next, k - 1, a, x);
      }
    }
  }

  /** After `delete_uid` removes the record at `a`, the deleted UID is no longer whitelisted. */
  lemma DeletedUidNotWhitelisted(m: seq<byte>, uid: seq<byte>, a: nat)
    requires |m| == EEPROM_LENGTH
    requires FindRecord(m, W_EEPROM_ADDR, MAX_WHITELIST_SIZE, uid) == Some(a)
    ensures !Whitelisted(m[a := 0], uid)
  {
    FindRecordIsFirstMatch(m, W_EEPROM_ADDR, MAX_WHITELIST_SIZE, uid);
    DeleteTruncates(m, W_EEPROM_ADDR, MAX_WHITELIST_SIZE, a, uid);
  }

  /** After a delete, the next save reuses the deleted record's position. */
  lemma {:induction false} FreeSlotAfterDelete(m: seq<byte>, index: nat, k: nat, a: nat)
    requires ScanFits(m, index, k) && a in Visited(m, index, k)
    ensures FreeSlot(m[a := 0], index, k) == Some(a)
    decreases k
  {
    if index != a {
      assert a in Visited(m, Next(m, index), k - 1);
      FreeSlotAfterDelete(m, Next(m, index), k - 1, a);
    }
  }

  /** Saving, after a delete, a UID longer than the deleted one overwrites the length byte
      of the record that followed the deleted one with a byte of the new UID. */
  lemma LongerSaveAfterDeleteOverwritesNextRecord(m: seq<byte>, a: nat, uid: seq<byte>)
    requires |m| == EEPROM_LENGTH && |uid| <= MAX_UID_LENGTH
    requires a in Visited(m, W_EEPROM_ADDR, MAX_WHITELIST_SIZE) && m[a] < |uid|
    ensures Insert(m[a := 0], uid)[Next(m, a)] == uid[m[a]]
  {
    var d := m[a := 0];
    FreeSlotAfterDelete(m, W_EEPROM_ADDR, MAX_WHITELIST_SIZE, a);
    InsertAt(d, uid, a);
    RecordByteAt(d, a, uid, m[a]);
  }

  /** Byte `i` of a UID written as a record at `a` lands at `a + 1 + i`. */
  lemma RecordByteAt(m: seq<byte>, a: nat, uid: seq<byte>, i: nat)
    requires |uid| < 256 && a + 1 + |uid| <= |m| && i < |uid|
    ensures Overwrite(m, a, [|uid|] + uid)[a + 1 + i] == uid[i]
  {
    OverwriteAt(m, a, [|uid|] + uid, a + 1 + i);
  }

  /** The lookup reads only the first 55 bytes of the whitelist area as long as every record
      it visits is at most 10 bytes long, as `save_to_eeprom` writes them: writes elsewhere
      in EEPROM do not change which UIDs are whitelisted. */
  lemma {:induction false} ScanReadsOnlyItsArea(m: seq<byte>, c: seq<byte>, index: nat, k: nat, x: seq<byte>)
    requires ScanFits(m, index, k) && |c| == |m|
    requires forall a :: a in Visited(m, index, k) ==> m[a] <= MAX_UID_LENGTH
    requires forall i :: index <= i < index + 11 * k ==> c[i] == m[i]
    ensures Visited(c, index, k) == Visited(m, index, k)
    ensures FindRecord(c, index, k, x) == FindRecord(m, index, k, x)
    decreases k
  {
    if k > 0 {
      assert c[index] == m[index];
      if !IsEmptyMarker(m[index]) {
        assert Visited(m, index, k) == [index] + Visited(m, Next(m, index), k - 1);
        var next := Next(m, index);
        assert RecordAt(c, index) == RecordAt(m, index);
        assert Next(c, index) == next;
        ScanReadsOnlyItsArea(m, c, next, k - 1, x);
        FindStep(m, index, k, x);
        FindStep(c, index, k, x);
      }
    }
  }

  /** Whitelist records written by saves stay whitelisted whatever is written from address
      1024 on, where the configuration and the credentials live. */
  lemma WhitelistIgnoresWritesFrom1024(m: seq<byte>, addr: nat, data: seq<byte>, x: seq<byte>)
    requires |m| == EEPROM_LENGTH && 1024 <= addr && addr + |data| <= |m|
    requires forall a :: a in Visited(m, W_EEPROM_ADDR, MAX_WHITELIST_SIZE) ==> m[a] <= MAX_UID_LENGTH
    ensures Whitelisted(Overwrite(m, addr, data), x) == Whitelisted(m, x)
  {
    var c := Overwrite(m, addr, data);
    ScanReadsOnlyItsArea(m, c, W_EEPROM_ADDR, MAX_WHITELIST_SIZE, x);
  }

  // ---------------------------------------------------------------------------------
  // The three walks over EEPROM.

  /** The byte-by-byte comparison of `is_whitelisted`: reads every byte of the record and
      clears the match on any difference within the UID's length. */
  method CompareRecord(ee: Eeprom, index: nat, uid: seq<byte>) returns (matches: bool)
    requires ee.Valid() && index + 256 <= |ee.data|
    ensures matches <==> RecordAt(ee.data, index) == uid
  {
    var len := ee.data[index];
    matches := len == |uid|;
    var j := 0;
    while j < len
      invariant 0 <= j <= len
      invariant matches == (len == |uid| &&
                            forall t :: 0 <= t < j && t < |uid| ==> ee.data[index + 1 + t] == uid[t])
    {
      var readByte := ee.data[index + 1 + j];
      if j < |uid| && readByte != uid[j] {
        matches := false;
      }
      j := j + 1;
    }
    assert matches <==> RecordAt(ee.data, index) == uid by {
      if matches {
        assert forall t :: 0 <= t < len ==> RecordAt(ee.data, index)[t] == uid[t];
      }
    }
  }

  /** One record further along a scan that has not found `uid` at `index`. */
  lemma ScanAdvances(m: seq<byte>, index: nat, k: nat, uid: seq<byte>)
    requires ScanFits(m, index, k) && k > 0 && !IsEmptyMarker(m[index]) && RecordAt(m, index) != uid
    ensures ScanFits(m, Next(m, index), k - 1)
    ensures FindRecord(m, index, k, uid) == FindRecord(m, Next(m, index), k - 1, uid)
  {
  }

  /** One record further along a scan for a free position that has not found one at `index`. */
  lemma SlotAdvances(m: seq<byte>, index: nat, k: nat)
    requires ScanFits(m, index, k) && k > 0 && !IsEmptyMarker(m[index])
    ensures ScanFits(m, Next(m, index), k - 1)
    ensures FreeSlot(m, index, k) == FreeSlot(m, Next(m, index), k - 1)
  {
  }

  /** `is_whitelisted`: walks at most five records, comparing every byte of a record
      whose length equals the UID's. */
  method IsWhitelisted(ee: Eeprom, uid: seq<byte>) returns (found: bool)
    requires ee.Valid()
    ensures found == Whitelisted(ee.data, uid)
  {
    ghost var m := ee.data;
    var index: nat := W_EEPROM_ADDR;
    var i: nat := 0;
    while i < MAX_WHITELIST_SIZE
      invariant 0 <= i <= MAX_WHITELIST_SIZE
      invariant ScanFits(m, index, MAX_WHITELIST_SIZE - i)
      invariant FindRecord(m, W_EEPROM_ADDR, MAX_WHITELIST_SIZE, uid)
             == FindRecord(m, index, MAX_WHITELIST_SIZE - i, uid)
    {
      var len := ee.data[index];
      if len == 0xFF || len == 0 {
        break;
      }
      var matches := CompareRecord(ee, index, uid);
      if matches {
        return true;
      }
      ScanAdvances(m, index, MAX_WHITELIST_SIZE - i, uid);
      index := index + 1 + len;
      i := i + 1;
    }
    return false;
  }

  /** The scan of `save_to_eeprom`: the first visited position whose length byte is empty. */
  method LocateFreeSlot(ee: Eeprom) returns (slot: Option<nat>)
    requires ee.Valid()
    ensures slot == FreeSlot(ee.data, W_EEPROM_ADDR, MAX_WHITELIST_SIZE)
  {
    ghost var m := ee.data;
    var index: nat := W_EEPROM_ADDR;
    var i: nat := 0;
    while i < MAX_WHITELIST_SIZE
      invariant 0 <= i <= MAX_WHITELIST_SIZE
      invariant ScanFits(m, index, MAX_WHITELIST_SIZE - i)
      invariant FreeSlot(m, W_EEPROM_ADDR, MAX_WHITELIST_SIZE) == FreeSlot(m, index, MAX_WHITELIST_SIZE - i)
    {
      var len := ee.data[index];
      if len == 0xFF || len == 0 {
        return Some(index);
      }
      SlotAdvances(m, index, MAX_WHITELIST_SIZE - i);
      index := index + 1 + len;
      i := i + 1;
    }
    return None;
  }

  /** The write of `save_to_eeprom`: the length byte at `a`, then the UID bytes after it. */
  method WriteRecord(ee: Eeprom, a: nat, uid: seq<byte>)
    requires ee.Valid() && |uid| <= MAX_UID_LENGTH && a + 1 + |uid| <= |ee.data|
    modifies ee
    ensures ee.Valid() && ee.data == Overwrite(old(ee.data), a, [|uid|] + uid)
  {
    ee.Write(a, |uid|);
    var j := 0;
    while j < |uid|
      invariant 0 <= j <= |uid|
      invariant ee.Valid()
      invariant ee.data == Overwrite(old(ee.data), a, [|uid|] + uid[..j])
    {
      ee.Write(a + 1 + j, uid[j]);
      assert [|uid|] + uid[..j + 1] == ([|uid|] + uid[..j]) + [uid[j]];
      j := j + 1;
    }
    assert uid[..j] == uid;
  }

  /** `save_to_eeprom`: writes the length byte and the UID bytes at the first visited
      position whose length byte is empty; writes nothing when five records precede it. */
  method SaveToEeprom(ee: Eeprom, uid: seq<byte>)
    requires ee.Valid() && |uid| <= MAX_UID_LENGTH
    modifies ee
    ensures ee.Valid() && ee.data == Insert(old(ee.data), uid)
  {
    var slot := LocateFreeSlot(ee);
    if slot.Some? {
      WriteRecord(ee, slot.value, uid);
    }
  }

  /** The comparison of `delete_uid`: only a record whose length equals the UID's is
      compared, byte by byte, stopping at the first difference. */
  method RecordMatches(ee: Eeprom, index: nat, key: seq<byte>) returns (matches: bool)
    requires ee.Valid() && index + 256 <= |ee.data|
    ensures matches <==> RecordAt(ee.data, index) == key
  {
    if ee.data[index] != |key| {
      return false;
    }
    matches := true;
    var j: nat := 0;
    while j < |key|
      invariant 0 <= j <= |key|
      invariant matches == forall t :: 0 <= t < j ==> ee.data[index + 1 + t] == key[t]
    {
      var readByte := ee.data[index + 1 + j];
      if readByte != key[j] {
        matches := false;
        break;
      }
      j := j + 1;
    }
    assert matches <==> RecordAt(ee.data, index) == key by {
      if matches {
        assert forall t :: 0 <= t < |key| ==> RecordAt(ee.data, index)[t] == key[t];
      }
    }
  }

  datatype DeleteOutcome = InvalidUid | NotFound | Deleted(at: nat)

  /** The scan of `delete_uid`: stops at the first visited record equal to the UID. */
  method LocateRecord(ee: Eeprom, key: seq<byte>) returns (at: Option<nat>)
    requires ee.Valid()
    ensures at == FindRecord(ee.data, W_EEPROM_ADDR, MAX_WHITELIST_SIZE, key)
  {
    ghost var m := ee.data;
    var index: nat := W_EEPROM_ADDR;
    var i: nat := 0;
    while i < MAX_WHITELIST_SIZE
      invariant 0 <= i <= MAX_WHITELIST_SIZE
      invariant ScanFits(m, index, MAX_WHITELIST_SIZE - i)
      invariant FindRecord(m, W_EEPROM_ADDR, MAX_WHITELIST_SIZE, key)
             == FindRecord(m, index, MAX_WHITELIST_SIZE - i, key)
    {
      var len := ee.data[index];
      if len == 0xFF || len == 0 {
        break;
      }
      var matches := RecordMatches(ee, index, key);
      if matches {
        return Some(index);
      }
      ScanAdvances(m, index, MAX_WHITELIST_SIZE - i, key);
      index := index + 1 + len;
      i := i + 1;
    }
    return None;
  }

  /** `delete_uid`: rejects a missing (null), empty or over-long UID; otherwise zeroes the
      length byte of the first visited record equal to it, and only that byte. */
  method DeleteUid(ee: Eeprom, uid: Option<seq<byte>>) returns (outcome: DeleteOutcome)
    requires ee.Valid()
    modifies ee
    ensures ee.Valid()
    ensures outcome.InvalidUid? <==> (uid.None? || |uid.value| == 0 || |uid.value| > MAX_UID_LENGTH)
    ensures !outcome.InvalidUid? ==>
              match FindRecord(old(ee.data), W_EEPROM_ADDR, MAX_WHITELIST_SIZE, uid.value)
              case None => outcome == NotFound
              case Some(a) => outcome == Deleted(a)
    ensures outcome.Deleted? ==> ee.data == old(ee.data)[outcome.at := 0]
    ensures !outcome.Deleted? ==> ee.data == old(ee.data)
  {
    if uid.None? || |uid.value| == 0 || |uid.value| > MAX_UID_LENGTH {
      return InvalidUid;
    }
    var at := LocateRecord(ee, uid.value);
    if at.None? {
      return NotFound;
    }
    ee.Write(at.value, 0);
    return Deleted(at.value);
  }
}
