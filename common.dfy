/** Shared vocabulary of the node: bytes, 32-bit unsigned clock arithmetic, C strings,
    and the board's EEPROM, which every persistent component reads and writes. */
module Common {

  type byte = x: int | 0 <= x < 256

  /** `uint32_t` and, on this 32-bit board, `unsigned long` (what `millis()` returns). */
  type uint32 = x: int | 0 <= x < 0x1_0000_0000

  const UINT32_MODULUS: int := 0x1_0000_0000

  /** Size of the emulated EEPROM of the board the firmware targets (8 KiB of data flash). */
  const EEPROM_LENGTH: nat := 8192

  datatype Option<T> = None | Some(value: T)

  /** `now - since` evaluated in unsigned 32-bit arithmetic, as in `millis() - start`. */
  function Elapsed(now: uint32, since: uint32): (d: uint32)
    ensures now >= since ==> d == now - since
    ensures now < since ==> d == now - since + UINT32_MODULUS
  {
    (now - since) % UINT32_MODULUS
  }

  /** The bytes of a C string held in `s`: everything before the first NUL, or all of `s`. */
  function CString(s: seq<byte>): (r: seq<byte>)
    ensures |r| <= |s| && r == s[..|r|]
    ensures forall i :: 0 <= i < |r| ==> r[i] != 0
    ensures |r| < |s| ==> s[|r|] == 0
  {
    if s == [] || s[0] == 0 then [] else [s[0]] + CString(s[1..])
  }

  predicate NulFree(s: seq<byte>) {
    forall i :: 0 <= i < |s| ==> s[i] != 0
  }

  /** Reading a C string back: a NUL-free text followed by a NUL reads as that text. */
  lemma {:induction false} CStringOfTerminated(t: seq<byte>, rest: seq<byte>)
    requires NulFree(t)
    ensures CString(t + [0] + rest) == t
  {
    if t != [] {
      assert (t + [0] + rest)[1..] == t[1..] + [0] + rest;
      CStringOfTerminated(t[1..], rest);
    }
  }

  /** A NUL-free text with nothing after it reads back whole. */
  lemma {:induction false} CStringOfNulFree(t: seq<byte>)
    requires NulFree(t)
    ensures CString(t) == t
  {
    if t != [] {
      CStringOfNulFree(t[1..]);
    }
  }

  /** `m` with `data` written from address `addr` on. */
  function Overwrite(m: seq<byte>, addr: nat, data: seq<byte>): (r: seq<byte>)
    requires addr + |data| <= |m|
    ensures |r| == |m|
    ensures r[addr..addr + |data|] == data
    ensures forall i :: 0 <= i < |m| && !(addr <= i < addr + |data|) ==> r[i] == m[i]
  {
    m[..addr] + data + m[addr + |data|..]
  }

  /** A byte inside the overwritten range is the written one. */
  lemma OverwriteAt(m: seq<byte>, addr: nat, data: seq<byte>, i: nat)
    requires addr + |data| <= |m| && addr <= i < addr + |data|
    ensures Overwrite(m, addr, data)[i] == data[i - addr]
  {
    assert Overwrite(m, addr, data)[addr .. addr + |data|][i - addr] == data[i - addr];
  }

  /** `after` has the length of `before` and differs from it at most in `[lo, hi)`. */
  predicate ChangedOnlyIn(before: seq<byte>, after: seq<byte>, lo: nat, hi: nat) {
    |after| == |before| && forall i :: 0 <= i < |before| && !(lo <= i < hi) ==> after[i] == before[i]
  }

  /** Writing `x` and then the byte `v` right after it is writing `x + [v]`. */
  lemma OverwriteExtend(m: seq<byte>, addr: nat, x: seq<byte>, v: byte)
    requires addr + |x| < |m|
    ensures Overwrite(m, addr, x)[addr + |x| := v] == Overwrite(m, addr, x + [v])
  {
    var a := Overwrite(m, addr, x)[addr + |x| := v];
    var b := Overwrite(m, addr, x + [v]);
    forall i | 0 <= i < |m| ensures a[i] == b[i] {
      if addr <= i < addr + |x| {
        OverwriteAt(m, addr, x, i);
        OverwriteAt(m, addr, x + [v], i);
      } else if i == addr + |x| {
        OverwriteAt(m, addr, x + [v], i);
      }
    }
  }

  /** Writing `x` and then `y` right after it is writing `x + y`. */
  lemma OverwriteAdjacent(m: seq<byte>, addr: nat, x: seq<byte>, y: seq<byte>)
    requires addr + |x| + |y| <= |m|
    ensures Overwrite(Overwrite(m, addr, x), addr + |x|, y) == Overwrite(m, addr, x + y)
  {
    var a := Overwrite(Overwrite(m, addr, x), addr + |x|, y);
    var b := Overwrite(m, addr, x + y);
    assert forall i :: 0 <= i < |m| ==> a[i] == b[i];
  }

  /** Appending in two steps is appending the two parts at once. */
  lemma AppendAssoc<T>(a: seq<T>, b: seq<T>, c: seq<T>)
    ensures a + (b + c) == (a + b) + c
  {
  }

  /** `m` with `count` bytes from `addr` set to zero. */
  function Zeroed(m: seq<byte>, addr: nat, count: nat): (r: seq<byte>)
    requires addr + count <= |m|
    ensures |r| == |m|
    ensures forall i :: addr <= i < addr + count ==> r[i] == 0
    ensures forall i :: 0 <= i < |m| && !(addr <= i < addr + count) ==> r[i] == m[i]
  {
    Overwrite(m, addr, seq(count, _ => 0))
  }

  /** The board's EEPROM: one byte array shared by every persistent component.
      `Write` and `Put` are the library's `EEPROM.write` and `EEPROM.put`. */
  class Eeprom {
    var data: seq<byte>

    ghost predicate Valid()
      reads this
    {
      |data| == EEPROM_LENGTH
    }

    constructor (initial: seq<byte>)
      requires |initial| == EEPROM_LENGTH
      ensures Valid() && data == initial
    {
      data := initial;
    }

    method Write(addr: nat, value: byte)
      requires Valid() && addr < |data|
      modifies this
      ensures Valid() && data == old(data)[addr := value]
    {
      data := data[addr := value];
    }

    /** Writes `bytes` byte by byte from `addr` on. */
    method Put(addr: nat, bytes: seq<byte>)
      requires Valid() && addr + |bytes| <= |data|
      modifies this
      ensures Valid() && data == Overwrite(old(data), addr, bytes)
    {
      var i := 0;
      while i < |bytes|
        invariant 0 <= i <= |bytes|
        invariant Valid()
        invariant data == Overwrite(old(data), addr, bytes[..i])
      {
        Write(addr + i, bytes[i]);
        OverwriteExtend(old(data), addr, bytes[..i], bytes[i]);
        assert bytes[..i] + [bytes[i]] == bytes[..i + 1];
        i := i + 1;
      }
      assert bytes[..i] == bytes;
    }

    /** Writes 0 to `count` bytes from `addr` on. */
    method Clear(addr: nat, count: nat)
      requires Valid() && addr + count <= |data|
      modifies this
      ensures Valid() && data == Zeroed(old(data), addr, count)
    {
      var i := 0;
      while i < count
        invariant 0 <= i <= count
        invariant Valid()
        invariant forall k :: addr <= k < addr + i ==> data[k] == 0
        invariant forall k :: 0 <= k < |data| && !(addr <= k < addr + i) ==> data[k] == old(data)[k]
      {
        Write(addr + i, 0);
        i := i + 1;
      }
      assert data == Zeroed(old(data), addr, count);
    }
  }
}
