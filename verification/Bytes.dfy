/** Machine integers, little-endian byte strings and the Option type shared by every module.
    All the wire structures of the firmware are packed and little-endian (the targets are
    little-endian Arm cores, the Python client packs with "<"). */
module Bytes {

  datatype Option<+T> = None | Some(value: T)

  type u8 = x: nat | x < 0x100
  type u16 = x: nat | x < 0x1_0000
  type u32 = x: nat | x < 0x1_0000_0000

  type bytes = seq<u8>

  function Le16(x: u16): (b: bytes)
    ensures |b| == 2 && FromLe16(b) == x
  {
    [x % 0x100, x / 0x100]
  }

  function FromLe16(b: bytes): u16
    requires |b| == 2
  {
    b[0] as int + 0x100 * (b[1] as int)
  }

  function Le32(x: u32): (b: bytes)
    ensures |b| == 4 && FromLe32(b) == x
  {
    Le16(x % 0x1_0000) + Le16(x / 0x1_0000)
  }

  function FromLe32(b: bytes): u32
    requires |b| == 4
  {
    FromLe16(b[..2]) as int + 0x1_0000 * (FromLe16(b[2..]) as int)
  }

  lemma Le16Inverse(b: bytes)
    requires |b| == 2
    ensures Le16(FromLe16(b)) == b
  {
  }

  lemma Le32Inverse(b: bytes)
    requires |b| == 4
    ensures Le32(FromLe32(b)) == b
  {
    var lo, hi := FromLe16(b[..2]), FromLe16(b[2..]);
    assert Le16(lo) == b[..2] && Le16(hi) == b[2..];
    assert FromLe32(b) % 0x1_0000 == lo && FromLe32(b) / 0x1_0000 == hi;
    assert b == b[..2] + b[2..];
  }

  function Min(a: int, b: int): int {
    if a < b then a else b
  }

  /** Concatenation of a list of byte strings. */
  function Concat(parts: seq<bytes>): bytes {
    if |parts| == 0 then [] else parts[0] + Concat(parts[1..])
  }

  lemma Assoc(a: bytes, b: bytes, c: bytes)
    ensures a + (b + c) == (a + b) + c
  {
  }

  lemma {:induction false} ConcatAppend(a: seq<bytes>, b: seq<bytes>)
    ensures Concat(a + b) == Concat(a) + Concat(b)
  {
    if |a| == 0 {
      assert a + b == b;
    } else {
      var t := a[1..];
      ConcatAppend(t, b);
      assert (a + b)[1..] == t + b;
      Assoc(a[0], Concat(t), Concat(b));
    }
  }
}
