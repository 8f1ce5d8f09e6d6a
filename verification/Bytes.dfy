/** Bytes, optional values and big-endian fields, shared by every other module. */
module Bytes {

  datatype Option<+T> = None | Some(value: T)

  type byte = x: int | 0 <= x < 256

  type u16 = x: int | 0 <= x < 0x1_0000

  type u32 = x: int | 0 <= x < 0x1_0000_0000

  function Be16(hi: byte, lo: byte): u16 {
    256 * hi + lo
  }

  lemma Be16IsInjective(a: byte, b: byte, c: byte, d: byte)
    requires Be16(a, b) == Be16(c, d)
    ensures a == c && b == d
  {
  }

  function PutBe16(v: u16): (s: seq<byte>)
    ensures |s| == 2 && Be16(s[0], s[1]) == v
  {
    [v / 256, v % 256]
  }

  /** The byte at offset i, absent when the packet is too short. */
  function ByteAt(p: seq<byte>, i: nat): Option<byte> {
    if i < |p| then Some(p[i]) else None
  }

  /** The big-endian 16-bit field at offset i, absent when the packet is too short. */
  function HalfAt(p: seq<byte>, i: nat): Option<u16> {
    if i + 1 < |p| then Some(Be16(p[i], p[i + 1])) else None
  }

  /** memcmp on the first |b| bytes: the sign of a - b read as big-endian strings. */
  function Compare(a: seq<byte>, b: seq<byte>): int
    requires |a| == |b|
  {
    if a == [] then 0
    else if a[0] < b[0] then -1
    else if a[0] > b[0] then 1
    else Compare(a[1..], b[1..])
  }

  lemma {:induction false} CompareEqual(a: seq<byte>, b: seq<byte>)
    requires |a| == |b|
    ensures Compare(a, b) == 0 <==> a == b
  {
    if a != [] {
      CompareEqual(a[1..], b[1..]);
      assert a == [a[0]] + a[1..] && b == [b[0]] + b[1..];
    }
  }

  /** Comparing two 16-bit fields byte by byte in network order compares their values. */
  lemma CompareBe16(a: seq<byte>, b: seq<byte>)
    requires |a| == 2 && |b| == 2
    ensures Compare(a, b) < 0 <==> Be16(a[0], a[1]) < Be16(b[0], b[1])
    ensures Compare(a, b) > 0 <==> Be16(a[0], a[1]) > Be16(b[0], b[1])
  {
    assert a[1..][1..] == [] && b[1..][1..] == [];
    assert Compare(a[1..][1..], b[1..][1..]) == 0;
    assert Compare(a[1..], b[1..]) == if a[1] < b[1] then -1 else if a[1] > b[1] then 1 else 0;
  }
}
