/** IPv4 addresses as 32-bit numbers, and the address pool of the DHCP server. */
module Addresses {
  import opened Bytes

  type Ip4 = u32

  type Quad = a: seq<byte> | |a| == 4 witness [0, 0, 0, 0]

  /** Number of addresses the server hands out. */
  const LEASE_RANGE := 230

  const WRAP := 0x1_0000_0000

  /** Four bytes in network order. */
  function ToU32(a: seq<byte>): Ip4
    requires |a| == 4
  {
    var hi: int, lo: int := Be16(a[0], a[1]), Be16(a[2], a[3]);
    0x1_0000 * hi + lo
  }

  lemma ToU32IsInjective(a: seq<byte>, b: seq<byte>)
    requires |a| == 4 && |b| == 4 && ToU32(a) == ToU32(b)
    ensures a == b
  {
    hide Be16;
    assert Be16(a[0], a[1]) == Be16(b[0], b[1]) && Be16(a[2], a[3]) == Be16(b[2], b[3]);
    Be16IsInjective(a[0], a[1], b[0], b[1]);
    Be16IsInjective(a[2], a[3], b[2], b[3]);
    assert a == [a[0], a[1], a[2], a[3]] && b == [b[0], b[1], b[2], b[3]];
  }

  /** net.IP.To4: a 4-byte address, or a 16-byte one that is IPv4-mapped. */
  function To4(ip: seq<byte>): Option<Ip4> {
    if |ip| == 4 then Some(ToU32(ip))
    else if |ip| == 16 && ip[..12] == [0, 0, 0, 0, 0, 0, 0, 0, 0, 0, 0xff, 0xff] then Some(ToU32(ip[12..]))
    else None
  }

  /** dhcp4.IPRange: how many addresses lie between the two, both included. */
  function IPRange(start: Ip4, stop: Ip4): int {
    stop - start + 1
  }

  /** The value modulo 2^32. */
  function Wrap(v: nat): Ip4 {
    if v < WRAP then v else Wrap(v - WRAP)
  }

  /** dhcp4.IPAdd, on 32-bit addresses. */
  function IPAdd(start: Ip4, n: nat): Ip4 {
    Wrap(start as int + n)
  }

  /** First address of the pool: the server's with its last byte, alone, incremented. */
  function Start(server: Ip4): Ip4 {
    if server % 256 == 255 then server - 255 else server + 1
  }

  /** The address of a slot in the pool that begins at start. */
  function AddressOf(start: Ip4, slot: nat): Ip4 {
    IPAdd(start, slot)
  }

  /** The slot of an address, which may lie outside the pool. */
  function SlotOf(start: Ip4, a: Ip4): int {
    IPRange(start, a) - 1
  }

  /** Address to slot to address, on every address that has a slot. */
  lemma AddressOfSlot(start: Ip4, a: Ip4)
    requires 0 <= SlotOf(start, a)
    ensures AddressOf(start, SlotOf(start, a)) == a
  {
  }

  /** An address past the end of the address space wraps around once. */
  lemma WrapOnce(start: Ip4, n: nat)
    requires n < LEASE_RANGE
    ensures AddressOf(start, n) as int == if start as int + n < WRAP then start as int + n else start as int + n - WRAP
  {
    if start as int + n >= WRAP {
      assert Wrap(start as int + n) == Wrap(start as int + n - WRAP);
    }
  }

  /** Slot to address to slot: lost exactly when the addition wraps around. */
  lemma SlotOfAddress(start: Ip4, n: nat)
    requires n < LEASE_RANGE
    ensures SlotOf(start, AddressOf(start, n)) == n <==> start <= AddressOf(start, n)
    ensures start <= AddressOf(start, n) <==> start as int + n < WRAP
  {
    WrapOnce(start, n);
  }

  lemma AddressOfIsInjective(start: Ip4, m: nat, n: nat)
    requires m < LEASE_RANGE && n < LEASE_RANGE && AddressOf(start, m) == AddressOf(start, n)
    ensures m == n
  {
    WrapOnce(start, m);
    WrapOnce(start, n);
  }

  /** A host address of the server's /24 other than the server's own. */
  predicate UsableFor(server: Ip4, a: Ip4) {
    a / 256 == server / 256 && a % 256 != 0 && a % 256 != 255 && a != server
  }

  /** Slots that do not run past the last octet only change the last octet. */
  lemma InSubnet(server: Ip4, n: nat)
    requires Start(server) % 256 + n <= 255
    ensures AddressOf(Start(server), n) as int == server - server % 256 + (Start(server) % 256 + n)
    ensures AddressOf(Start(server), n) / 256 == server / 256
    ensures AddressOf(Start(server), n) % 256 == Start(server) % 256 + n
  {
  }

  /** The four bytes of an address, most significant first. */
  lemma BytesOfAddress(a: Quad)
    ensures ToU32(a) as int ==
            0x100_0000 * (a[0] as int) + 0x1_0000 * (a[1] as int) + 0x100 * (a[2] as int) + a[3] as int
  {
  }

  lemma LastByte(a: Quad, last: byte)
    ensures ToU32(a) % 256 == a[3]
    ensures ToU32(a[3 := last]) as int == ToU32(a) as int - a[3] as int + last as int
  {
    BytesOfAddress(a);
    BytesOfAddress(a[3 := last]);
    hide ToU32;
  }

  /** The pool starts at the server's address with its last byte, alone,
      incremented; as long as that byte does not overflow, a slot is added to it. */
  lemma PoolBytes(server: Quad, n: nat)
    requires n < LEASE_RANGE
    ensures var last := if server[3] == 255 then 0 else server[3] + 1;
            && Start(ToU32(server)) == ToU32(server[3 := last])
            && (last + n <= 255 ==> AddressOf(Start(ToU32(server)), n) == ToU32(server[3 := last + n]))
  {
    hide ToU32;
    hide AddressOf;
    var last := if server[3] == 255 then 0 else server[3] + 1;
    LastByte(server, last);
    WrapOnce(Start(ToU32(server)), n);
    if last + n <= 255 { LastByte(server, last + n); }
  }

  /** Every pool address is usable exactly when the server's last octet is at most 24. */
  lemma PoolIsUsable(server: Ip4)
    ensures (forall n :: 0 <= n < LEASE_RANGE ==> UsableFor(server, AddressOf(Start(server), n))) <==>
            server % 256 <= 24
  {
    var last := server % 256;
    if last <= 24 {
      forall n | 0 <= n < LEASE_RANGE
        ensures UsableFor(server, AddressOf(Start(server), n))
      {
        InSubnet(server, n);
      }
    } else {
      var n := if last == 255 then 0 else 254 - last;
      InSubnet(server, n);
      assert !UsableFor(server, AddressOf(Start(server), n));
    }
  }
}
