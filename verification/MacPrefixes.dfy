/** Hardware addresses as text, and the device quirk that depends on them (dhcp4d). */
module MacPrefixes {
  import opened Bytes

  datatype Prefix = P(b0: byte, b1: byte, b2: byte) {
    function Bytes(): seq<byte> { [b0, b1, b2] }

    /** The prefix as one number, most significant byte first. */
    function Key(): nat { 65536 * b0 + 256 * b1 + b2 }
  }

  /** The address prefixes of Nintendo devices, in ascending order (in five parts). */
  const NINTENDO := NINTENDO_A + NINTENDO_B + NINTENDO_C + NINTENDO_D + NINTENDO_E

  const NINTENDO_A: seq<Prefix> := [
    P(0x0, 0x9, 0xbf), P(0x0, 0x16, 0x56), P(0x0, 0x17, 0xab), P(0x0, 0x19, 0x1d),
    P(0x0, 0x19, 0xfd), P(0x0, 0x1a, 0xe9), P(0x0, 0x1b, 0x7a), P(0x0, 0x1b, 0xea),
    P(0x0, 0x1c, 0xbe), P(0x0, 0x1d, 0xbc), P(0x0, 0x1e, 0x35), P(0x0, 0x1e, 0xa9),
    P(0x0, 0x1f, 0x32), P(0x0, 0x1f, 0xc5)
  ]

  const NINTENDO_B: seq<Prefix> := [
    P(0x0, 0x21, 0x47), P(0x0, 0x21, 0xbd), P(0x0, 0x22, 0x4c), P(0x0, 0x22, 0xaa),
    P(0x0, 0x22, 0xd7), P(0x0, 0x23, 0x31), P(0x0, 0x23, 0xcc), P(0x0, 0x24, 0x1e),
    P(0x0, 0x24, 0x44), P(0x0, 0x24, 0xf3), P(0x0, 0x25, 0xa0), P(0x0, 0x26, 0x59),
    P(0x0, 0x27, 0x9), P(0x4, 0x3, 0xd6)
  ]

  const NINTENDO_C: seq<Prefix> := [
    P(0x18, 0x2a, 0x7b), P(0x2c, 0x10, 0xc1), P(0x34, 0x2f, 0xbd), P(0x34, 0xaf, 0x2c),
    P(0x40, 0xd2, 0x8a), P(0x40, 0xf4, 0x7), P(0x48, 0xa5, 0xe7), P(0x58, 0x2f, 0x40),
    P(0x58, 0xbd, 0xa3), P(0x5c, 0x52, 0x1e), P(0x60, 0x6b, 0xff), P(0x64, 0xb5, 0xc6),
    P(0x70, 0x48, 0xf7), P(0x78, 0xa2, 0xa0)
  ]

  const NINTENDO_D: seq<Prefix> := [
    P(0x7c, 0xbb, 0x8a), P(0x8c, 0x56, 0xc5), P(0x8c, 0xcd, 0xe8), P(0x94, 0x58, 0xcb),
    P(0x98, 0x41, 0x5c), P(0x98, 0xb6, 0xe9), P(0x98, 0xe8, 0xfa), P(0x9c, 0xe6, 0x35),
    P(0xa4, 0x38, 0xcc), P(0xa4, 0x5c, 0x27), P(0xa4, 0xc0, 0xe1), P(0xb8, 0x78, 0x26),
    P(0xb8, 0x8a, 0xec), P(0xb8, 0xae, 0x6e)
  ]

  const NINTENDO_E: seq<Prefix> := [
    P(0xcc, 0x9e, 0x0), P(0xcc, 0xfb, 0x65), P(0xd4, 0xf0, 0x57), P(0xd8, 0x6b, 0xf7),
    P(0xdc, 0x68, 0xeb), P(0xe0, 0xc, 0x7f), P(0xe0, 0xe7, 0x51), P(0xe0, 0xf6, 0xb5),
    P(0xe8, 0x4e, 0xce), P(0xe8, 0xda, 0x20), P(0xec, 0xc4, 0xd)
  ]

  const HOUR: int := 3_600_000_000_000 // nanoseconds

  // ---------------------------------------------------------------- text form

  const HEX := "0123456789abcdef"

  function Hex2(b: byte): string {
    [HEX[b / 16], HEX[b % 16]]
  }

  /** net.HardwareAddr.String: two lower-case hex digits a byte, colons between. */
  function FormatMac(m: seq<byte>): string {
    if m == [] then ""
    else if |m| == 1 then Hex2(m[0])
    else Hex2(m[0]) + ":" + FormatMac(m[1..])
  }

  function StripColons(s: string): string {
    if s == "" then ""
    else if s[0] == ':' then StripColons(s[1..])
    else [s[0]] + StripColons(s[1..])
  }

  function Nibble(c: char): Option<nat> {
    if '0' <= c <= '9' then Some((c - '0') as nat)
    else if 'a' <= c <= 'f' then Some((c - 'a') as nat + 10)
    else if 'A' <= c <= 'F' then Some((c - 'A') as nat + 10)
    else None
  }

  /** hex.DecodeString: absent for an odd length or a character that is no hex digit. */
  function HexDecode(s: string): Option<seq<byte>> {
    if s == "" then Some([])
    else if |s| == 1 then None
    else
      match (Nibble(s[0]), Nibble(s[1]), HexDecode(s[2..]))
      case (Some(hi), Some(lo), Some(rest)) => Some([16 * hi + lo] + rest)
      case _ => None
  }

  lemma HexDigit(d: nat)
    requires d < 16
    ensures Nibble(HEX[d]) == Some(d) && HEX[d] != ':'
  {
  }

  /** Hex digits are read in either case. */
  lemma UpperCaseDigit(d: nat)
    requires d < 16
    ensures Nibble("0123456789ABCDEF"[d]) == Some(d)
  {
  }

  lemma StripHead(b: byte, rest: string)
    ensures StripColons(Hex2(b) + rest) == Hex2(b) + StripColons(rest)
  {
    HexDigit(b / 16);
    HexDigit(b % 16);
    var s := Hex2(b) + rest;
    assert s[1..][1..] == rest;
    assert StripColons(s) == [s[0]] + StripColons(s[1..]);
    assert StripColons(s[1..]) == [s[1]] + StripColons(rest);
  }

  lemma DecodeHead(b: byte, rest: string)
    ensures HexDecode(Hex2(b) + rest) ==
            match HexDecode(rest) { case None => None case Some(m) => Some([b] + m) }
  {
    HexDigit(b / 16);
    HexDigit(b % 16);
    assert (Hex2(b) + rest)[2..] == rest;
  }

  /** Without its colons, the text starts with the digits of the first byte. */
  lemma StripFormat(m: seq<byte>)
    requires m != []
    ensures StripColons(FormatMac(m)) == Hex2(m[0]) + StripColons(FormatMac(m[1..]))
  {
    var rest := if |m| == 1 then "" else ":" + FormatMac(m[1..]);
    assert FormatMac(m) == Hex2(m[0]) + rest;
    assert |m| > 1 ==> rest[1..] == FormatMac(m[1..]);
    StripHead(m[0], rest);
    hide Hex2;
  }

  /** Formatting, dropping the colons and decoding gives back the address. */
  lemma {:induction false} MacRoundTrip(m: seq<byte>)
    ensures HexDecode(StripColons(FormatMac(m))) == Some(m)
  {
    if m != [] {
      hide HexDecode;
      hide Hex2;
      hide StripColons;
      hide FormatMac;
      MacRoundTrip(m[1..]);
      StripFormat(m);
      DecodeHead(m[0], StripColons(FormatMac(m[1..])));
      assert m == [m[0]] + m[1..];
    }
  }

  /** The text of an address: for each byte its two hex digits, high one first, with colons between. */
  lemma {:induction false} MacText(m: seq<byte>)
    ensures |FormatMac(m)| == if m == [] then 0 else 3 * |m| - 1
    ensures forall i :: 0 <= i < |m| ==>
                          && FormatMac(m)[3 * i] == "0123456789abcdef"[m[i] / 16]
                          && FormatMac(m)[3 * i + 1] == "0123456789abcdef"[m[i] % 16]
                          && (i + 1 < |m| ==> FormatMac(m)[3 * i + 2] == ':')
  {
    if |m| > 1 {
      MacText(m[1..]);
      var s, rest := FormatMac(m), FormatMac(m[1..]);
      assert s == Hex2(m[0]) + ":" + rest;
      forall i | 0 <= i < |m|
        ensures s[3 * i] == HEX[m[i] / 16] && s[3 * i + 1] == HEX[m[i] % 16] && (i + 1 < |m| ==> s[3 * i + 2] == ':')
      {
        if i > 0 {
          assert m[i] == m[1..][i - 1];
          assert s[3 * i] == rest[3 * (i - 1)] && s[3 * i + 1] == rest[3 * (i - 1) + 1];
          assert i + 1 < |m| ==> s[3 * i + 2] == rest[3 * (i - 1) + 2];
        }
      }
    }
  }

  /** Two clients have the same text only when they have the same hardware address. */
  lemma MacTextIsInjective(m: seq<byte>, n: seq<byte>)
    requires FormatMac(m) == FormatMac(n)
    ensures m == n
  {
    MacRoundTrip(m);
    MacRoundTrip(n);
  }

  // ---------------------------------------------------------------- the quirk

  predicate Listed(m: seq<byte>)
    requires |m| >= 3
  {
    P(m[0], m[1], m[2]) in NINTENDO
  }

  /** The lease period of a client: an hour for the listed devices. */
  function LeasePeriodOf(hwAddr: string, leasePeriod: int): int {
    match HexDecode(StripColons(hwAddr))
    case None => leasePeriod
    case Some(m) => if |m| == 6 && Listed(m) then HOUR else leasePeriod
  }

  /** For a client known by its address, being a listed six-byte address is what counts. */
  lemma LeasePeriodOfMac(m: seq<byte>, leasePeriod: int)
    ensures LeasePeriodOf(FormatMac(m), leasePeriod) ==
            if |m| == 6 && P(m[0], m[1], m[2]) in NINTENDO then 3_600_000_000_000 else leasePeriod
  {
    MacRoundTrip(m);
  }

  // ---------------------------------------------------------- binary search

  ghost predicate Ascending(t: seq<Prefix>) {
    forall i, j :: 0 <= i < j < |t| ==> t[i].Key() < t[j].Key()
  }

  predicate AscendsFrom(t: seq<Prefix>, i: nat)
    requires i < |t|
    decreases |t| - i
  {
    i + 1 == |t| || (t[i].Key() < t[i + 1].Key() && AscendsFrom(t, i + 1))
  }

  lemma {:induction false} AscendsFromAbove(t: seq<Prefix>, i: nat)
    requires i < |t| && AscendsFrom(t, i)
    ensures forall j, k :: i <= j < k < |t| ==> t[j].Key() < t[k].Key()
    decreases |t| - i
  {
    if i + 1 < |t| { AscendsFromAbove(t, i + 1); }
  }

  lemma PartAscendsA()
    ensures Ascending(NINTENDO_A)
  {
    assert AscendsFrom(NINTENDO_A, 8);
    AscendsFromAbove(NINTENDO_A, 0);
  }

  lemma PartAscendsB()
    ensures Ascending(NINTENDO_B)
  {
    assert AscendsFrom(NINTENDO_B, 8);
    AscendsFromAbove(NINTENDO_B, 0);
  }

  lemma PartAscendsC()
    ensures Ascending(NINTENDO_C)
  {
    assert AscendsFrom(NINTENDO_C, 8);
    AscendsFromAbove(NINTENDO_C, 0);
  }

  lemma PartAscendsD()
    ensures Ascending(NINTENDO_D)
  {
    assert AscendsFrom(NINTENDO_D, 8);
    AscendsFromAbove(NINTENDO_D, 0);
  }

  lemma PartAscendsE()
    ensures Ascending(NINTENDO_E)
  {
    assert AscendsFrom(NINTENDO_E, 8);
    AscendsFromAbove(NINTENDO_E, 0);
  }

  lemma Joins(s: seq<Prefix>, t: seq<Prefix>)
    requires Ascending(s) && Ascending(t) && s != [] && t != []
    requires s[|s| - 1].Key() < t[0].Key()
    ensures Ascending(s + t)
  {
  }

  /** The binary search may rely on the table being sorted without duplicates. */
  lemma TableAscends()
    ensures Ascending(NINTENDO)
  {
    PartAscendsA(); PartAscendsB(); PartAscendsC(); PartAscendsD(); PartAscendsE();
    Boundaries();
    Joins(NINTENDO_A, NINTENDO_B);
    Joins(NINTENDO_A + NINTENDO_B, NINTENDO_C);
    Joins(NINTENDO_A + NINTENDO_B + NINTENDO_C, NINTENDO_D);
    Joins(NINTENDO_A + NINTENDO_B + NINTENDO_C + NINTENDO_D, NINTENDO_E);
  }

  lemma Boundaries()
    ensures |NINTENDO_A| == |NINTENDO_B| == |NINTENDO_C| == |NINTENDO_D| == 14 && |NINTENDO_E| == 11
    ensures NINTENDO_A[13].Key() < NINTENDO_B[0].Key() && NINTENDO_B[13].Key() < NINTENDO_C[0].Key()
    ensures NINTENDO_C[13].Key() < NINTENDO_D[0].Key() && NINTENDO_D[13].Key() < NINTENDO_E[0].Key()
  {
  }

  lemma CompareTail(a: seq<byte>, b: seq<byte>)
    requires |a| == |b| && a != []
    ensures Compare(a, b) == if a[0] < b[0] then -1 else if a[0] > b[0] then 1 else Compare(a[1..], b[1..])
  {
  }

  /** Comparing three bytes lexicographically compares the numbers they spell. */
  lemma CompareIsKeyOrder(p: Prefix, m: seq<byte>)
    requires |m| == 3
    ensures Compare(p.Bytes(), m) < 0 <==> p.Key() < P(m[0], m[1], m[2]).Key()
    ensures Compare(p.Bytes(), m) == 0 <==> p == P(m[0], m[1], m[2])
  {
    var a := p.Bytes();
    CompareTail(a, m);
    CompareTail(a[1..], m[1..]);
    CompareTail(a[1..][1..], m[1..][1..]);
  }

  /** In an ascending table an entry can only be where the search ends. */
  lemma FoundAt(t: seq<Prefix>, p: Prefix, i: nat)
    requires Ascending(t) && i <= |t|
    requires forall k :: 0 <= k < i ==> t[k].Key() < p.Key()
    requires forall k :: i <= k < |t| ==> t[k].Key() >= p.Key()
    ensures p in t <==> i < |t| && t[i] == p
  {
    if p in t {
      var k :| 0 <= k < |t| && t[k] == p;
      assert i <= k;
    }
  }

  /** sort.Search over a sorted table: the first entry that is not below the wanted bytes. */
  method Search(t: seq<Prefix>, want: seq<byte>) returns (i: nat)
    requires Ascending(t) && |want| == 3
    ensures i <= |t|
    ensures forall k :: 0 <= k < i ==> t[k].Key() < P(want[0], want[1], want[2]).Key()
    ensures forall k :: i <= k < |t| ==> t[k].Key() >= P(want[0], want[1], want[2]).Key()
  {
    var j := |t|;
    i := 0;
    while i < j
      invariant i <= j <= |t|
      invariant forall k :: 0 <= k < i ==> t[k].Key() < P(want[0], want[1], want[2]).Key()
      invariant forall k :: j <= k < |t| ==> t[k].Key() >= P(want[0], want[1], want[2]).Key()
    {
      var h := (i + j) / 2;
      CompareIsKeyOrder(t[h], want);
      if Compare(t[h].Bytes(), want) < 0 {
        i := h + 1;
      } else {
        j := h;
      }
    }
  }

  /** leasePeriodForDevice: the search finds the client's prefix exactly when the table lists it. */
  method LeasePeriodForDevice(hwAddr: string, leasePeriod: int) returns (d: int)
    ensures d == LeasePeriodOf(hwAddr, leasePeriod)
  {
    var decoded := HexDecode(StripColons(hwAddr));
    if decoded.None? {
      return leasePeriod;
    }
    var prefix := decoded.value;
    if |prefix| != 6 {
      return leasePeriod;
    }
    TableAscends();
    var i := Search(NINTENDO, prefix[..3]);
    FoundAt(NINTENDO, P(prefix[0], prefix[1], prefix[2]), i);
    if i < |NINTENDO| && NINTENDO[i].Bytes() == prefix[..3] {
      return HOUR;
    }
    return leasePeriod;
  }
}
