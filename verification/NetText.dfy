/** Subnet masks and port ranges as text (netconfig). */
module NetText {
  import opened Bytes
  import opened Numerals

  // ------------------------------------------------------------ subnet masks

  /** Leading one-bits of a byte, and the byte left after shifting them out. */
  function LeadingOnes(v: byte): (nat, byte) {
    if v < 128 then (0, v)
    else
      var (n, rest) := LeadingOnes(2 * v - 256);
      (n + 1, rest)
  }

  /** net.IPMask's length in bits, absent when the ones are not contiguous. */
  function MaskLength(m: seq<byte>): Option<nat> {
    if m == [] then Some(0)
    else if m[0] == 255 then
      match MaskLength(m[1..])
      case None => None
      case Some(n) => Some(8 + n)
    else
      var (n, rest) := LeadingOnes(m[0]);
      if rest == 0 && forall i :: 1 <= i < |m| ==> m[i] == 0 then Some(n) else None
  }

  /** net.IPMask.Size: a mask that is not contiguous has 0 ones. */
  function MaskSize(m: seq<byte>): nat {
    match MaskLength(m)
    case None => 0
    case Some(n) => n
  }

  /** The byte with j leading ones. */
  function OnesByte(j: nat): byte
    requires j <= 8
  {
    [0, 128, 192, 224, 240, 248, 252, 254, 255][j]
  }

  /** The mask of the given length in bytes with the given number of leading ones. */
  function CidrMask(ones: nat, length: nat): (m: seq<byte>)
    requires ones <= 8 * length
    ensures |m| == length
  {
    if length == 0 then []
    else if ones >= 8 then [255] + CidrMask(ones - 8, length - 1)
    else [OnesByte(ones)] + CidrMask(0, length - 1)
  }

  lemma LeadingOnesExact(v: byte, n: nat)
    requires v < 255
    ensures LeadingOnes(v) == (n, 0) <==> n < 8 && v == OnesByte(n)
    decreases v
  {
    if v >= 128 {
      if n > 0 { LeadingOnesExact(2 * v - 256, n - 1); }
      if n == 8 { assert OnesByte(7) == 254; }
    }
  }

  lemma {:induction false} ZerosMask(m: seq<byte>)
    ensures m == CidrMask(0, |m|) <==> forall i :: 0 <= i < |m| ==> m[i] == 0
  {
    if m != [] {
      ZerosMask(m[1..]);
      assert m == [m[0]] + m[1..];
      assert forall i :: 0 <= i < |m| - 1 ==> m[1..][i] == m[i + 1];
      if m[0] == 0 && forall i :: 0 <= i < |m[1..]| ==> m[1..][i] == 0 {
        assert forall i :: 1 <= i < |m| ==> m[i] == m[1..][i - 1];
      }
    }
  }

  /** A mask has length k exactly when it is k ones followed by zeros. */
  lemma {:induction false} MaskLengthExact(m: seq<byte>, k: nat)
    ensures MaskLength(m) == Some(k) <==> k <= 8 * |m| && m == CidrMask(k, |m|)
  {
    if m != [] {
      assert m == [m[0]] + m[1..];
      if m[0] == 255 {
        if k >= 8 { MaskLengthExact(m[1..], k - 8); }
      } else {
        LeadingOnesExact(m[0], k);
        ZerosMask(m[1..]);
        assert (forall i :: 1 <= i < |m| ==> m[i] == 0) <==> (forall i :: 0 <= i < |m[1..]| ==> m[1..][i] == 0) by {
          assert forall i :: 0 <= i < |m| - 1 ==> m[1..][i] == m[i + 1];
          assert forall i :: 1 <= i < |m| ==> m[i] == m[1..][i - 1];
        }
      }
    }
  }

  /** The four parts as numbers, up to the first part that is not one. */
  function ParseParts(parts: seq<string>): Option<seq<byte>> {
    if parts == [] then Some([])
    else
      var init, last := ParseParts(parts[..|parts| - 1]), ParseUint(parts[|parts| - 1], 255);
      if init.Some? && last.Some? then Some(init.value + [last.value]) else None
  }

  /** What subnetMaskSize returns; absent is an error. */
  function SubnetMaskBytes(mask: string): Option<seq<byte>> {
    var parts := Split(mask, '.');
    if |parts| != 4 then None else ParseParts(parts)
  }

  method SubnetMaskSize(mask: string) returns (ones: Option<nat>)
    ensures ones == match SubnetMaskBytes(mask)
                    case None => None
                    case Some(m) => Some(MaskSize(m))
  {
    hide ParseUint;
    hide Split;
    hide MaskSize;
    var parts := Split(mask, '.');
    if |parts| != 4 {
      return None;
    }
    var numeric := new byte[|parts|](_ => 0);
    for idx := 0 to |parts|
      invariant ParseParts(parts[..idx]) == Some(numeric[..idx])
    {
      assert parts[..idx + 1][..idx] == parts[..idx];
      var i := ParseUint(parts[idx], 255);
      if i.None? {
        PartsPrefix(parts, idx + 1);
        return None;
      }
      numeric[idx] := i.value;
      assert numeric[..idx + 1] == numeric[..idx] + [i.value];
    }
    assert parts[..|parts|] == parts && numeric[..|parts|] == numeric[..];
    return Some(MaskSize(numeric[..]));
  }

  lemma {:induction false} PartsPrefix(parts: seq<string>, n: nat)
    requires n <= |parts| && ParseParts(parts[..n]) == None
    ensures ParseParts(parts) == None
    decreases |parts| - n
  {
    if n < |parts| {
      assert parts[..n + 1][..n] == parts[..n];
      PartsPrefix(parts, n + 1);
    } else {
      assert parts[..n] == parts;
    }
  }

  /** The text the DHCP client stores: %d.%d.%d.%d. */
  function FormatMask(m: seq<byte>): string
    requires |m| == 4
  {
    Format(m[0]) + ['.'] + (Format(m[1]) + ['.'] + (Format(m[2]) + ['.'] + Format(m[3])))
  }

  lemma NoDot(n: nat)
    ensures '.' !in Format(n)
  {
    FormatIsCanonical(n);
  }

  lemma SplitFour(a: string, b: string, c: string, d: string)
    requires '.' !in a && '.' !in b && '.' !in c && '.' !in d
    ensures Split(a + ['.'] + (b + ['.'] + (c + ['.'] + d)), '.') == [a, b, c, d]
  {
    hide Split;
    SplitFirst(a, '.', b + ['.'] + (c + ['.'] + d));
    SplitFirst(b, '.', c + ['.'] + d);
    SplitFirst(c, '.', d);
    SplitLast(d, '.');
  }

  lemma {:induction false} PartsParse(s: seq<string>, m: seq<byte>)
    requires |s| == |m| && forall i :: 0 <= i < |s| ==> ParseUint(s[i], 255) == Some(m[i])
    ensures ParseParts(s) == Some(m)
  {
    hide ParseUint;
    if s != [] {
      PartsParse(s[..|s| - 1], m[..|m| - 1]);
      assert m == m[..|m| - 1] + [m[|m| - 1]];
    }
  }

  lemma PartRoundTrip(v: byte)
    ensures '.' !in Format(v) && ParseUint(Format(v), 255) == Some(v)
  {
    NoDot(v);
    ParseFormat(v, 255);
  }

  /** Any four mask bytes survive being printed and parsed, so the size is that of the mask itself. */
  lemma MaskRoundTrip(m: seq<byte>)
    requires |m| == 4
    ensures SubnetMaskBytes(FormatMask(m)) == Some(m)
    ensures FormatMask(m) == Format(m[0]) + "." + (Format(m[1]) + "." + (Format(m[2]) + "." + Format(m[3])))
  {
    PartRoundTrip(m[0]); PartRoundTrip(m[1]); PartRoundTrip(m[2]); PartRoundTrip(m[3]);
    var s := [Format(m[0]), Format(m[1]), Format(m[2]), Format(m[3])];
    SplitFour(s[0], s[1], s[2], s[3]);
    PartsParse(s, m);
    hide ParseUint;
    hide ParseParts;
    hide Split;
  }

  /** The prefix length of the mask that was printed: k for k leading ones, and
      otherwise 0. */
  lemma MaskSizeRoundTrip(m: seq<byte>, k: nat)
    requires |m| == 4 && k > 0
    ensures SubnetMaskBytes(FormatMask(m)).Some?
    ensures MaskSize(SubnetMaskBytes(FormatMask(m)).value) == k <==> k <= 32 && m == CidrMask(k, 4)
  {
    MaskRoundTrip(m);
    MaskLengthExact(m, k);
  }

  // ------------------------------------------------------------------ ports

  /** The regular expression ^([0-9]+)(?:-([0-9]+))?$ with its two groups; an
      absent second group is the empty string. */
  function MatchRange(p: string): Option<(string, string)> {
    var i := IndexOf(p, '-');
    var first, second := p[..i], if i < |p| then p[i + 1..] else "";
    if first != "" && AllDigits(first) && AllDigits(second) && (i < |p| ==> second != "") then Some((first, second))
    else None
  }

  function ParsePort(p: string): Option<(u16, u16)> {
    match MatchRange(p)
    case None => None
    case Some((first, second)) =>
      match ParseUint(first, 65535)
      case None => None
      case Some(min) =>
        if second == "" then Some((min, min))
        else
          match ParseUint(second, 65535)
          case None => None
          case Some(max) => Some((min, max))
  }

  function FormatRange(min: u16, max: u16): string {
    Format(min) + ['-'] + Format(max)
  }

  lemma NoDash(s: string)
    requires AllDigits(s)
    ensures '-' !in s && IndexOf(s, '-') == |s|
  {
  }

  lemma MatchesNumber(a: string)
    requires a != "" && AllDigits(a)
    ensures MatchRange(a) == Some((a, ""))
  {
    NoDash(a);
    assert a[..|a|] == a;
  }

  lemma MatchesRange(a: string, b: string)
    requires a != "" && AllDigits(a) && b != "" && AllDigits(b)
    ensures MatchRange(a + ['-'] + b) == Some((a, b))
  {
    NoDash(a);
    SplitFirst(a, '-', b);
    var p := a + ['-'] + b;
    assert p[..|a|] == a && p[|a| + 1..] == b;
  }

  /** A number or a range that is printed in decimal is read back as it was. */
  lemma PortRoundTrip(min: u16, max: u16)
    ensures ParsePort(Format(min)) == Some((min, min))
    ensures ParsePort(FormatRange(min, max)) == Some((min, max))
  {
    var a, b := Format(min), Format(max);
    FormatIsCanonical(min);
    FormatIsCanonical(max);
    ParseFormat(min, 65535);
    ParseFormat(max, 65535);
    MatchesNumber(a);
    MatchesRange(a, b);
  }

  lemma CanonicalParse(s: string)
    requires Canonical(s)
    ensures match ParseUint(s, 65535)
            case None => Value(s, 10).Some? && Value(s, 10).value > 65535
            case Some(v) => s == Format(v)
  {
    CanonicalIsFormat(s);
    ParseFormat(Value(s, 10).value, 65535);
  }

  /** Text whose numbers have no leading zeros is accepted only when it is the
      printed form of the ports it is taken to mean. */
  lemma PortTextIsPrinted(p: string)
    requires MatchRange(p).Some? && Canonical(MatchRange(p).value.0)
    requires MatchRange(p).value.1 == "" || Canonical(MatchRange(p).value.1)
    ensures ParsePort(p).Some? ==>
              var (min, max) := ParsePort(p).value;
              p == FormatRange(min, max) || (min == max && p == Format(min))
  {
    var (first, second) := MatchRange(p).value;
    CanonicalParse(first);
    if second == "" {
      assert p == first;
    } else {
      CanonicalParse(second);
      assert p == first + ['-'] + second;
    }
  }
}
