// IP addresses as byte strings, CIDR masks, and the expansion of one CIDR
// block (internal/service/discovery.go). CIDR prefixes are those of section
// 3.1 of RFC 4632.
module Addresses {
  import opened Common

  // A net.IP: 4 or 16 bytes, most significant first.
  type Address = seq<bv8>

  // The big-endian number an address denotes.
  function Value(a: Address): nat
  {
    if a == [] then 0 else Value(a[..|a| - 1]) * 256 + a[|a| - 1] as int
  }

  lemma {:induction false} ValueBound(a: Address)
    ensures Value(a) < Pow2(8 * |a|)
  {
    if a == [] {
    } else {
      ValueBound(a[..|a| - 1]);
      Pow2Byte(8 * (|a| - 1));
    }
  }

  lemma {:induction false} ValueInjective(a: Address, b: Address)
    requires |a| == |b| && Value(a) == Value(b)
    ensures a == b
  {
    if a == [] {
    } else {
      var x, y := a[|a| - 1], b[|b| - 1];
      assert x as int == y as int && Value(a[..|a| - 1]) == Value(b[..|b| - 1]);
      ByteInjective(x, y);
      ValueInjective(a[..|a| - 1], b[..|b| - 1]);
      assert a == a[..|a| - 1] + [x] && b == b[..|b| - 1] + [y];
    }
  }

  // The bytes are the digits of the number in base 256, the first one the
  // most significant.
  lemma {:induction false} BytesOfValue(a: Address, i: nat)
    requires i < |a|
    ensures a[i] as int == Value(a) / Pow2(8 * (|a| - 1 - i)) % 256
  {
    var n := |a| - 1;
    if i == n {
      DivModUnique(Value(a), 256, Value(a[..n]), a[n] as int);
    } else {
      BytesOfValue(a[..n], i);
      Pow2Byte(8 * (n - 1 - i));
      DivModUnique(Value(a), 256, Value(a[..n]), a[n] as int);
      DivideTwice(Value(a), 256, Pow2(8 * (n - 1 - i)));
    }
  }

  lemma {:induction false} ByteInjective(x: bv8, y: bv8)
    requires x as int == y as int
    ensures x == y
  {
    assert (x as int) as bv8 == (y as int) as bv8;
  }

  // ---- incIP ------------------------------------------------------------

  // The address after `a`, with the carry running from the last byte.
  function Next(a: Address): (r: Address)
    ensures |r| == |a|
  {
    if a == [] then []
    else if a[|a| - 1] == 255 then Next(a[..|a| - 1]) + [0]
    else a[..|a| - 1] + [a[|a| - 1] + 1]
  }

  lemma {:induction false} ValueSnoc(a: Address, b: bv8)
    ensures Value(a + [b]) == Value(a) * 256 + b as int
  {
    assert (a + [b])[..|a|] == a;
  }

  lemma {:induction false} NextIsPlusOne(a: Address)
    ensures Value(Next(a)) == (Value(a) + 1) % Pow2(8 * |a|)
  {
    if a == [] {
    } else {
      var init, last := a[..|a| - 1], a[|a| - 1];
      ValueBound(init);
      Pow2Byte(8 * |init|);
      if last == 255 {
        NextIsPlusOne(init);
        NextWithCarry(init);
      } else {
        NextWithoutCarry(init, last);
      }
    }
  }

  lemma {:induction false} NextWithCarry(init: Address)
    requires Value(init) < Pow2(8 * |init|) && Pow2(8 * |init| + 8) == 256 * Pow2(8 * |init|)
    requires Value(Next(init)) == (Value(init) + 1) % Pow2(8 * |init|)
    ensures Value(Next(init) + [0]) == (Value(init) * 256 + 256) % Pow2(8 * |init| + 8)
  {
    ValueSnoc(Next(init), 0);
    CarryIntoPrefix(Value(init), Pow2(8 * |init|), Pow2(8 * |init| + 8));
  }

  lemma {:induction false} NextWithoutCarry(init: Address, last: bv8)
    requires last != 255 && Value(init) < Pow2(8 * |init|) && Pow2(8 * |init| + 8) == 256 * Pow2(8 * |init|)
    ensures Value(init + [last + 1]) == (Value(init) * 256 + last as int + 1) % Pow2(8 * |init| + 8)
  {
    ByteIncrement(last);
    ValueSnoc(init, last + 1);
    NoCarryOut(Value(init), last as int, Pow2(8 * |init|), Pow2(8 * |init| + 8));
  }

  lemma {:induction false} NextNumber(a: Address)
    ensures Value(a) + 1 < Pow2(8 * |a|) ==> Value(Next(a)) == Value(a) + 1
    ensures Value(a) + 1 == Pow2(8 * |a|) ==> Value(Next(a)) == 0
  {
    NextIsPlusOne(a);
    if Value(a) + 1 < Pow2(8 * |a|) {
      ModSmall(Value(a) + 1, Pow2(8 * |a|));
    } else {
      ModSelf(Pow2(8 * |a|));
    }
  }

  lemma {:induction false} NoCarryOut(v: nat, b: nat, m: nat, n: nat)
    requires v < m && b < 255 && n == 256 * m
    ensures (v * 256 + b + 1) % n == v * 256 + b + 1
  {
    ModSmall(v * 256 + b + 1, n);
  }

  lemma {:induction false} CarryIntoPrefix(v: nat, m: nat, n: nat)
    requires v < m && n == 256 * m
    ensures ((v + 1) % m) * 256 == (v * 256 + 256) % n
  {
    if v + 1 < m {
      ModSmall(v + 1, m);
      ModSmall(v * 256 + 256, n);
    } else {
      ModSelf(m);
      ModSelf(n);
    }
  }

  lemma {:induction false} ByteIncrement(b: bv8)
    requires b != 255
    ensures b as int < 255 && (b + 1) as int == b as int + 1
  {
  }

  method IncIP(ip: array<bv8>)
    modifies ip
    ensures ip[..] == Next(old(ip[..]))
  {
    ghost var was := ip[..];
    assert was[..ip.Length] == was;
    var j := ip.Length - 1;
    while j >= 0
      invariant -1 <= j < ip.Length
      invariant forall k :: 0 <= k <= j ==> ip[k] == was[k]
      invariant Next(was) == Next(was[..j + 1]) + ip[j + 1..]
    {
      ghost var done := ip[j + 1..];
      NextUnfolds(was[..j + 1], was[..j], was[j], done);
      ip[j] := ip[j] + 1;
      assert ip[j..] == [ip[j]] + done;
      if ip[j] > 0 {
        assert ip[..] == was[..j] + ([ip[j]] + done);
        break;
      }
      j := j - 1;
    }
  }

  // One byte of the carry, with the bytes behind it already done.
  lemma {:induction false} NextUnfolds(a: Address, init: Address, last: bv8, done: Address)
    requires a == init + [last]
    ensures Next(a) + done == (if last + 1 == 0 then Next(init) else init) + ([last + 1] + done)
  {
    assert a[..|a| - 1] == init;
  }

  // ---- Masks ------------------------------------------------------------

  // The byte whose lowest `k` bits are clear and all others set.
  function MaskByte(k: nat): bv8
    requires k <= 8
  {
    match k
    case 0 => 255
    case 1 => 254
    case 2 => 252
    case 3 => 248
    case 4 => 240
    case 5 => 224
    case 6 => 192
    case 7 => 128
    case 8 => 0
  }

  // net.CIDRMask: `ones` leading one bits, `n` bytes in all.
  function CidrMask(ones: nat, n: nat): (m: seq<bv8>)
    requires ones <= 8 * n
    ensures |m| == n
  {
    seq(n, i requires 0 <= i < n => MaskByte(ClearBits(ones, i)))
  }

  // How many low bits of byte `i` the mask clears.
  function ClearBits(ones: nat, i: nat): (k: nat)
    ensures k <= 8
  {
    if ones >= 8 * i + 8 then 0 else if ones <= 8 * i then 8 else 8 * i + 8 - ones
  }

  // net.IP.Mask on an address and a mask of one length.
  function ApplyMask(ip: Address, mask: seq<bv8>): (r: Address)
    requires |ip| == |mask|
    ensures |r| == |ip|
  {
    seq(|ip|, i requires 0 <= i < |ip| => ip[i] & mask[i])
  }

  // Masking with MaskByte(k) rounds a byte down to a multiple of 2^k.
  ghost predicate RoundsDown(b: bv8, k: nat)
    requires k <= 8
  {
    (b & MaskByte(k)) as int == b as int - b as int % Pow2(k)
  }

  lemma {:induction false} AndMaskByte(b: bv8, k: nat)
    requires k <= 8
    ensures RoundsDown(b, k)
  {
    match k
    case 0 => And0(b);
    case 1 => And1(b);
    case 2 => And2(b);
    case 3 => And3(b);
    case 4 => And4(b);
    case 5 => And5(b);
    case 6 => And6(b);
    case 7 => And7(b);
    case 8 => And8(b);
  }

  lemma {:induction false} Pow2UpTo8()
    ensures Pow2(0) == 1 && Pow2(1) == 2 && Pow2(2) == 4 && Pow2(3) == 8 && Pow2(4) == 16
    ensures Pow2(5) == 32 && Pow2(6) == 64 && Pow2(7) == 128 && Pow2(8) == 256
  {
    assert Pow2(2) == 4 && Pow2(3) == 8;
    assert Pow2(4) == 16 && Pow2(5) == 32;
    assert Pow2(6) == 64 && Pow2(7) == 128;
  }


  lemma {:induction false} And0(b: bv8)
    ensures RoundsDown(b, 0)
  {
    Pow2UpTo8();
    assert (b & 255) as int == b as int - b as int % 1;
  }

  lemma {:induction false} And1(b: bv8)
    ensures RoundsDown(b, 1)
  {
    Pow2UpTo8();
    assert (b & 254) as int == b as int - b as int % 2;
  }

  lemma {:induction false} And2(b: bv8)
    ensures RoundsDown(b, 2)
  {
    Pow2UpTo8();
    assert (b & 252) as int == b as int - b as int % 4;
  }

  lemma {:induction false} And3(b: bv8)
    ensures RoundsDown(b, 3)
  {
    Pow2UpTo8();
    assert (b & 248) as int == b as int - b as int % 8;
  }

  lemma {:induction false} And4(b: bv8)
    ensures RoundsDown(b, 4)
  {
    Pow2UpTo8();
    assert (b & 240) as int == b as int - b as int % 16;
  }

  lemma {:induction false} And5(b: bv8)
    ensures RoundsDown(b, 5)
  {
    Pow2UpTo8();
    assert (b & 224) as int == b as int - b as int % 32;
  }

  lemma {:induction false} And6(b: bv8)
    ensures RoundsDown(b, 6)
  {
    Pow2UpTo8();
    assert (b & 192) as int == b as int - b as int % 64;
  }

  lemma {:induction false} And7(b: bv8)
    ensures RoundsDown(b, 7)
  {
    Pow2UpTo8();
    assert (b & 128) as int == b as int - b as int % 128;
  }

  lemma {:induction false} And8(b: bv8)
    ensures RoundsDown(b, 8)
  {
    Pow2UpTo8();
    assert (b & 0) as int == b as int - b as int % 256;
  }

  // Masking an address rounds its number down to a multiple of 2^(host bits).
  lemma {:induction false} MaskedValue(a: Address, ones: nat)
    requires ones <= 8 * |a|
    ensures Value(ApplyMask(a, CidrMask(ones, |a|))) == Value(a) - Value(a) % Pow2(8 * |a| - ones)
  {
    if a == [] {
    } else if ones >= 8 * (|a| - 1) {
      MaskedLastByte(a, ones);
    } else {
      var n, init := |a| - 1, a[..|a| - 1];
      MaskedValue(init, ones);
      LastByteCleared(a, ones);
      Pow2Byte(8 * n - ones);
      ModOfScaled(Value(init), a[n] as int, Pow2(8 * n - ones));
    }
  }

  lemma {:induction false} LastByteCleared(a: Address, ones: nat)
    requires a != [] && ones < 8 * (|a| - 1)
    ensures Value(ApplyMask(a, CidrMask(ones, |a|))) == Value(ApplyMask(a[..|a| - 1], CidrMask(ones, |a| - 1))) * 256
  {
    var n := |a| - 1;
    SplitMask(a, ones);
    var front := ApplyMask(a[..n], CidrMask(ones, n));
    assert a[n] & MaskByte(8) == 0;
    ValueSnoc(front, 0);
  }

  lemma {:induction false} MaskedLastByte(a: Address, ones: nat)
    requires a != [] && 8 * (|a| - 1) <= ones <= 8 * |a|
    ensures Value(ApplyMask(a, CidrMask(ones, |a|))) == Value(a) - Value(a) % Pow2(8 * |a| - ones)
  {
    var low := OnlyLastByteMasked(a, ones);
    ValueSnoc(a[..|a| - 1], low);
    ModOfLowByte(Value(a[..|a| - 1]), a[|a| - 1] as int, 8 * |a| - ones);
  }

  lemma {:induction false} OnlyLastByteMasked(a: Address, ones: nat) returns (low: bv8)
    requires a != [] && 8 * (|a| - 1) <= ones <= 8 * |a|
    ensures ApplyMask(a, CidrMask(ones, |a|)) == a[..|a| - 1] + [low]
    ensures var b := a[|a| - 1] as int; low as int == b - b % Pow2(8 * |a| - ones)
  {
    var k := 8 * |a| - ones;
    low := a[|a| - 1] & MaskByte(k);
    FullMask(a[..|a| - 1]);
    SplitMask(a, ones);
    AndMaskByte(a[|a| - 1], k);
  }

  lemma {:induction false} FullMask(a: Address)
    ensures ApplyMask(a, CidrMask(8 * |a|, |a|)) == a
  {
    forall i | 0 <= i < |a|
      ensures a[i] & MaskByte(ClearBits(8 * |a|, i)) == a[i]
    {
      assert MaskByte(ClearBits(8 * |a|, i)) == 255;
    }
  }

  // The mask of the leading bytes, followed by that of the last byte.
  lemma {:induction false} SplitMask(a: Address, ones: nat)
    requires a != [] && ones <= 8 * |a|
    ensures var n := |a| - 1;
            ApplyMask(a, CidrMask(ones, |a|)) ==
            ApplyMask(a[..n], CidrMask(if ones <= 8 * n then ones else 8 * n, n)) + [a[n] & MaskByte(ClearBits(ones, n))]
  {
    var n := |a| - 1;
    var front := if ones <= 8 * n then ones else 8 * n;
    forall i | 0 <= i < n
      ensures ClearBits(ones, i) == ClearBits(front, i)
    {
    }
  }

  lemma {:induction false} ModOfLowByte(v: nat, b: nat, k: nat)
    requires b < 256 && k <= 8
    ensures (v * 256 + b) % Pow2(k) == b % Pow2(k)
  {
    Pow2Add(k, 8 - k);
    Pow2UpTo8();
    var p, q := Pow2(k), Pow2(8 - k);
    assert v * 256 == (v * q) * p by { assert p * q == 256; }
    ModAddMultiple(b, v * q, p);
  }

  lemma {:induction false} ModOfScaled(v: nat, b: nat, m: nat)
    requires b < 256 && m > 0
    ensures (v * 256 + b) % (256 * m) == (v % m) * 256 + b
  {
    var q, r := v / m, v % m;
    assert v == q * m + r;
    assert v * 256 + b == r * 256 + b + q * (256 * m);
    assert r * 256 + b < 256 * m;
    ModAddMultiple(r * 256 + b, q, 256 * m);
    ModSmall(r * 256 + b, 256 * m);
  }

  // ---- CIDR blocks ------------------------------------------------------

  // What net.ParseCIDR yields: the address as written, in the length of its
  // family, and the length of the prefix.
  datatype Block = Block(ip: Address, ones: nat) {
    ghost predicate Valid() {
      |ip| in {4, 16} && ones <= 8 * |ip|
    }

    function Mask(): (m: seq<bv8>)
      requires Valid()
      ensures |m| == |ip|
    {
      CidrMask(ones, |ip|)
    }

    function HostBits(): nat
      requires Valid()
    {
      8 * |ip| - ones
    }

    function Network(): (a: Address)
      requires Valid()
      ensures |a| == |ip|
    {
      ApplyMask(ip, Mask())
    }

    // The address agrees with the block on the first `ones` bits: both
    // numbers have one quotient by 2^(host bits).
    ghost predicate Covers(x: Address)
      requires Valid()
    {
      |x| == |ip| && Value(x) / Pow2(HostBits()) == Value(ip) / Pow2(HostBits())
    }
  }

  lemma {:induction false} CoversIffMasksAgree(b: Block, x: Address)
    requires b.Valid() && |x| == |b.ip|
    ensures b.Covers(x) <==> ApplyMask(x, b.Mask()) == b.Network()
  {
    var p := Pow2(b.HostBits());
    MaskedValue(x, b.ones);
    MaskedValue(b.ip, b.ones);
    RoundedEqualIffQuotientsEqual(Value(x), Value(b.ip), p);
    if b.Covers(x) {
      ValueInjective(ApplyMask(x, b.Mask()), b.Network());
    }
  }

  // The covered addresses are those numbered from the network address on.
  lemma {:induction false} CoversIffInRange(b: Block, x: Address)
    requires b.Valid() && |x| == |b.ip|
    ensures b.Covers(x) <==> Value(b.Network()) <= Value(x) < Value(b.Network()) + Pow2(b.HostBits())
  {
    MaskedValue(b.ip, b.ones);
    SameQuotientIffInRange(Value(x), Value(b.ip), Pow2(b.HostBits()));
  }

  // A block never reaches past the last address of its family.
  lemma {:induction false} BlockFits(b: Block)
    requires b.Valid()
    ensures Value(b.Network()) + Pow2(b.HostBits()) <= Pow2(8 * |b.ip|)
  {
    MaskedValue(b.ip, b.ones);
    ValueBound(b.ip);
    Pow2Add(b.ones, b.HostBits());
    RoundedFits(Value(b.ip), Pow2(b.HostBits()), Pow2(b.ones));
  }

  // ---- net.IPNet.Contains -----------------------------------------------

  predicate IsIPv4In6(a: Address) {
    |a| == 16 && (forall i :: 0 <= i < 10 ==> a[i] == 0) && a[10] == 255 && a[11] == 255
  }

  // net.IP.To4, falling back to the address itself.
  function Short(a: Address): (r: Address)
    ensures |a| in {4, 16} ==> |r| in {4, 16}
  {
    if IsIPv4In6(a) then a[12..] else a
  }

  predicate Contains(net: Address, mask: seq<bv8>, ip: Address)
  {
    var n := Short(net);
    var m := if |n| == 4 && |mask| == 16 then mask[12..] else mask;
    var x := Short(ip);
    |m| == |n| && |x| == |n| && forall i :: 0 <= i < |x| ==> n[i] & m[i] == x[i] & m[i]
  }

  // Contains is membership of the prefix, except that a prefix shorter than
  // 96 bits is not seen to hold IPv4-mapped addresses.
  lemma {:induction false} ContainsIffCovers(b: Block, x: Address)
    requires b.Valid() && |x| == |b.ip|
    ensures Contains(b.Network(), b.Mask(), x) <==>
            b.Covers(x) && (|b.ip| == 4 || b.ones >= 96 || !IsIPv4In6(x))
  {
    CoversIffMasksAgree(b, x);
    if IsIPv4In6(b.Network()) {
      ContainsOfMappedNetwork(b, x);
    } else {
      ContainsOfPlainNetwork(b, x);
    }
    if |b.ip| == 16 && b.ones >= 96 && b.Covers(x) {
      LongPrefixKeepsTwelveBytes(b, x);
      assert ApplyMask(x, b.Mask())[..12] == b.Network()[..12];
    } else if |b.ip| == 16 && b.ones < 96 {
      ShortPrefixNotMapped(b);
    }
  }

  lemma {:induction false} ContainsOfPlainNetwork(b: Block, x: Address)
    requires b.Valid() && |x| == |b.ip| && !IsIPv4In6(b.Network())
    ensures Contains(b.Network(), b.Mask(), x) <==> !IsIPv4In6(x) && ApplyMask(x, b.Mask()) == b.Network()
  {
    MasksAgreeBytewise(b, x);
  }

  lemma {:induction false} ContainsOfMappedNetwork(b: Block, x: Address)
    requires b.Valid() && |x| == |b.ip| && IsIPv4In6(b.Network())
    ensures Contains(b.Network(), b.Mask(), x) <==> ApplyMask(x, b.Mask()) == b.Network()
  {
    MasksAgreeBytewise(b, x);
    if b.ones < 96 {
      ShortPrefixNotMapped(b);
    } else {
      LongPrefixKeepsTwelveBytes(b, x);
    }
    var n, m := b.Network(), b.Mask();
    if Contains(n, m, x) {
      MappedTailsAgree(n, m, x);
    }
  }

  lemma {:induction false} MappedTailsAgree(n: Address, m: seq<bv8>, x: Address)
    requires |n| == |m| == |x| == 16 && IsIPv4In6(n) && Contains(n, m, x)
    ensures forall i :: 0 <= i < 16 ==> n[i] & m[i] == x[i] & m[i]
  {
    assert IsIPv4In6(x);
    forall i | 12 <= i < 16
      ensures n[i] & m[i] == x[i] & m[i]
    {
      assert n[12..][i - 12] & m[12..][i - 12] == x[12..][i - 12] & m[12..][i - 12];
    }
    assert forall i :: 0 <= i < 12 ==> n[i] == x[i];
  }

  lemma {:induction false} MasksAgreeBytewise(b: Block, x: Address)
    requires b.Valid() && |x| == |b.ip|
    ensures ApplyMask(x, b.Mask()) == b.Network() <==>
            forall i :: 0 <= i < |x| ==> b.Network()[i] & b.Mask()[i] == x[i] & b.Mask()[i]
  {
    forall i | 0 <= i < |x|
      ensures b.Network()[i] & b.Mask()[i] == b.Network()[i]
    {
      AndTwice(b.ip[i], b.Mask()[i]);
    }
  }

  lemma {:induction false} AndTwice(a: bv8, m: bv8)
    ensures (a & m) & m == a & m
  {
  }

  lemma {:induction false} LongPrefixKeepsTwelveBytes(b: Block, x: Address)
    requires b.Valid() && |x| == |b.ip| == 16 && b.ones >= 96
    ensures forall i :: 0 <= i < 12 ==> b.Network()[i] == b.ip[i] && x[i] & b.Mask()[i] == x[i]
  {
    forall i | 0 <= i < 12
      ensures b.Mask()[i] == 255
    {
      assert ClearBits(b.ones, i) == 0;
    }
  }

  lemma {:induction false} ShortPrefixNotMapped(b: Block)
    requires b.Valid() && |b.ip| == 16 && b.ones < 96
    ensures !IsIPv4In6(b.Network())
  {
    assert ClearBits(b.ones, 11) >= 1;
    LowBitCleared(b.ip[11], ClearBits(b.ones, 11));
  }

  lemma {:induction false} LowBitCleared(a: bv8, k: nat)
    requires 1 <= k <= 8
    ensures a & MaskByte(k) != 255
  {
    assert MaskByte(k) & 1 == 0;
  }

  // ---- expandCIDR -------------------------------------------------------

  const MAX_IPS: nat := 65536

  // `n` addresses in a row, starting at `a`.
  function Consecutive(a: Address, n: nat): (r: seq<Address>)
    ensures |r| == n
    decreases n
  {
    if n == 0 then [] else [a] + Consecutive(Next(a), n - 1)
  }

  // uint64(1) << h, which is 0 once the bit is shifted out.
  function ShiftedOne(h: nat): nat {
    if h < 64 then Pow2(h) else 0
  }

  // The part of expandCIDR after net.ParseCIDR has accepted the text.
  method ExpandBlock(b: Block) returns (r: Result<seq<Address>>)
    requires b.Valid()
    ensures b.HostBits() <= 16 ==> r == Ok(Consecutive(b.Network(), Pow2(b.HostBits())))
    ensures 16 < b.HostBits() < 64 ==> r.Err?
    ensures b.HostBits() >= 64 ==> r == Ok([b.Network()])
  {
    if b.ones == 8 * |b.ip| {
      FullMask(b.ip);
      assert Consecutive(b.ip, 1) == [b.ip];
      return Ok([b.ip]);
    }
    var h := b.HostBits();
    var total := ShiftedOne(h);
    Pow2At16();
    if h <= 16 { Pow2Monotone(h, 16); } else { Pow2StrictlyMonotone(16, h); }
    if total > MAX_IPS {
      return Err("CIDR range too large");
    }
    if b.ones == 8 * |b.ip| - 1 {
      var last := Broadcast(b);
      assert Consecutive(b.Network(), 2) == [b.Network(), last];
      return Ok([b.Network(), last]);
    }
    var ips := Enumerate(b, total);
    assert Consecutive(b.Network(), 1) == [b.Network()];
    r := Ok(ips);
  }

  // The loop of expandCIDR: append, leave on the count, otherwise advance.
  method Enumerate(b: Block, total: nat) returns (ips: seq<Address>)
    requires b.Valid() && total <= Pow2(b.HostBits())
    requires total > 1 ==> |b.ip| == 4 || b.ones >= 96
    ensures ips == Consecutive(b.Network(), if total == 0 then 1 else total)
  {
    var net, mask := b.Network(), b.Mask();
    var ip := new bv8[|net|](i requires 0 <= i < |net| => net[i]);
    assert ip[..] == net;
    ips := [];
    ghost var goal := if total == 0 then 1 else total;
    NthIsContained(b, 0, net);
    while Contains(net, mask, ip[..])
      invariant |ips| < goal
      invariant LoopState(b, ips, ip[..], goal)
      invariant Contains(net, mask, ip[..])
      decreases goal - |ips|
    {
      LoopStep(b, ips, ip[..], goal);
      ips := ips + [ip[..]];
      if |ips| >= total {
        break;
      }
      IncIP(ip);
      NthIsContained(b, |ips|, ip[..]);
    }
  }

  // `here` is the address the loop looks at after listing `ips`.
  ghost predicate LoopState(b: Block, ips: seq<Address>, here: Address, goal: nat)
    requires b.Valid()
  {
    && |ips| <= goal && |here| == |b.ip|
    && Value(here) == Value(b.Network()) + |ips|
    && ips + Consecutive(here, goal - |ips|) == Consecutive(b.Network(), goal)
  }

  lemma {:induction false} LoopStep(b: Block, ips: seq<Address>, here: Address, goal: nat)
    requires b.Valid() && |ips| < goal <= Pow2(b.HostBits()) && LoopState(b, ips, here, goal)
    ensures |ips| + 1 < goal ==> LoopState(b, ips + [here], Next(here), goal)
    ensures |ips| + 1 == goal ==> ips + [here] == Consecutive(b.Network(), goal)
  {
    ConsecutiveStep(ips, here, goal - |ips|);
    if |ips| + 1 < goal {
      NextWithinBlock(b, |ips|, here);
    }
  }

  lemma {:induction false} ConsecutiveStep(done: seq<Address>, a: Address, n: nat)
    requires n > 0
    ensures done + Consecutive(a, n) == done + [a] + Consecutive(Next(a), n - 1)
  {
  }

  lemma {:induction false} NextWithinBlock(b: Block, i: nat, x: Address)
    requires b.Valid() && |x| == |b.ip| && Value(x) == Value(b.Network()) + i && i + 1 < Pow2(b.HostBits())
    ensures Value(Next(x)) == Value(b.Network()) + i + 1
  {
    BlockFits(b);
    NextNumber(x);
  }

  // Every address the loop looks at before its count is reached passes Contains.
  lemma {:induction false} NthIsContained(b: Block, i: nat, x: Address)
    requires b.Valid() && |x| == |b.ip| && Value(x) == Value(b.Network()) + i && i < Pow2(b.HostBits())
    requires i > 0 ==> |b.ip| == 4 || b.ones >= 96
    ensures Contains(b.Network(), b.Mask(), x)
  {
    CoversIffInRange(b, x);
    ContainsIffCovers(b, x);
    if i == 0 {
      ValueInjective(x, b.Network());
      if |b.ip| == 16 && b.ones < 96 {
        ShortPrefixNotMapped(b);
      }
    }
  }

  method Broadcast(b: Block) returns (r: Address)
    requires b.Valid() && b.ones == 8 * |b.ip| - 1
    ensures r == Next(b.Network())
  {
    var n := |b.ip|;
    var net, mask := b.Network(), b.Mask();
    var a := new bv8[n](i requires 0 <= i < n => net[i]);
    var i := b.ones / 8;
    while i < n
      invariant n - 1 <= i <= n
      invariant forall k :: 0 <= k < i && k < n - 1 ==> a[k] == net[k]
      invariant a[n - 1] == if i < n then net[n - 1] else net[n - 1] | !mask[n - 1]
    {
      a[i] := a[i] | !mask[i];
      i := i + 1;
    }
    r := a[..];
    LastBitSetIsNext(b, r);
  }

  lemma {:induction false} LastBitSetIsNext(b: Block, r: Address)
    requires b.Valid() && b.ones == 8 * |b.ip| - 1 && |r| == |b.ip|
    requires forall k :: 0 <= k < |r| - 1 ==> r[k] == b.Network()[k]
    requires r[|r| - 1] == b.Network()[|r| - 1] | !b.Mask()[|r| - 1]
    ensures r == Next(b.Network())
  {
    var net, last := b.Network(), |r| - 1;
    assert b.Mask()[last] == 254;
    SetLastBit(b.ip[last]);
    assert r == net[..last] + [net[last] + 1];
  }

  lemma {:induction false} SetLastBit(a: bv8)
    ensures (a & 254) | !(254 as bv8) == (a & 254) + 1 && a & 254 != 255
  {
  }

  // ---- What the expansion means -----------------------------------------

  lemma {:induction false} ConsecutiveAt(a: Address, n: nat, i: nat)
    requires i < n && Value(a) + n <= Pow2(8 * |a|)
    ensures |Consecutive(a, n)[i]| == |a|
    ensures Value(Consecutive(a, n)[i]) == Value(a) + i
    decreases n
  {
    if i > 0 {
      NextNumber(a);
      ConsecutiveAt(Next(a), n - 1, i - 1);
    }
  }

  // Up to 16 host bits the result lists the block: every address of the
  // prefix and no other, each once, in increasing order.
  lemma {:induction false} ExpansionIsTheBlock(b: Block)
    requires b.Valid()
    ensures var xs := Consecutive(b.Network(), Pow2(b.HostBits()));
            && |xs| == Pow2(b.HostBits())
            && (forall i, j :: 0 <= i < j < |xs| ==> Value(xs[i]) < Value(xs[j]))
            && (forall x :: x in xs <==> b.Covers(x))
  {
    var net, n := b.Network(), Pow2(b.HostBits());
    var xs := Consecutive(net, n);
    BlockFits(b);
    forall i | 0 <= i < n
      ensures |xs[i]| == |net| && Value(xs[i]) == Value(net) + i && b.Covers(xs[i])
    {
      ConsecutiveAt(net, n, i);
      CoversIffInRange(b, xs[i]);
    }
    forall x | b.Covers(x)
      ensures x in xs
    {
      CoversIffInRange(b, x);
      var i := Value(x) - Value(net);
      ValueInjective(x, xs[i]);
    }
  }

  // From 64 host bits on the size computed is 0, the cap lets the block pass
  // and the count stops the loop at once: the block's second address, like
  // all later ones, is missing from the result.
  lemma {:induction false} WideBlockIsTruncated(b: Block)
    requires b.Valid() && b.HostBits() >= 64
    ensures ShiftedOne(b.HostBits()) <= MAX_IPS
    ensures b.Covers(b.Network()) && b.Covers(Next(b.Network()))
    ensures Next(b.Network()) !in [b.Network()]
  {
    Pow2Monotone(1, b.HostBits());
    CoversIffInRange(b, b.Network());
    NextWithinBlock(b, 0, b.Network());
    CoversIffInRange(b, Next(b.Network()));
  }

  // One step past the last address leaves the block, even for the block that
  // ends at the top address; only the all-embracing prefix of length 0 wraps
  // back into itself and needs the count to stop the loop.
  lemma {:induction false} StepPastTheEnd(b: Block, last: Address)
    requires b.Valid() && |last| == |b.ip|
    requires Value(last) == Value(b.Network()) + Pow2(b.HostBits()) - 1
    ensures b.Covers(Next(last)) <==> b.ones == 0
  {
    BlockFits(b);
    NextNumber(last);
    CoversIffInRange(b, Next(last));
    if b.ones > 0 {
      Pow2StrictlyMonotone(b.HostBits(), 8 * |b.ip|);
    }
  }
}
