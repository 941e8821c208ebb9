/** CIDR containment as the allowlist check computes it, byte by byte under a mask, and
    its meaning as the address interval of RFC 4632, section 3.1. */
module Cidr {

  type Byte = x: int | 0 <= x < 256

  /** A parsed block: an address and the number of leading one bits of its mask. */
  datatype IPNet = IPNet(ip: seq<Byte>, ones: nat) {
    ghost predicate Valid() { ones <= 8 * |ip| }
  }

  /** Bitwise and, bit by bit from the lowest. */
  function BitAnd(a: nat, b: nat): nat {
    if a == 0 then 0 else 2 * BitAnd(a / 2, b / 2) + (if a % 2 == 1 && b % 2 == 1 then 1 else 0)
  }

  /** `width` bits of which the lowest `host` are zero and the others one. */
  function Mask(width: nat, host: nat): nat {
    if width == 0 then 0
    else if host > 0 then 2 * Mask(width - 1, host - 1)
    else 2 * Mask(width - 1, 0) + 1
  }

  /** Byte `i` of a mask with `ones` leading one bits. */
  function MaskByte(ones: nat, i: nat): nat {
    Mask(8, if ones >= 8 * i + 8 then 0 else if ones <= 8 * i then 8 else 8 * i + 8 - ones)
  }

  predicate BytePasses(a: Byte, b: Byte, ones: nat, i: nat) {
    BitAnd(a, MaskByte(ones, i)) == BitAnd(b, MaskByte(ones, i))
  }

  /** The mask test on the first `n` bytes. */
  predicate BytesPass(a: seq<Byte>, b: seq<Byte>, ones: nat, n: nat)
    requires |a| == |b| && n <= |a|
  {
    n == 0 || (BytesPass(a, b, ones, n - 1) && BytePasses(a[n - 1], b[n - 1], ones, n - 1))
  }

  /** The mask test against an address, which must have the form of the block (4 or 16 bytes). */
  predicate Contains(net: IPNet, ip: seq<Byte>) {
    |ip| == |net.ip| && BytesPass(net.ip, ip, net.ones, |ip|)
  }

  // ----- addresses as numbers -----

  function Pow2(n: nat): nat {
    if n == 0 then 1 else 2 * Pow2(n - 1)
  }

  /** The number with its lowest `host` bits cleared. */
  function Cleared(n: nat, host: nat): (r: nat)
    ensures r <= n
  {
    if host == 0 then n else 2 * Cleared(n / 2, host - 1)
  }

  predicate SamePrefix(n: nat, m: nat, host: nat) {
    Cleared(n, host) == Cleared(m, host)
  }

  /** The first `n` bytes as a number, most significant byte first. */
  function Value(ip: seq<Byte>, n: nat): nat
    requires n <= |ip|
  {
    if n == 0 then 0 else 256 * Value(ip, n - 1) + ip[n - 1]
  }

  function HostBits(net: IPNet): nat
    requires net.Valid()
  {
    8 * |net.ip| - net.ones
  }

  /** The cleared number is the start of the block of 2^host numbers that `n` lies in: another
      number clears to the same start exactly when it lies in that block. */
  lemma {:induction false} ClearedIsBlockStart(n: nat, m: nat, host: nat)
    ensures Cleared(n, host) == Cleared(m, host) <==> Cleared(n, host) <= m < Cleared(n, host) + Pow2(host)
  {
    if host > 0 {
      ClearedIsBlockStart(n / 2, m / 2, host - 1);
    }
  }

  lemma {:induction false} ClearedZero(host: nat)
    ensures Cleared(0, host) == 0
  {
    if host > 0 { ClearedZero(host - 1); }
  }

  lemma {:induction false} MaskClears(a: nat, width: nat, host: nat)
    requires host <= width && a < Pow2(width)
    ensures BitAnd(a, Mask(width, host)) == Cleared(a, host)
  {
    if width > 0 && a > 0 {
      MaskClears(a / 2, width - 1, if host > 0 then host - 1 else 0);
    } else {
      ClearedZero(host);
    }
  }

  lemma ByteMask(a: Byte, host: nat)
    requires host <= 8
    ensures BitAnd(a, Mask(8, host)) == Cleared(a, host)
  {
    assert Pow2(2) == 4 && Pow2(4) == 16 && Pow2(6) == 64 && Pow2(8) == 256;
    MaskClears(a, 8, host);
  }

  lemma ClearTwo(n: nat, quarter: nat, host: nat)
    requires host >= 2 && 4 * quarter <= n < 4 * quarter + 4
    ensures Cleared(n, host) == 4 * Cleared(quarter, host - 2)
  {
    assert n / 2 / 2 == quarter;
  }

  /** Eight or more host bits clear the last byte and go on in the bytes before it. */
  lemma ClearWholeByte(v: nat, x: Byte, host: nat)
    requires host >= 8
    ensures Cleared(256 * v + x, host) == 256 * Cleared(v, host - 8)
  {
    ClearTwo(256 * v + x, 64 * v + x / 4, host);
    ClearTwo(64 * v + x / 4, 16 * v + x / 16, host - 2);
    ClearTwo(16 * v + x / 16, 4 * v + x / 64, host - 4);
    ClearTwo(4 * v + x / 64, v, host - 6);
  }

  lemma {:induction false} ClearedFewer(c: nat, host: nat, fewer: nat)
    requires fewer <= host && Cleared(c, host) == c
    ensures Cleared(c, fewer) == c
  {
    if fewer > 0 {
      ClearedFewer(c / 2, host - 1, fewer - 1);
    }
  }

  lemma {:induction false} ClearedSum(c: nat, x: nat, host: nat)
    requires Cleared(c, host) == c
    ensures Cleared(c + x, host) == c + Cleared(x, host)
  {
    if host > 0 {
      ClearedSum(c / 2, x / 2, host - 1);
      assert (c + x) / 2 == c / 2 + x / 2;
    }
  }

  /** Fewer than eight host bits lie within the last byte. */
  lemma ClearLastByte(v: nat, x: Byte, host: nat)
    requires host <= 8
    ensures Cleared(256 * v + x, host) == 256 * v + Cleared(x, host)
  {
    ClearWholeByte(v, 0, 8);
    ClearedFewer(256 * v, 8, host);
    ClearedSum(256 * v, x, host);
  }

  /** Under a full mask the test compares the whole numbers. */
  lemma {:induction false} FullMask(a: seq<Byte>, b: seq<Byte>, ones: nat, n: nat)
    requires |a| == |b| && n <= |a| && 8 * n <= ones
    ensures BytesPass(a, b, ones, n) <==> Value(a, n) == Value(b, n)
  {
    if n > 0 {
      FullMask(a, b, ones, n - 1);
      ByteMask(a[n - 1], 0);
      ByteMask(b[n - 1], 0);
    }
  }

  /** Byte `i` as a whole belongs to the host part: the bytes before it decide. */
  lemma WideStep(u: nat, a: Byte, v: nat, b: Byte, ones: nat, i: nat)
    requires ones <= 8 * i
    ensures SamePrefix(256 * u + a, 256 * v + b, 8 * i + 8 - ones) <==> SamePrefix(u, v, 8 * i - ones)
    ensures BytePasses(a, b, ones, i)
  {
    ClearWholeByte(u, a, 8 * i + 8 - ones);
    ClearWholeByte(v, b, 8 * i + 8 - ones);
    ByteMask(a, 8);
    ByteMask(b, 8);
    ClearWholeByte(0, a, 8);
    ClearWholeByte(0, b, 8);
  }

  /** The prefix ends within byte `i`: the bytes before it must agree entirely. */
  lemma NarrowStep(u: nat, a: Byte, v: nat, b: Byte, ones: nat, i: nat)
    requires 8 * i <= ones <= 8 * i + 8
    ensures SamePrefix(256 * u + a, 256 * v + b, 8 * i + 8 - ones)
      <==> u == v && BytePasses(a, b, ones, i)
  {
    var host := 8 * i + 8 - ones;
    ByteMask(a, host);
    ByteMask(b, host);
    ClearLastByte(u, a, host);
    ClearLastByte(v, b, host);
  }

  /** The bytewise mask test compares the two numbers with their host bits cleared. */
  lemma {:induction false} MaskComparesPrefixes(a: seq<Byte>, b: seq<Byte>, ones: nat, n: nat)
    requires |a| == |b| && n <= |a| && ones <= 8 * n
    ensures BytesPass(a, b, ones, n) <==> SamePrefix(Value(a, n), Value(b, n), 8 * n - ones)
  {
    if n > 0 {
      var i := n - 1;
      if ones <= 8 * i {
        MaskComparesPrefixes(a, b, ones, i);
        WideStep(Value(a, i), a[i], Value(b, i), b[i], ones, i);
      } else {
        FullMask(a, b, ones, i);
        NarrowStep(Value(a, i), a[i], Value(b, i), b[i], ones, i);
      }
    }
  }

  /** Section 3.1 of RFC 4632: a block with prefix length n out of w bits holds exactly the
      2^(w-n) addresses that start where the address of the block has its host bits cleared. */
  ghost predicate InInterval(net: IPNet, ip: seq<Byte>)
    requires net.Valid()
  {
    var w := |net.ip|;
    var base := Cleared(Value(net.ip, w), HostBits(net));
    |ip| == w && base <= Value(ip, w) < base + Pow2(HostBits(net))
  }

  lemma ContainsIsInterval(net: IPNet, ip: seq<Byte>)
    requires net.Valid()
    ensures Contains(net, ip) <==> InInterval(net, ip)
  {
    if |ip| == |net.ip| {
      MaskComparesPrefixes(net.ip, ip, net.ones, |ip|);
      ClearedIsBlockStart(Value(net.ip, |ip|), Value(ip, |ip|), HostBits(net));
    }
  }
}
