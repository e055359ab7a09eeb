/**
 * Bytes and the byte-order conversions the TOTP code relies on:
 * big- and little-endian readings of byte sequences, and the host-order
 * primitives of .NET (BitConverter.GetBytes, BitConverter.ToInt32,
 * IPAddress.HostToNetworkOrder) with the host's byte order made an
 * explicit parameter.  Fixed-width integers are modelled as their
 * unsigned bit patterns, a natural number below 256^n for n bytes.
 */
module ByteOrder {

  type byte = x: int | 0 <= x < 256

  /** 256^n, the number of distinct n-byte patterns. */
  function Pow256(n: nat): (p: nat)
    ensures p > 0
  {
    if n == 0 then 1 else 256 * Pow256(n - 1)
  }

  /** The unsigned value of `s` read high-order byte first. */
  function FromBigEndian(s: seq<byte>): (v: nat)
    ensures v < Pow256(|s|)
  {
    if s == [] then 0
    else
      var high := FromBigEndian(s[..|s| - 1]);
      assert high * 256 + s[|s| - 1] < Pow256(|s|) by {
        assert high + 1 <= Pow256(|s| - 1);
        assert (high + 1) * 256 <= Pow256(|s| - 1) * 256;
      }
      high * 256 + s[|s| - 1]
  }

  /** The `n` bytes of `x`, high-order byte first. */
  function ToBigEndian(x: nat, n: nat): (s: seq<byte>)
    requires x < Pow256(n)
    ensures |s| == n
  {
    if n == 0 then []
    else
      assert x / 256 < Pow256(n - 1);
      ToBigEndian(x / 256, n - 1) + [x % 256]
  }

  /** Encoding a value and reading it back gives the value. */
  lemma {:induction false} FromToBigEndian(x: nat, n: nat)
    requires x < Pow256(n)
    ensures FromBigEndian(ToBigEndian(x, n)) == x
  {
    if n > 0 {
      var s := ToBigEndian(x, n);
      assert s[..n - 1] == ToBigEndian(x / 256, n - 1);
      FromToBigEndian(x / 256, n - 1);
    }
  }

  /** Reading bytes and encoding the value at the same width gives the bytes. */
  lemma {:induction false} ToFromBigEndian(s: seq<byte>)
    ensures ToBigEndian(FromBigEndian(s), |s|) == s
  {
    if s != [] {
      var n := |s|;
      var high := FromBigEndian(s[..n - 1]);
      var v := FromBigEndian(s);
      assert v == high * 256 + s[n - 1];
      assert v / 256 == high && v % 256 == s[n - 1];
      ToFromBigEndian(s[..n - 1]);
      assert s == s[..n - 1] + [s[n - 1]];
    }
  }

  /** `s` in the opposite byte order. */
  function Reverse(s: seq<byte>): (r: seq<byte>)
    ensures |r| == |s|
    ensures forall i :: 0 <= i < |s| ==> r[i] == s[|s| - 1 - i]
  {
    seq(|s|, i requires 0 <= i < |s| => s[|s| - 1 - i])
  }

  lemma ReverseReverse(s: seq<byte>)
    ensures Reverse(Reverse(s)) == s
  {
  }

  /** The byte order of the machine the program runs on. */
  datatype HostOrder = LittleEndianHost | BigEndianHost

  /**
   * BitConverter.GetBytes: the `n` bytes of `x` in host order.  Read high-order
   * byte first on a big-endian host, or low-order byte first on a
   * little-endian one, they give `x` back.
   */
  function GetBytes(host: HostOrder, x: nat, n: nat): (s: seq<byte>)
    requires x < Pow256(n)
    ensures |s| == n
    ensures host == BigEndianHost ==> FromBigEndian(s) == x
    ensures host == LittleEndianHost ==> FromBigEndian(Reverse(s)) == x
  {
    FromToBigEndian(x, n);
    ReverseReverse(ToBigEndian(x, n));
    if host == BigEndianHost then ToBigEndian(x, n) else Reverse(ToBigEndian(x, n))
  }

  /**
   * BitConverter.ToInt32 and friends: the value of the bytes `s` read in
   * host order.  It fits in |s| bytes, and GetBytes in the same host order
   * writes it back as `s`.
   */
  function FromHostBytes(host: HostOrder, s: seq<byte>): (v: nat)
    ensures v < Pow256(|s|)
    ensures GetBytes(host, v, |s|) == s
  {
    ToFromBigEndian(s);
    ToFromBigEndian(Reverse(s));
    ReverseReverse(s);
    if host == BigEndianHost then FromBigEndian(s) else FromBigEndian(Reverse(s))
  }

  /**
   * IPAddress.HostToNetworkOrder on an `n`-byte integer: the identity on a
   * big-endian host, a byte swap on a little-endian one.  Either way the
   * host-order bytes of the result are the big-endian bytes of `x`.
   */
  function HostToNetworkOrder(host: HostOrder, x: nat, n: nat): (r: nat)
    requires x < Pow256(n)
    ensures r < Pow256(n)
    ensures GetBytes(host, r, n) == ToBigEndian(x, n)
  {
    if host == BigEndianHost then x
    else
      var swapped := Reverse(ToBigEndian(x, n));
      ToFromBigEndian(swapped);
      ReverseReverse(ToBigEndian(x, n));
      FromBigEndian(swapped)
  }

  /**
   * Reading bytes in host order and converting the value to network order
   * gives their big-endian value, whatever the host's byte order.
   */
  lemma NetworkOrderOfHostRead(host: HostOrder, s: seq<byte>)
    ensures HostToNetworkOrder(host, FromHostBytes(host, s), |s|) == FromBigEndian(s)
  {
    if host == LittleEndianHost {
      ToFromBigEndian(Reverse(s));
      ReverseReverse(s);
    }
  }

  /** 2^n. */
  function Pow2(n: nat): (p: nat)
    ensures p > 0
  {
    if n == 0 then 1 else 2 * Pow2(n - 1)
  }

  /**
   * The bitwise and `x & y` of the low `width` bits of two integers, bit
   * by bit from the least significant one.
   */
  function BitAnd(x: nat, y: nat, width: nat): (r: nat)
    ensures r < Pow2(width)
    ensures r <= x && r <= y
  {
    if width == 0 then 0
    else
      var rest := BitAnd(x / 2, y / 2, width - 1);
      rest * 2 + (if x % 2 == 1 && y % 2 == 1 then 1 else 0)
  }

  /** And with zero is zero. */
  lemma {:induction false} BitAndZero(x: nat, width: nat)
    ensures BitAnd(x, 0, width) == 0
  {
    if width > 0 {
      BitAndZero(x / 2, width - 1);
    }
  }

  /** And with a mask of `k` low one bits keeps `x` modulo 2^k. */
  lemma {:induction false} BitAndLowMask(x: nat, k: nat, width: nat)
    requires k <= width
    ensures BitAnd(x, Pow2(k) - 1, width) == x % Pow2(k)
  {
    if k == 0 {
      BitAndZero(x, width);
    } else {
      var m := Pow2(k) - 1;
      assert m / 2 == Pow2(k - 1) - 1 && m % 2 == 1;
      var rest := BitAnd(x / 2, m / 2, width - 1);
      assert BitAnd(x, m, width) == rest * 2 + x % 2;
      BitAndLowMask(x / 2, k - 1, width - 1);
      assert rest == x / 2 % Pow2(k - 1);
      ModOfDouble(x, Pow2(k - 1));
    }
  }

  /** Reducing modulo 2p halves, reduces modulo p and puts the low bit back. */
  lemma ModOfDouble(x: nat, p: nat)
    requires p > 0
    ensures x % (2 * p) == (x / 2 % p) * 2 + x % 2
  {
    var q, b := x / 2, x % 2;
    var a, c := q / p, q % p;
    assert x == a * (2 * p) + (c * 2 + b);
    ModUnique(x, 2 * p, a, c * 2 + b);
  }

  /** The remainder is the unique `r` in [0, d) with x == a*d + r. */
  lemma ModUnique(x: nat, d: nat, a: nat, r: nat)
    requires r < d && x == a * d + r
    ensures x % d == r
  {
    var q := x / d;
    assert x == q * d + x % d;
    if a > q {
      assert (a - q) * d >= d by { MulAtLeastOne(a - q, d); }
      assert false;
    } else if a < q {
      assert (q - a) * d >= d by { MulAtLeastOne(q - a, d); }
      assert false;
    }
  }

  lemma MulAtLeastOne(k: nat, d: nat)
    requires k >= 1
    ensures k * d >= d
  {
  }

  lemma Pow2Values()
    ensures Pow2(4) == 16 && Pow2(31) == 0x8000_0000
  {
    assert Pow2(8) == 256;
    assert Pow2(16) == 0x1_0000;
    assert Pow2(24) == 0x100_0000;
  }

  /** `x & 0x7fffffff` on a 32-bit pattern: `x` with bit 31 cleared, that is, modulo 2^31. */
  function ClearSignBit(x: nat): (r: nat)
    requires x < 0x1_0000_0000
    ensures r == x % 0x8000_0000
  {
    Pow2Values();
    BitAndLowMask(x, 31, 32);
    BitAnd(x, 0x7FFF_FFFF, 32)
  }

  /** The low nibble of a byte, `b & 0xf`. */
  function LowNibble(b: byte): (r: nat)
    ensures r == b % 16
  {
    Pow2Values();
    BitAndLowMask(b, 4, 8);
    BitAnd(b, 0xF, 8)
  }
}
