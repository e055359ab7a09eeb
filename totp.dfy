/**
 * The TOTP code generator: RFC 6238 time-based one-time passwords built
 * on the HOTP construction of RFC 4226, with HMAC-SHA-1, a 30-second time
 * step and 6-digit codes.
 *
 * The two environmental inputs of the original are parameters here: the
 * clock becomes `elapsed`, the whole seconds since the Unix epoch, and
 * the HMAC-SHA-1 primitive becomes `hmac`, an arbitrary function from a
 * key and a message to a 20-byte digest.  The byte order of the host is
 * the parameter `host`; every result below is proved not to depend on it.
 */
module Totp {
  import opened Results
  import opened ByteOrder
  import opened DecimalFormat

  /** "Digit" of RFC 4226: the code length, the width of the format "{0:D6}". */
  const TRUNCATION_DIGITS: nat := 6
  /** 10^Digit. */
  const TRUNCATION_MODULUS: nat := 1_000_000
  /** "X" of RFC 6238. */
  const TIME_STEP_IN_SEC: nat := 30
  /** The length of an HMAC-SHA-1 digest. */
  const DIGEST_LENGTH: nat := 20
  /** The width of the counter, a 64-bit long. */
  const COUNTER_BYTES: nat := 8
  /**
   * The last whole second after the Unix epoch (in the year 5623) for which
   * the source's floating-point computation is exact.  `TotalSeconds` divides the
   * tick count e * 10^7 by 10^7 in double precision.  That is exact while
   * e * 78125 < 2^53, and then truncating `TotalSeconds / 30` is the floor
   * of e / 30.
   */
  const MAX_ELAPSED_SECONDS: nat := 115_292_150_460

  type Digest = s: seq<byte> | |s| == DIGEST_LENGTH witness seq(20, i => 0)

  /** HMAC-SHA-1 keyed by its first argument over its second. */
  type Hmac = (seq<byte>, seq<byte>) -> Digest

  lemma ModulusIsTenToTheDigits()
    ensures TRUNCATION_MODULUS == Pow10(TRUNCATION_DIGITS)
  {
  }

  // ---------------------------------------------------------------------
  // Counter derivation
  // ---------------------------------------------------------------------

  /**
   * T = (current Unix time - T0) / X, for a clock reading `elapsed` whole
   * seconds after the epoch: the number of whole time steps elapsed.
   */
  function GetCounter(elapsed: nat): (c: nat)
    requires elapsed <= MAX_ELAPSED_SECONDS
    ensures c * TIME_STEP_IN_SEC <= elapsed < c * TIME_STEP_IN_SEC + TIME_STEP_IN_SEC
    ensures c < Pow256(COUNTER_BYTES) / 2
  {
    elapsed / TIME_STEP_IN_SEC
  }

  /** The counter never goes backwards as time advances. */
  lemma CounterMonotone(e1: nat, e2: nat)
    requires e1 <= e2 <= MAX_ELAPSED_SECONDS
    ensures GetCounter(e1) <= GetCounter(e2)
  {
  }

  /** All the seconds of one 30-second window share the window's counter. */
  lemma CounterWithinWindow(k: nat, e: nat)
    requires k * TIME_STEP_IN_SEC <= e < k * TIME_STEP_IN_SEC + TIME_STEP_IN_SEC
    requires e <= MAX_ELAPSED_SECONDS
    ensures GetCounter(e) == k
  {
  }

  /** Two clock readings give the same counter exactly when they lie in the same window. */
  lemma SameCounterIffSameWindow(e1: nat, e2: nat)
    requires e1 <= MAX_ELAPSED_SECONDS && e2 <= MAX_ELAPSED_SECONDS
    ensures GetCounter(e1) == GetCounter(e2) <==>
      e1 - e1 % TIME_STEP_IN_SEC == e2 - e2 % TIME_STEP_IN_SEC
  {
  }

  /** One time step later the counter is one larger. */
  lemma CounterStep(e: nat)
    requires e + TIME_STEP_IN_SEC <= MAX_ELAPSED_SECONDS
    ensures GetCounter(e + TIME_STEP_IN_SEC) == GetCounter(e) + 1
  {
  }

  /**
   * The message fed to HMAC: BitConverter.GetBytes of
   * IPAddress.HostToNetworkOrder(counter), which on every host is the
   * eight bytes of the counter, high-order byte first.
   */
  function GetCounterBytes(host: HostOrder, elapsed: nat): (b: seq<byte>)
    requires elapsed <= MAX_ELAPSED_SECONDS
    ensures |b| == COUNTER_BYTES
    ensures FromBigEndian(b) == GetCounter(elapsed)
    ensures b == ToBigEndian(GetCounter(elapsed), COUNTER_BYTES)
  {
    var counter := GetCounter(elapsed);
    FromToBigEndian(counter, COUNTER_BYTES);
    GetBytes(host, HostToNetworkOrder(host, counter, COUNTER_BYTES), COUNTER_BYTES)
  }

  /** The counter bytes do not depend on the host's byte order. */
  lemma CounterBytesHostIndependent(h1: HostOrder, h2: HostOrder, elapsed: nat)
    requires elapsed <= MAX_ELAPSED_SECONDS
    ensures GetCounterBytes(h1, elapsed) == GetCounterBytes(h2, elapsed)
  {
  }

  // ---------------------------------------------------------------------
  // Dynamic truncation
  // ---------------------------------------------------------------------

  /** Why Truncate can fail on an input that is not a 20-byte digest. */
  datatype TruncateError =
    | EmptyDigest   // hmac[hmac.Length - 1] is out of range
    | WindowPastEnd // BitConverter.ToInt32 has fewer than 4 bytes from the offset

  /** The offset: the low nibble of the digest's last byte. */
  function Offset(hmac: seq<byte>): (o: nat)
    requires |hmac| > 0
    ensures o == hmac[|hmac| - 1] % 16
    ensures o <= 15
  {
    LowNibble(hmac[|hmac| - 1])
  }

  /**
   * Steps 2 and 3 of Truncate: read four bytes in host order at the
   * offset, convert them to network order and clear the sign bit.
   */
  function ExtractBinCode(host: HostOrder, hmac: seq<byte>): (r: Result<nat, TruncateError>)
    ensures r.Ok? <==> |hmac| > 0 && hmac[|hmac| - 1] % 16 + 4 <= |hmac|
    ensures |hmac| == 0 ==> r == Err(EmptyDigest)
    ensures r.Ok? ==> var o := hmac[|hmac| - 1] % 16;
      r.value == FromBigEndian(hmac[o..o + 4]) % 0x8000_0000
    ensures r.Ok? ==> r.value < 0x8000_0000
  {
    if |hmac| == 0 then Err(EmptyDigest)
    else
      var offset := Offset(hmac);
      if offset + 4 > |hmac| then Err(WindowPastEnd)
      else
        var window := hmac[offset..offset + 4];
        var binCode := FromHostBytes(host, window);
        NetworkOrderOfHostRead(host, window);
        var binCodeBE := HostToNetworkOrder(host, binCode, 4);
        Ok(ClearSignBit(binCodeBE))
  }

  /**
   * DT(String) of section 5.3 of RFC 4226 for a 20-byte HMAC-SHA-1 value:
   * the offset is the low 4 bits of byte 19, and the result is the last
   * 31 bits of bytes offset..offset+3 taken as a big-endian number.
   */
  function DynamicTruncation(d: Digest): (v: nat)
    ensures v < 0x8000_0000
  {
    var offset := d[19] % 16;
    (d[offset] as int % 128) * 0x100_0000 + d[offset + 1] as int * 0x1_0000 + d[offset + 2] as int * 0x100 + d[offset + 3]
  }

  lemma FromBigEndianFour(w: seq<byte>)
    requires |w| == 4
    ensures FromBigEndian(w) == w[0] as int * 0x100_0000 + w[1] as int * 0x1_0000 + w[2] as int * 0x100 + w[3]
  {
    assert w[..3][..2][..1][..0] == [];
    assert FromBigEndian(w[..1]) == w[0];
    assert FromBigEndian(w[..2]) == w[0] as int * 0x100 + w[1] by { assert w[..2][..1] == w[..1]; }
    assert FromBigEndian(w[..3]) == (w[0] as int * 0x100 + w[1]) * 0x100 + w[2] by { assert w[..3][..2] == w[..2]; }
    assert w[..4][..3] == w[..3];
  }

  /**
   * On a 20-byte digest the offset is at most 15, so the 4-byte window
   * ends at index 18 at the latest and the extraction always succeeds, on
   * every host, with the value RFC 4226 defines.
   */
  lemma ExtractBinCodeIsDynamicTruncation(host: HostOrder, d: Digest)
    ensures d[19] % 16 + 3 <= 18
    ensures ExtractBinCode(host, d) == Ok(DynamicTruncation(d))
  {
    var o := d[19] % 16;
    var w := d[o..o + 4];
    assert w[0] == d[o] && w[1] == d[o + 1] && w[2] == d[o + 2] && w[3] == d[o + 3];
    var rest := w[1] as int * 0x1_0000 + w[2] as int * 0x100 + w[3];
    FromBigEndianFour(w);
    ClearTopBit(w[0], rest);
    assert FromBigEndian(w) % 0x8000_0000 == DynamicTruncation(d);
    var r := ExtractBinCode(host, d);
    assert r.Ok? && r.value == FromBigEndian(w) % 0x8000_0000;
  }

  /** Clearing bit 31 of a 32-bit value clears bit 7 of its high-order byte. */
  lemma ClearTopBit(high: nat, rest: nat)
    requires high < 256 && rest < 0x100_0000
    ensures (high * 0x100_0000 + rest) % 0x8000_0000 == (high % 128) * 0x100_0000 + rest
  {
    var q, m := high / 128, high % 128;
    assert high * 0x100_0000 == q * 0x8000_0000 + m * 0x100_0000;
    assert m * 0x100_0000 + rest < 0x8000_0000;
  }

  /**
   * Truncate of the source: dynamic truncation, reduction modulo 10^6 and
   * formatting with "{0:D6}".
   */
  function Truncate(host: HostOrder, hmac: seq<byte>): (r: Result<string, TruncateError>)
    ensures r.Ok? <==> |hmac| > 0 && hmac[|hmac| - 1] % 16 + 4 <= |hmac|
    ensures |hmac| == DIGEST_LENGTH ==> r.Ok?
    ensures r.Ok? ==> |r.value| == TRUNCATION_DIGITS && AllDigits(r.value)
    ensures r.Ok? ==> var o := hmac[|hmac| - 1] % 16;
      ParseDecimal(r.value) == FromBigEndian(hmac[o..o + 4]) % 0x8000_0000 % TRUNCATION_MODULUS
  {
    match ExtractBinCode(host, hmac)
    case Err(e) => Err(e)
    case Ok(binCode) =>
      var totp := binCode % TRUNCATION_MODULUS;
      Ok(FormatD(totp, TRUNCATION_DIGITS))
  }

  /** The code Truncate produces does not depend on the host's byte order. */
  lemma TruncateHostIndependent(h1: HostOrder, h2: HostOrder, hmac: seq<byte>)
    ensures Truncate(h1, hmac) == Truncate(h2, hmac)
  {
    if Truncate(h1, hmac).Ok? {
      ParseInjective(Truncate(h1, hmac).value, Truncate(h2, hmac).value);
    }
  }

  // ---------------------------------------------------------------------
  // The whole pipeline
  // ---------------------------------------------------------------------

  /**
   * HOTP(K, C) = Truncate(HMAC-SHA-1(K, C)) of RFC 4226 with 6 digits, C
   * being the 8-byte big-endian counter: the reference the source is
   * measured against.
   */
  function Hotp(hmac: Hmac, key: seq<byte>, counter: nat): (code: string)
    requires counter < Pow256(COUNTER_BYTES)
    ensures |code| == TRUNCATION_DIGITS && AllDigits(code)
    ensures ParseDecimal(code) < TRUNCATION_MODULUS
  {
    var value := DynamicTruncation(hmac(key, ToBigEndian(counter, COUNTER_BYTES))) % TRUNCATION_MODULUS;
    FormatD(value, TRUNCATION_DIGITS)
  }

  /** Totp.GetCode for the key the Totp object was built with, at clock reading `elapsed`. */
  function GetCode(hmac: Hmac, host: HostOrder, key: seq<byte>, elapsed: nat): (code: string)
    requires elapsed <= MAX_ELAPSED_SECONDS
    ensures |code| == TRUNCATION_DIGITS && AllDigits(code)
    ensures ParseDecimal(code) ==
      DynamicTruncation(hmac(key, ToBigEndian(GetCounter(elapsed), COUNTER_BYTES))) % TRUNCATION_MODULUS
  {
    var digest := hmac(key, GetCounterBytes(host, elapsed));
    ExtractBinCodeIsDynamicTruncation(host, digest);
    Truncate(host, digest).value
  }

  /** TOTP = HOTP(K, T): the source's pipeline computes the RFC's code, on every host. */
  lemma GetCodeIsHotp(hmac: Hmac, host: HostOrder, key: seq<byte>, elapsed: nat)
    requires elapsed <= MAX_ELAPSED_SECONDS
    ensures GetCode(hmac, host, key, elapsed) == Hotp(hmac, key, GetCounter(elapsed))
  {
    ParseInjective(GetCode(hmac, host, key, elapsed), Hotp(hmac, key, GetCounter(elapsed)));
  }

  /**
   * For a fixed key, clock readings with the same counter (the same
   * 30-second window) give the same code, whatever the hosts.
   */
  lemma SameWindowSameCode(hmac: Hmac, h1: HostOrder, h2: HostOrder, key: seq<byte>, e1: nat, e2: nat)
    requires e1 <= MAX_ELAPSED_SECONDS && e2 <= MAX_ELAPSED_SECONDS
    requires GetCounter(e1) == GetCounter(e2)
    ensures GetCode(hmac, h1, key, e1) == GetCode(hmac, h2, key, e2)
  {
    GetCodeIsHotp(hmac, h1, key, e1);
    GetCodeIsHotp(hmac, h2, key, e2);
  }

  // ---------------------------------------------------------------------
  // Published test values
  // ---------------------------------------------------------------------

  /** The HMAC-SHA-1 value worked through in section 5.4 of RFC 4226. */
  const RFC4226_EXAMPLE: Digest :=
    [0x1f, 0x86, 0x98, 0x69, 0x0e, 0x02, 0xca, 0x16, 0x61, 0x85,
     0x50, 0xef, 0x7f, 0x19, 0xda, 0x8e, 0x94, 0x5b, 0x55, 0x5a]

  /** Section 5.4 of RFC 4226: offset 10, value 0x50ef7f19, code "872921". */
  lemma Rfc4226Example(host: HostOrder)
    ensures Offset(RFC4226_EXAMPLE) == 10
    ensures ExtractBinCode(host, RFC4226_EXAMPLE) == Ok(0x50ef7f19)
    ensures Truncate(host, RFC4226_EXAMPLE) == Ok("872921")
  {
    var d := RFC4226_EXAMPLE;
    assert d[19] % 16 == 10;
    assert d[10] == 0x50 && d[11] == 0xef && d[12] == 0x7f && d[13] == 0x19;
    assert DynamicTruncation(d) == 0x50ef7f19;
    ExtractBinCodeIsDynamicTruncation(host, d);
    assert Truncate(host, d) == Ok(FormatD(872921, TRUNCATION_DIGITS));
    FormatSixDigits();
  }

  lemma FormatSixDigits()
    ensures FormatD(872921, TRUNCATION_DIGITS) == "872921"
  {
  }

  /** Appendix B of RFC 6238: at Unix time 59 the counter is 1. */
  lemma Rfc6238CounterAt59(host: HostOrder)
    ensures GetCounter(59) == 1
    ensures GetCounterBytes(host, 59) == [0, 0, 0, 0, 0, 0, 0, 1]
  {
  }
}
