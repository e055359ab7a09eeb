/**
 * The key decoder of the command-line program: HexStringToBytes turns the
 * stored hexadecimal representation of the shared key into its bytes.
 * EncodeHex is the encoding the companion Base32-to-hex script prints
 * (Python's `bytes.hex()`, two lower-case digits per byte).
 */
module Program {
  import opened Results
  import opened ByteOrder

  datatype HexError =
    | BadHexString // empty or odd-length input, "Bad hex string"
    | NotHex       // a pair that Convert.ToByte(_, 16) cannot read

  predicate IsHexDigit(c: char) {
    '0' <= c <= '9' || 'a' <= c <= 'f' || 'A' <= c <= 'F'
  }

  /**
   * The value of one hex digit: its position in "0123456789abcdef" once an
   * upper-case letter is made lower-case.
   */
  function HexDigitValue(c: char): (v: nat)
    requires IsHexDigit(c)
    ensures v < 16
    ensures "0123456789abcdef"[v] == if 'A' <= c <= 'F' then (c as int - 'A' as int + 'a' as int) as char else c
  {
    if c <= '9' then c as int - '0' as int
    else if c <= 'F' then c as int - 'A' as int + 10
    else c as int - 'a' as int + 10
  }

  /**
   * Convert.ToByte of a two-digit hex string: the byte whose high and low
   * nibbles are the values of the first and second digits.
   */
  function PairValue(high: char, low: char): (b: byte)
    requires IsHexDigit(high) && IsHexDigit(low)
    ensures b / 16 == HexDigitValue(high) && b % 16 == HexDigitValue(low)
  {
    HexDigitValue(high) * 16 + HexDigitValue(low)
  }

  /** The lower-case digit for a value below 16. */
  function HexDigitChar(d: nat): (c: char)
    requires d < 16
    ensures IsHexDigit(c) && HexDigitValue(c) == d
    ensures !('A' <= c <= 'F')
  {
    "0123456789abcdef"[d]
  }

  /**
   * The meaning of a key string, without the loop: an error for empty or
   * odd-length input, an error when any character is not a hex digit, and
   * otherwise byte i is the value of the digits at 2i and 2i+1.
   */
  function DecodeHex(hex: string): (r: Result<seq<byte>, HexError>)
    ensures r == Err(BadHexString) <==> |hex| == 0 || |hex| % 2 != 0
    ensures r.Ok? <==> |hex| > 0 && |hex| % 2 == 0 && forall k :: 0 <= k < |hex| ==> IsHexDigit(hex[k])
    ensures r.Ok? ==> |r.value| == |hex| / 2
    ensures r.Ok? ==> forall i :: 0 <= i < |r.value| ==>
      r.value[i] / 16 == HexDigitValue(hex[2 * i]) && r.value[i] % 16 == HexDigitValue(hex[2 * i + 1])
  {
    if |hex| == 0 || |hex| % 2 != 0 then Err(BadHexString)
    else if exists k :: 0 <= k < |hex| && !IsHexDigit(hex[k]) then Err(NotHex)
    else Ok(seq(|hex| / 2, i requires 0 <= i < |hex| / 2 => PairValue(hex[2 * i], hex[2 * i + 1])))
  }

  /** HexStringToBytes: validate the length, then decode the pairs into a new array. */
  method HexStringToBytes(hex: string) returns (r: Result<array<byte>, HexError>)
    ensures r.Err? <==> DecodeHex(hex).Err?
    ensures r.Err? ==> r.error == DecodeHex(hex).error
    ensures r == Err(BadHexString) <==> |hex| == 0 || |hex| % 2 != 0
    ensures r.Ok? <==> |hex| > 0 && |hex| % 2 == 0 && forall k :: 0 <= k < |hex| ==> IsHexDigit(hex[k])
    ensures r.Ok? ==> fresh(r.value) && r.value[..] == DecodeHex(hex).value
    ensures r.Ok? ==> r.value.Length == |hex| / 2
    ensures r.Ok? ==> forall i :: 0 <= i < r.value.Length ==>
      r.value[i] == HexDigitValue(hex[2 * i]) * 16 + HexDigitValue(hex[2 * i + 1])
  {
    if |hex| == 0 || |hex| % 2 != 0 {
      return Err(BadHexString);
    }
    var result := new byte[|hex| / 2];
    for i := 0 to |hex| / 2
      invariant forall k :: 0 <= k < 2 * i ==> IsHexDigit(hex[k])
      invariant forall k :: 0 <= k < i ==> result[k] == PairValue(hex[2 * k], hex[2 * k + 1])
    {
      if !IsHexDigit(hex[2 * i]) || !IsHexDigit(hex[2 * i + 1]) {
        return Err(NotHex);
      }
      result[i] := PairValue(hex[2 * i], hex[2 * i + 1]);
    }
    return Ok(result);
  }

  /** bytes.hex(): two lower-case hex digits per byte, high-order digit first. */
  function EncodeHex(bytes: seq<byte>): (s: string)
    ensures |s| == 2 * |bytes|
  {
    seq(2 * |bytes|, k requires 0 <= k < 2 * |bytes| =>
      if k % 2 == 0 then HexDigitChar(bytes[k / 2] / 16) else HexDigitChar(bytes[k / 2] % 16))
  }

  /** Decoding what the script prints gives back every non-empty key. */
  lemma HexRoundTrip(bytes: seq<byte>)
    requires |bytes| > 0
    ensures DecodeHex(EncodeHex(bytes)) == Ok(bytes)
  {
    var s := EncodeHex(bytes);
    EncodeHexDigits(bytes);
    var r := DecodeHex(s);
    assert r.Ok? && |r.value| == |bytes|;
    forall i | 0 <= i < |bytes| ensures r.value[i] == bytes[i] {
      EncodedPair(bytes, i);
      SameNibbles(r.value[i], bytes[i]);
    }
    assert r.value == bytes;
  }

  lemma EncodeHexDigits(bytes: seq<byte>)
    ensures forall k :: 0 <= k < |EncodeHex(bytes)| ==> IsHexDigit(EncodeHex(bytes)[k])
  {
    var s := EncodeHex(bytes);
    forall k | 0 <= k < |s| ensures IsHexDigit(s[k]) {
    }
  }

  /** The two digits the encoding prints for byte i have that byte's nibble values. */
  lemma EncodedPair(bytes: seq<byte>, i: nat)
    requires i < |bytes|
    ensures IsHexDigit(EncodeHex(bytes)[2 * i]) && IsHexDigit(EncodeHex(bytes)[2 * i + 1])
    ensures HexDigitValue(EncodeHex(bytes)[2 * i]) == bytes[i] / 16
    ensures HexDigitValue(EncodeHex(bytes)[2 * i + 1]) == bytes[i] % 16
  {
    var s := EncodeHex(bytes);
    assert s[2 * i] == HexDigitChar(bytes[i] / 16);
    assert s[2 * i + 1] == HexDigitChar(bytes[i] % 16);
  }

  /** A byte is determined by its two nibbles. */
  lemma SameNibbles(a: byte, b: byte)
    requires a / 16 == b / 16 && a % 16 == b % 16
    ensures a == b
  {
  }

  /** The empty key prints as the empty string, which the decoder rejects. */
  lemma EmptyKeyDoesNotRoundTrip()
    ensures DecodeHex(EncodeHex([])) == Err(BadHexString)
  {
  }

  /** The character `c` with 'A'..'F' made lower-case. */
  function LowerHexDigit(c: char): (l: char)
    requires IsHexDigit(c)
    ensures IsHexDigit(l) && HexDigitValue(l) == HexDigitValue(c) && !('A' <= l <= 'F')
  {
    if 'A' <= c <= 'F' then (c as int - 'A' as int + 'a' as int) as char else c
  }

  /**
   * Conversely, re-encoding what the decoder accepts gives the input with
   * its upper-case digits made lower-case: the decoder forgets nothing but case.
   */
  lemma EncodeDecodeHex(hex: string)
    requires DecodeHex(hex).Ok?
    ensures forall k :: 0 <= k < |hex| ==> IsHexDigit(hex[k])
    ensures EncodeHex(DecodeHex(hex).value) ==
      seq(|hex|, k requires 0 <= k < |hex| && IsHexDigit(hex[k]) => LowerHexDigit(hex[k]))
  {
    var bytes := DecodeHex(hex).value;
    var s := EncodeHex(bytes);
    forall k | 0 <= k < |hex| ensures s[k] == LowerHexDigit(hex[k]) {
      var i := k / 2;
      var b := bytes[i];
      assert b == HexDigitValue(hex[2 * i]) * 16 + HexDigitValue(hex[2 * i + 1]);
      assert b / 16 == HexDigitValue(hex[2 * i]) && b % 16 == HexDigitValue(hex[2 * i + 1]);
      HexDigitUnique(s[k], LowerHexDigit(hex[k]));
    }
  }

  /** A lower-case hex digit is determined by its value. */
  lemma HexDigitUnique(c: char, d: char)
    requires IsHexDigit(c) && IsHexDigit(d) && !('A' <= c <= 'F') && !('A' <= d <= 'F')
    requires HexDigitValue(c) == HexDigitValue(d)
    ensures c == d
  {
  }
}
