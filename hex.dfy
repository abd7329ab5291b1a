/**
 * Lowercase hexadecimal encoding of random bytes, as done by
 * `generate_random_hexstring` in cfgbkc/src/tools.rs.
 */
module Hex {
  import opened Wrappers

  /** Rust's `u8`. */
  type Byte = b: int | 0 <= b < 256

  predicate IsLowerHex(c: char) {
    '0' <= c <= '9' || 'a' <= c <= 'f'
  }

  /** The value of one lowercase hex digit. */
  function HexValue(c: char): (n: int)
    requires IsLowerHex(c)
    ensures 0 <= n < 16
  {
    if c <= '9' then c as int - '0' as int else c as int - 'a' as int + 10
  }

  /** The lowercase hex digit of a nibble; it is the inverse of HexValue. */
  function HexDigit(n: int): (c: char)
    requires 0 <= n < 16
    ensures IsLowerHex(c) && HexValue(c) == n
  {
    if n < 10 then ('0' as int + n) as char else ('a' as int + n - 10) as char
  }

  lemma HexDigitOfValue(c: char)
    requires IsLowerHex(c)
    ensures HexDigit(HexValue(c)) == c
  {
  }

  /** `format!("{num:02x}")`: two lowercase digits, high nibble first, zero-padded. */
  function FormatByte(b: Byte): (s: string)
    ensures |s| == 2 && IsLowerHex(s[0]) && IsLowerHex(s[1])
    ensures 16 * HexValue(s[0]) + HexValue(s[1]) == b
  {
    [HexDigit(b / 16), HexDigit(b % 16)]
  }

  /**
   * The string that results from formatting the bytes one after another:
   * two lowercase digits per byte, in byte order (see HexEncodeAt).
   */
  function HexEncode(bytes: seq<Byte>): (s: string)
    ensures |s| == 2 * |bytes|
    ensures forall k :: 0 <= k < |s| ==> IsLowerHex(s[k])
  {
    if bytes == [] then ""
    else HexEncode(bytes[..|bytes| - 1]) + FormatByte(bytes[|bytes| - 1])
  }

  /** Characters 2i and 2i+1 of the encoding are the high and low nibble of byte i. */
  lemma {:induction false} HexEncodeAt(bytes: seq<Byte>, i: nat)
    requires i < |bytes|
    ensures HexEncode(bytes)[2 * i] == HexDigit(bytes[i] / 16)
    ensures HexEncode(bytes)[2 * i + 1] == HexDigit(bytes[i] % 16)
    decreases |bytes|
  {
    var init := bytes[..|bytes| - 1];
    if i < |init| {
      HexEncodeAt(init, i);
      assert init[i] == bytes[i];
    }
  }

  /** Reads a string of lowercase hex digit pairs back into bytes; None for any other string. */
  function HexDecode(s: string): (r: Option<seq<Byte>>)
    ensures r.Some? ==> 2 * |r.value| == |s|
  {
    if |s| < 2 then
      if s == [] then Some([]) else None
    else if !IsLowerHex(s[|s| - 2]) || !IsLowerHex(s[|s| - 1]) then None
    else
      match HexDecode(s[..|s| - 2])
      case None => None
      case Some(prefix) => Some(prefix + [16 * HexValue(s[|s| - 2]) + HexValue(s[|s| - 1])])
  }

  /** Encoding more bytes only appends: the output for earlier bytes never changes. */
  lemma {:induction false} HexEncodeAppend(a: seq<Byte>, b: seq<Byte>)
    ensures HexEncode(a + b) == HexEncode(a) + HexEncode(b)
    decreases |b|
  {
    if b == [] {
      assert a + b == a;
    } else {
      var b' := b[..|b| - 1];
      assert (a + b)[..|a + b| - 1] == a + b';
      HexEncodeAppend(a, b');
    }
  }

  /** Decoding a string with two more hex digits appends the byte they denote. */
  lemma DecodeStep(p: string, prefix: seq<Byte>, hi: char, lo: char)
    requires IsLowerHex(hi) && IsLowerHex(lo) && HexDecode(p) == Some(prefix)
    ensures HexDecode(p + [hi, lo]) == Some(prefix + [16 * HexValue(hi) + HexValue(lo)])
  {
    var s := p + [hi, lo];
    assert s[..|s| - 2] == p;
    assert s[|s| - 2] == hi && s[|s| - 1] == lo;
    assert IsLowerHex(s[|s| - 2]) && IsLowerHex(s[|s| - 1]);
  }

  lemma HexEncodeSnoc(init: seq<Byte>, b: Byte)
    ensures HexEncode(init + [b]) == HexEncode(init) + FormatByte(b)
  {
    assert (init + [b])[..|init|] == init;
  }

  /** Decoding recovers the bytes that were encoded. */
  lemma {:induction false} DecodeEncode(bytes: seq<Byte>)
    ensures HexDecode(HexEncode(bytes)) == Some(bytes)
    decreases |bytes|
  {
    if bytes != [] {
      var init := bytes[..|bytes| - 1];
      var b := bytes[|bytes| - 1];
      assert init + [b] == bytes;
      DecodeEncode(init);
      HexEncodeSnoc(init, b);
      var pair := FormatByte(b);
      assert HexEncode(bytes) == HexEncode(init) + [pair[0], pair[1]];
      DecodeStep(HexEncode(init), init, pair[0], pair[1]);
      assert 16 * HexValue(pair[0]) + HexValue(pair[1]) == b;
    }
  }

  /** Formatting the byte that two hex digits denote gives those digits back. */
  lemma FormatByteOfDigits(hi: char, lo: char)
    requires IsLowerHex(hi) && IsLowerHex(lo)
    ensures FormatByte(16 * HexValue(hi) + HexValue(lo)) == [hi, lo]
  {
    var b := 16 * HexValue(hi) + HexValue(lo);
    assert b / 16 == HexValue(hi) && b % 16 == HexValue(lo);
    HexDigitOfValue(hi);
    HexDigitOfValue(lo);
  }

  /** Only an encoding decodes: a string that decodes is the encoding of what it decodes to. */
  lemma {:induction false} EncodeDecode(s: string, bytes: seq<Byte>)
    requires HexDecode(s) == Some(bytes)
    ensures HexEncode(bytes) == s
    decreases |s|
  {
    if s != [] {
      var p, hi, lo := s[..|s| - 2], s[|s| - 2], s[|s| - 1];
      var prefix := HexDecode(p).value;
      var b := 16 * HexValue(hi) + HexValue(lo);
      assert bytes == prefix + [b];
      EncodeDecode(p, prefix);
      HexEncodeSnoc(prefix, b);
      FormatByteOfDigits(hi, lo);
      assert s == p + [hi, lo];
    }
  }

  /** Fixed-width encoding is injective: different byte sequences give different strings. */
  lemma HexEncodeInjective(a: seq<Byte>, b: seq<Byte>)
    requires HexEncode(a) == HexEncode(b)
    ensures a == b
  {
    DecodeEncode(a);
    DecodeEncode(b);
  }

  /** The first n values of a random number generator, where rng(i) is the value of its i-th draw. */
  function Draws(n: nat, rng: nat -> Byte): (s: seq<Byte>)
    ensures |s| == n
    ensures forall i :: 0 <= i < n ==> s[i] == rng(i)
  {
    if n == 0 then [] else Draws(n - 1, rng) + [rng(n - 1)]
  }

  /**
   * `generate_random_hexstring(len)`: draws len bytes and appends each one's
   * two-digit hex form to the string. It cannot fail.
   */
  method GenerateRandomHexstring(len: nat, rng: nat -> Byte) returns (r: Result<string>)
    ensures r.Ok?
    ensures r.value == HexEncode(Draws(len, rng))
    ensures |r.value| == 2 * len
    ensures forall i :: 0 <= i < len ==>
      r.value[2 * i] == HexDigit(rng(i) / 16) && r.value[2 * i + 1] == HexDigit(rng(i) % 16)
  {
    var randstr := "";
    for i := 0 to len
      invariant randstr == HexEncode(Draws(i, rng))
    {
      var num := rng(i);
      ghost var before := Draws(i, rng);
      assert Draws(i + 1, rng)[..i] == before;
      randstr := randstr + FormatByte(num);
    }
    forall i | 0 <= i < len
      ensures randstr[2 * i] == HexDigit(rng(i) / 16) && randstr[2 * i + 1] == HexDigit(rng(i) % 16)
    {
      HexEncodeAt(Draws(len, rng), i);
    }
    return Ok(randstr);
  }
}
