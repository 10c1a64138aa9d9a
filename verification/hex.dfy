/** encoding/hex as the program uses it: hashes and signed operations travel
    as lower-case hex strings. Decoding follows Go's DecodeString, which
    returns the bytes decoded before the first error together with the
    error; several call sites ignore that error. */
module Hex {

  import opened Wrappers

  newtype byte = b: int | 0 <= b < 256

  /** A Go byte string. */
  type Bytes = seq<byte>

  const Digits: string := "0123456789abcdef"

  /** hex.EncodeToString: two lower-case digits per byte, high nibble first. */
  function Encode(bs: seq<byte>): (s: string)
    ensures |s| == 2 * |bs|
    ensures forall i :: 0 <= i < |s| ==> s[i] in Digits
  {
    if bs == [] then ""
    else [Digits[bs[0] as int / 16], Digits[bs[0] as int % 16]] + Encode(bs[1..])
  }

  /** The value of one hex digit; Go accepts both cases. */
  function DigitValue(c: char): (v: Option<int>)
    ensures v.Some? ==> 0 <= v.value < 16
  {
    if '0' <= c <= '9' then Some(c as int - '0' as int)
    else if 'a' <= c <= 'f' then Some(c as int - 'a' as int + 10)
    else if 'A' <= c <= 'F' then Some(c as int - 'A' as int + 10)
    else None
  }

  predicate IsDigit(c: char)
  {
    DigitValue(c).Some?
  }

  /** hex.DecodeString: the decoded bytes (the prefix before an error, if
      any) and whether decoding succeeded. */
  function Decode(s: string): (r: (seq<byte>, bool))
    ensures 2 * |r.0| <= |s|
    ensures r.1 ==> |s| == 2 * |r.0|
  {
    if |s| == 0 then ([], true)
    else if |s| == 1 then ([], false)
    else
      var hi := DigitValue(s[0]);
      var lo := DigitValue(s[1]);
      if hi.None? || lo.None? then ([], false)
      else
        var rest := Decode(s[2..]);
        ([(hi.value * 16 + lo.value) as byte] + rest.0, rest.1)
  }

  /** Decoding succeeds exactly on even-length strings of hex digits. */
  lemma {:induction false} DecodeSucceedsIff(s: string)
    ensures Decode(s).1 <==> |s| % 2 == 0 && forall i :: 0 <= i < |s| ==> IsDigit(s[i])
  {
    if |s| >= 2 && IsDigit(s[0]) && IsDigit(s[1]) {
      DecodeSucceedsIff(s[2..]);
      assert forall i :: 2 <= i < |s| ==> s[i] == s[2..][i - 2];
    }
  }

  /** Every digit Encode writes reads back as its own value. */
  lemma DigitRoundTrip(v: int)
    requires 0 <= v < 16
    ensures DigitValue(Digits[v]) == Some(v)
  {
    if v < 10 {
      assert Digits[v] as int == '0' as int + v;
    } else {
      assert Digits[v] as int == 'a' as int + v - 10;
    }
  }

  /** One step of Decode: two digits that spell byte v. */
  lemma DecodeStep(s: string, v: byte)
    requires |s| >= 2
    requires DigitValue(s[0]) == Some(v as int / 16) && DigitValue(s[1]) == Some(v as int % 16)
    ensures Decode(s) == ([v] + Decode(s[2..]).0, Decode(s[2..]).1)
  {
    assert (v as int / 16) * 16 + v as int % 16 == v as int;
  }

  /** Decoding what was encoded gives back the bytes, without error. */
  lemma {:induction false} DecodeEncode(bs: seq<byte>)
    ensures Decode(Encode(bs)) == (bs, true)
  {
    if bs != [] {
      var b := bs[0] as int;
      var rest := Encode(bs[1..]);
      var s := [Digits[b / 16], Digits[b % 16]] + rest;
      assert Encode(bs) == s;
      DigitRoundTrip(b / 16);
      DigitRoundTrip(b % 16);
      assert s[2..] == rest;
      DecodeStep(s, bs[0]);
      DecodeEncode(bs[1..]);
      assert [bs[0]] + bs[1..] == bs;
    }
  }

  /** Distinct byte strings have distinct hex forms. */
  lemma EncodeInjective(a: seq<byte>, b: seq<byte>)
    requires Encode(a) == Encode(b)
    ensures a == b
  {
    DecodeEncode(a);
    DecodeEncode(b);
  }
}
