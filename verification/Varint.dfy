/** The two variable-length integers of the patch format (src/encode.rs:326-359). */
module Varint {
  import opened Bytes

  /** Little-endian base-128 digits, every digit but the last carrying the continuation bit. */
  function EncodeLen(v: nat): (s: seq<byte>)
    ensures |s| >= 1
  {
    if v < 128 then [v] else [128 + v % 128] + EncodeLen(v / 128)
  }

  /** Reads one base-128 integer off the front of a stream. */
  function DecodeLen(s: seq<byte>): (r: Option<(nat, seq<byte>)>)
    ensures r.Some? ==> |r.value.1| < |s|
  {
    if s == [] then None
    else if s[0] < 128 then Some((s[0], s[1..]))
    else match DecodeLen(s[1..])
      case None => None
      case Some((high, rest)) => Some((s[0] - 128 + 128 * high, rest))
  }

  /** Sign bit and six low bits in the first byte, base-128 digits after it. */
  function EncodeSize(value: int): (s: seq<byte>)
    ensures |s| >= 1
  {
    var sign := if value < 0 then 64 else 0;
    var v := if value < 0 then -value else value;
    if v < 64 then [sign + v] else [sign + 128 + v % 64] + EncodeLen(v / 64)
  }

  /** Reads one signed size off the front of a stream. */
  function DecodeSize(s: seq<byte>): (r: Option<(int, seq<byte>)>)
    ensures r.Some? ==> |r.value.1| < |s|
  {
    if s == [] then None else
    var low := s[0] % 64;
    var negative := s[0] / 64 % 2 == 1;
    if s[0] < 128 then Some((if negative then -low else low, s[1..]))
    else match DecodeLen(s[1..])
      case None => None
      case Some((high, rest)) =>
        var v := low + 64 * high;
        Some((if negative then -v else v, rest))
  }

  lemma {:induction false} LenRoundTrip(v: nat, rest: seq<byte>)
    ensures DecodeLen(EncodeLen(v) + rest) == Some((v, rest))
  {
    var s := EncodeLen(v) + rest;
    if v < 128 {
      assert s[1..] == rest;
    } else {
      LenRoundTrip(v / 128, rest);
      assert s[1..] == EncodeLen(v / 128) + rest;
    }
  }

  lemma {:induction false} SizeRoundTrip(value: int, rest: seq<byte>)
    ensures DecodeSize(EncodeSize(value) + rest) == Some((value, rest))
  {
    hide EncodeLen, DecodeLen;
    var v := if value < 0 then -value else value;
    var s := EncodeSize(value) + rest;
    if v < 64 {
      assert s[1..] == rest;
    } else {
      LenRoundTrip(v / 64, rest);
      assert s[0] % 64 == v % 64 && s[0] / 64 % 2 == if value < 0 then 1 else 0;
      assert s[1..] == EncodeLen(v / 64) + rest;
    }
  }

  /** The low seven bits of the bytes as base-128 digits, least significant first. */
  function Digits(s: seq<byte>): nat {
    if s == [] then 0 else s[0] % 128 + 128 * Digits(s[1..])
  }

  /** The top bit is set in every byte but the last. */
  ghost predicate Continued(s: seq<byte>) {
    s != [] && forall i :: 0 <= i < |s| ==> (s[i] >= 128 <==> i < |s| - 1)
  }

  /** A length is written in base 128, with no more digits than it has. */
  lemma {:induction false} LenIsBase128(v: nat)
    ensures var s := EncodeLen(v);
            Continued(s) && Digits(s) == v && (|s| > 1 ==> s[|s| - 1] > 0)
  {
    if v >= 128 {
      LenIsBase128(v / 128);
      assert EncodeLen(v)[1..] == EncodeLen(v / 128);
    } else {
      assert EncodeLen(v)[1..] == [];
    }
  }

  /** A signed size has its sign in bit 6 and six bits of its amount in the first byte, the other bits in base
      128 behind it, and no byte too many. */
  lemma SizeIsBase128(value: int)
    ensures var s := EncodeSize(value);
            && Continued(s) && (|s| > 1 ==> s[|s| - 1] > 0)
            && (s[0] / 64 % 2 == 1 <==> value < 0)
            && s[0] % 64 + 64 * Digits(s[1..]) == if value < 0 then -value else value
  {
    hide EncodeLen;
    var s, v := EncodeSize(value), if value < 0 then -value else value;
    if v < 64 {
      assert s[1..] == [];
    } else {
      LenIsBase128(v / 64);
      assert s[1..] == EncodeLen(v / 64);
    }
  }

  /** Two bytes of length below 16384, and never more than one further byte per 16384. */
  lemma {:induction false} LenIsShort(v: nat)
    ensures |EncodeLen(v)| <= 2 + v / 16384
    ensures v < 128 ==> |EncodeLen(v)| == 1
  {
    if v >= 128 {
      LenIsShort(v / 128);
    }
  }

  /** src/encode.rs:330-346 */
  method PackSize(value: int) returns (out: seq<byte>)
    ensures out == EncodeSize(value)
  {
    var sign, v := 0, value;
    if value < 0 {
      sign, v := 0x40, -value;
    }
    out := [];
    var b: byte := sign + v % 0x40;
    v := v / 0x40;
    while v > 0
      invariant v >= 0 && b < 128
      invariant out + (if v == 0 then [b] else [b + 128] + EncodeLen(v)) == EncodeSize(value)
    {
      assert out + ([b + 128] + EncodeLen(v)) == out + [b + 128] + EncodeLen(v);
      out := out + [b + 0x80];
      b := v % 0x80;
      v := v / 0x80;
    }
    out := out + [b];
  }

  lemma EncodeLenStep(v: nat)
    ensures EncodeLen(v) == if v < 0x80 then [v] else [0x80 + v % 0x80] + EncodeLen(v / 0x80)
  {
  }

  /** src/encode.rs:349-359 */
  method CrlePackSize(value: nat) returns (out: seq<byte>)
    ensures out == EncodeLen(value)
  {
    hide EncodeLen;
    var v := value;
    out := [0x80 + v % 0x80];
    v := v / 0x80;
    ghost var digit: nat := value;
    while v > 0
      invariant |out| >= 1 && v == digit / 0x80 && out[|out| - 1] == 0x80 + digit % 0x80
      invariant out[..|out| - 1] + EncodeLen(digit) == EncodeLen(value)
    {
      EncodeLenStep(digit);
      ghost var was := out;
      out := out + [0x80 + v % 0x80];
      assert out[..|out| - 1] + EncodeLen(v) == was[..|was| - 1] + ([0x80 + digit % 0x80] + EncodeLen(v));
      digit := v;
      v := v / 0x80;
    }
    EncodeLenStep(digit);
    var last := |out| - 1;
    out := out[last := out[last] % 0x80];
    assert out == out[..last] + [digit];
  }
}
