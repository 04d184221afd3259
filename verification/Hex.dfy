/** The hexadecimal codec of ta/utils/utils.c. */
module Hex {
  import opened Basics

  function HexDigit(d: int): char
    requires 0 <= d < 16
  {
    if d < 10 then ('0' as int + d) as char else ('a' as int + (d - 10)) as char
  }

  /** The value of a hexadecimal digit in either case, or -1. */
  function HexCharToInt(c: char): (v: int)
    ensures -1 <= v < 16
  {
    if '0' <= c <= '9' then c as int - '0' as int
    else if 'a' <= c <= 'f' then c as int - 'a' as int + 10
    else if 'A' <= c <= 'F' then c as int - 'A' as int + 10
    else -1
  }

  predicate IsHex(s: string) {
    forall i :: 0 <= i < |s| ==> HexCharToInt(s[i]) >= 0
  }

  function Lower(c: char): char {
    if 'A' <= c <= 'F' then (c as int - 'A' as int + 'a' as int) as char else c
  }

  function ToHex(bs: bytes): (s: string)
    ensures |s| == 2 * |bs|
  {
    seq(2 * |bs|, k requires 0 <= k < 2 * |bs| =>
      if k % 2 == 0 then HexDigit(bs[k / 2] / 16) else HexDigit(bs[k / 2] % 16))
  }

  /** What a pair of digits spells; meaningless if they are no digits. */
  function PairValue(s: string, i: nat): int
    requires 2 * i + 1 < |s|
  {
    16 * HexCharToInt(s[2 * i]) + HexCharToInt(s[2 * i + 1])
  }

  function ByteAt(s: string, i: nat): byte
    requires 2 * i + 1 < |s| && IsHex(s)
  {
    PairValue(s, i)
  }

  function FromHex(s: string): (r: Option<bytes>)
    ensures r.Some? ==> |r.value| == |s| / 2
  {
    if |s| % 2 == 0 && IsHex(s)
    then Some(seq(|s| / 2, i requires 0 <= i < |s| / 2 => ByteAt(s, i)))
    else None
  }

  lemma HexDigitValue(d: int)
    requires 0 <= d < 16
    ensures HexCharToInt(HexDigit(d)) == d
    ensures HexDigit(d) == Lower(HexDigit(d))
  {
  }

  lemma DigitOfValue(c: char)
    requires HexCharToInt(c) >= 0
    ensures HexDigit(HexCharToInt(c)) == Lower(c)
  {
  }

  /** Each of the 16 values belongs to one digit, in either case, and every other character to none. */
  lemma HexCharToIntIff(c: char, v: int)
    requires 0 <= v < 16
    ensures HexCharToInt(c) == v <==> Lower(c) == HexDigit(v)
    ensures HexCharToInt(c) == -1 <==> forall w :: 0 <= w < 16 ==> Lower(c) != HexDigit(w)
  {
    if HexCharToInt(c) >= 0 {
      DigitOfValue(c);
    }
    forall w | 0 <= w < 16 && Lower(c) == HexDigit(w) ensures HexCharToInt(c) == w {
      HexDigitValue(w);
    }
  }

  /** The pairs of digits at the start of the text. */
  function DigitPairs(s: string): (n: nat)
    ensures n <= |s| / 2
  {
    if |s| < 2 || HexCharToInt(s[0]) < 0 || HexCharToInt(s[1]) < 0 then 0 else 1 + DigitPairs(s[2..])
  }

  /** How many bytes the decoder stores before it stops, whether it then succeeds or not. */
  function Stored(s: string): (n: nat)
    ensures n <= |s| / 2
  {
    if |s| % 2 != 0 then 0 else DigitPairs(s)
  }

  /** The decoder stores the pairs of digits before the first pair that is none. */
  lemma {:induction false} StoredIs(s: string, n: nat)
    requires 2 * n <= |s| && forall k :: 0 <= k < 2 * n ==> HexCharToInt(s[k]) >= 0
    requires 2 * n + 1 < |s| ==> HexCharToInt(s[2 * n]) < 0 || HexCharToInt(s[2 * n + 1]) < 0
    ensures |s| % 2 == 0 ==> Stored(s) == n
    ensures |s| % 2 == 1 ==> Stored(s) == 0
  {
    if n > 0 && |s| % 2 == 0 {
      StoredIs(s[2..], n - 1);
    }
  }

  lemma ToHexIsHex(bs: bytes)
    ensures IsHex(ToHex(bs))
  {
  }

  /** Decoding undoes encoding on every byte string. */
  lemma DecodeEncode(bs: bytes)
    ensures FromHex(ToHex(bs)) == Some(bs)
  {
    var s := ToHex(bs);
    ToHexIsHex(bs);
    forall i | 0 <= i < |bs| ensures ByteAt(s, i) == bs[i] {
      assert s[2 * i] == HexDigit(bs[i] / 16) by { assert (2 * i) / 2 == i; }
      assert s[2 * i + 1] == HexDigit(bs[i] % 16) by { assert (2 * i + 1) / 2 == i; }
      HexDigitValue(bs[i] / 16);
      HexDigitValue(bs[i] % 16);
    }
    assert FromHex(s).value == bs;
  }

  /** Encoding undoes decoding up to the case of the letters. */
  lemma EncodeDecode(s: string)
    requires FromHex(s).Some?
    ensures |ToHex(FromHex(s).value)| == |s|
    ensures forall k :: 0 <= k < |s| ==> ToHex(FromHex(s).value)[k] == Lower(s[k])
  {
    var bs := FromHex(s).value;
    forall k | 0 <= k < |s| ensures ToHex(bs)[k] == Lower(s[k]) {
      var i := k / 2;
      assert bs[i] == ByteAt(s, i);
      DigitOfValue(s[k]);
      assert bs[i] / 16 == HexCharToInt(s[2 * i]) && bs[i] % 16 == HexCharToInt(s[2 * i + 1]);
      assert k == 2 * i || k == 2 * i + 1;
    }
  }

  lemma ToHexInjective(a: bytes, b: bytes)
    requires ToHex(a) == ToHex(b)
    ensures a == b
  {
    DecodeEncode(a);
    DecodeEncode(b);
  }

  /** Writes the encoding of `data[..len]` at the start of `hex`. */
  method BytesToHexString(data: array<byte>, len: nat, hex: array<char>)
    requires len <= data.Length && 2 * len <= hex.Length
    modifies hex
    ensures hex[..2 * len] == ToHex(data[..len])
    ensures hex[2 * len..] == old(hex[2 * len..])
  {
    for i := 0 to len
      invariant hex[..2 * i] == ToHex(data[..i])
      invariant hex[2 * len..] == old(hex[2 * len..])
    {
      hex[2 * i] := HexDigit(data[i] / 16);
      hex[2 * i + 1] := HexDigit(data[i] % 16);
      ToHexExtend(data[..i], data[i]);
      assert data[..i + 1] == data[..i] + [data[i]];
      assert hex[..2 * (i + 1)] == hex[..2 * i] + [hex[2 * i], hex[2 * i + 1]];
    }
  }

  lemma ToHexExtend(bs: bytes, b: byte)
    ensures ToHex(bs + [b]) == ToHex(bs) + [HexDigit(b / 16), HexDigit(b % 16)]
  {
  }

  lemma NextPair(s: string, i: nat)
    requires 2 * i + 1 < |s| && HexCharToInt(s[2 * i]) >= 0 && HexCharToInt(s[2 * i + 1]) >= 0
    ensures DigitPairs(s[2 * i..]) == 1 + DigitPairs(s[2 * (i + 1)..])
    ensures IsHex(s[..2 * i]) ==> IsHex(s[..2 * (i + 1)])
  {
    assert s[2 * i..][2..] == s[2 * (i + 1)..];
  }

  /** Decodes `s` into `out`, stopping at the first character that is not a hexadecimal digit. */
  method HexStringToBytes(s: string, out: array<byte>) returns (res: TeeResult, len: nat)
    requires Stored(s) <= out.Length
    modifies out
    ensures out[Stored(s)..] == old(out[Stored(s)..])
    ensures res == (if FromHex(s).Some? then Success else BadParameters)
    ensures res == Success ==> len == |s| / 2 == Stored(s) && out[..len] == FromHex(s).value
  {
    len := 0;
    if |s| % 2 != 0 {
      return BadParameters, 0;
    }
    var outputLen := |s| / 2;
    for i := 0 to outputLen
      invariant Stored(s) == i + DigitPairs(s[2 * i..])
      invariant IsHex(s[..2 * i])
      invariant forall j :: Stored(s) <= j < out.Length ==> out[j] == old(out[j])
      invariant forall j :: 0 <= j < i ==> out[j] == PairValue(s, j)
    {
      var high := HexCharToInt(s[2 * i]);
      var low := HexCharToInt(s[2 * i + 1]);
      if high < 0 || low < 0 {
        return BadParameters, 0;
      }
      NextPair(s, i);
      out[i] := 16 * high + low;
    }
    assert s[..2 * outputLen] == s;
    return Success, outputLen;
  }
}
