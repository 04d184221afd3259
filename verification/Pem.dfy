/** Wrapping an encoded public key as PEM: the end of `public_key_obj_to_pem` (ta/utils/utils.c). */
module Pem {
  import opened Basics

  const LINE: nat := 64
  const DER_BUFFER: nat := 1024
  const BASE64_BUFFER: nat := 1600
  const HEADER: string := "-----BEGIN PUBLIC KEY-----\n"
  const FOOTER: string := "-----END PUBLIC KEY-----\n"

  lemma FrameLengths()
    ensures |HEADER| == 27 && |FOOTER| == 25
  {
  }

  /** What is assumed of base64: its length, and that it has no line breaks of its own. */
  ghost predicate IsBase64(encode: bytes -> string) {
    forall d: bytes :: |encode(d)| == Base64Length(|d|) && '\n' !in encode(d)
  }

  function Base64Length(n: nat): nat {
    (n + 2) / 3 * 4
  }

  /** The text in lines of 64 characters, the last one possibly shorter. */
  function Wrap(text: string): string {
    if text == [] then []
    else if |text| <= LINE then text + "\n"
    else text[..LINE] + "\n" + Wrap(text[LINE..])
  }

  type DerBytes = d: bytes | |d| <= DER_BUFFER witness []

  /** The results of the calls that read the key and encode it; `der` is empty when the encoder fails. */
  datatype ExportCalls = ExportCalls(modulus: TeeResult, exponent: TeeResult, build: bool, der: DerBytes)

  /** How `public_key_obj_to_pem` ends, given the capacity of the buffer. */
  function ExportResult(o: ExportCalls, capacity: nat): TeeResult {
    if o.modulus != Success then o.modulus
    else if o.exponent != Success then o.exponent
    else if !o.build || o.der == [] then Generic
    else if capacity < Estimated(|o.der|) then ShortBuffer
    else Success
  }

  /** `estimated_len`. */
  function Estimated(derLen: nat): nat {
    Base64Length(derLen) + 27 + 25 + 32
  }

  // ---------------------------------------------------------------- the shape of the lines

  function LineCount(n: nat): nat {
    (n + 63) / 64
  }

  lemma {:induction false} WrapLength(text: string)
    ensures |Wrap(text)| == |text| + LineCount(|text|)
  {
    if |text| > LINE {
      WrapLength(text[LINE..]);
    }
  }

  /** Line breaks stand after every 64 characters and at the end, and nowhere else. */
  lemma {:induction false} WrapLines(text: string, k: nat)
    requires '\n' !in text && k < |Wrap(text)|
    ensures Wrap(text)[k] == '\n' <==> k % 65 == 64 || k == |Wrap(text)| - 1
  {
    if |text| > LINE && k > LINE {
      WrapLines(text[LINE..], k - 65);
      assert Wrap(text)[k] == Wrap(text[LINE..])[k - 65];
    } else if |text| > LINE {
      WrapLength(text[LINE..]);
      assert k < LINE ==> Wrap(text)[k] == text[k];
    } else {
      assert k < |text| ==> Wrap(text)[k] == text[k];
    }
  }

  function WithoutBreaks(s: string): string {
    if s == [] then []
    else if s[0] == '\n' then WithoutBreaks(s[1..])
    else [s[0]] + WithoutBreaks(s[1..])
  }

  lemma {:induction false} WithoutBreaksAppend(a: string, b: string)
    ensures WithoutBreaks(a + b) == WithoutBreaks(a) + WithoutBreaks(b)
  {
    if a == [] {
      assert a + b == b;
    } else {
      assert (a + b)[1..] == a[1..] + b;
      WithoutBreaksAppend(a[1..], b);
    }
  }

  lemma {:induction false} WithoutBreaksSame(s: string)
    requires '\n' !in s
    ensures WithoutBreaks(s) == s
  {
    if s != [] {
      WithoutBreaksSame(s[1..]);
    }
  }

  /** Deleting the line breaks gives the base64 text back. */
  lemma {:induction false} UnwrapWrap(text: string)
    requires '\n' !in text
    ensures WithoutBreaks(Wrap(text)) == text
  {
    if text != [] {
      var n := if |text| <= LINE then |text| else LINE;
      var line, rest := text[..n], text[n..];
      assert text == line + rest;
      WithoutBreaksSame(line);
      WithoutBreaksAppend(line, "\n");
      assert WithoutBreaks("\n") == "" by { assert "\n"[1..] == ""; }
      UnwrapWrap(rest);
      WithoutBreaksAppend(line + "\n", Wrap(rest));
      assert Wrap(text) == (line + "\n") + Wrap(rest);
    }
  }

  /** Whole lines can be wrapped on their own. */
  lemma {:induction false} WrapAppend(a: string, b: string)
    requires |a| % LINE == 0
    ensures Wrap(a + b) == Wrap(a) + Wrap(b)
  {
    if a == [] {
      assert a + b == b;
    } else if |a| == LINE {
      if b == [] {
        assert a + b == a;
      } else {
        assert (a + b)[..LINE] == a && (a + b)[LINE..] == b;
      }
    } else {
      WrapAppend(a[LINE..], b);
      assert (a + b)[..LINE] == a[..LINE] && (a + b)[LINE..] == a[LINE..] + b;
    }
  }

  /**
   * The estimate leaves room for header, lines, footer and the final NUL exactly for encodings of up to
   * 1488 bytes, so for everything that the 1024-byte buffer can hold.
   */
  lemma EstimateSufficesIff(text: string, derLen: nat)
    requires |text| == Base64Length(derLen)
    ensures |HEADER| + |Wrap(text)| + |FOOTER| + 1 <= Estimated(derLen) <==> derLen <= 1488
  {
    WrapLength(text);
    FrameLengths();
    var q := (derLen + 2) / 3;
    assert q <= 496 <==> derLen <= 1488;
    assert LineCount(4 * q) <= 31 <==> q <= 496;
  }

  // ---------------------------------------------------------------- writing

  /** Appends `s` to the first `at` characters and leaves what follows alone. */
  method Append(out: array<char>, at: nat, s: string)
    requires at + |s| <= out.Length
    modifies out
    ensures out[..at + |s|] == old(out[..at]) + s
    ensures forall k :: at + |s| <= k < out.Length ==> out[k] == old(out[k])
  {
    for i := 0 to |s|
      invariant out[..at + i] == old(out[..at]) + s[..i]
      invariant forall k :: at + |s| <= k < out.Length ==> out[k] == old(out[k])
    {
      out[at + i] := s[i];
      assert out[..at + i + 1] == out[..at + i] + [s[i]];
    }
  }

  /** The loop that writes the body line by line. */
  method WriteLines(out: array<char>, start: nat, text: string) returns (end: nat)
    requires start + |Wrap(text)| <= out.Length
    modifies out
    ensures end == start + |Wrap(text)|
    ensures out[..end] == old(out[..start]) + Wrap(text)
    ensures forall k :: end <= k < out.Length ==> out[k] == old(out[k])
  {
    end := start;
    var i := 0;
    assert text[..0] == "";
    while i < |text|
      invariant 0 <= i && i % LINE == 0
      invariant end == start + |Wrap(text[..Cut(text, i)])| <= start + |Wrap(text)|
      invariant out[..end] == old(out[..start]) + Wrap(text[..Cut(text, i)])
      invariant forall k :: start + |Wrap(text)| <= k < out.Length ==> out[k] == old(out[k])
      decreases |text| - i
    {
      var lineLen := if i + 64 < |text| then 64 else |text| - i;
      WrapStep(text, i, lineLen);
      Regroup(old(out[..start]), Wrap(text[..Cut(text, i)]), text[i..i + lineLen]);
      end := WriteLine(out, end, text[i..i + lineLen]);
      i := i + 64;
    }
    assert text[..Cut(text, i)] == text;
  }

  lemma Regroup(a: string, b: string, line: string)
    ensures (a + b) + line + "\n" == a + (b + line + "\n")
  {
  }

  method WriteLine(out: array<char>, at: nat, line: string) returns (end: nat)
    requires at + |line| + 1 <= out.Length
    modifies out
    ensures end == at + |line| + 1
    ensures out[..end] == old(out[..at]) + line + "\n"
    ensures forall k :: end <= k < out.Length ==> out[k] == old(out[k])
  {
    Append(out, at, line);
    end := at + |line|;
    out[end] := '\n';
    end := end + 1;
    assert out[..end] == out[..at + |line|] + "\n";
  }

  function Cut(text: string, i: nat): nat {
    if i < |text| then i else |text|
  }

  lemma WrapStep(text: string, i: nat, n: nat)
    requires i < |text| && i % LINE == 0 && n == (if i + LINE < |text| then LINE else |text| - i)
    ensures Wrap(text[..Cut(text, i + LINE)]) == Wrap(text[..Cut(text, i)]) + text[i..i + n] + "\n"
    ensures |Wrap(text[..Cut(text, i)])| + n + 1 <= |Wrap(text)|
  {
    assert text[..i + n] == text[..i] + text[i..i + n];
    WrapAppend(text[..i], text[i..i + n]);
    WrapLength(text[..i + n]);
    WrapLength(text);
  }

  /**
   * Writes the PEM form of the DER-encoded key, or reports how much room it wants. On success the
   * length returned counts the characters before the final NUL.
   */
  method WritePem(encode: bytes -> string, der: DerBytes, pem: array<char>, capacity: nat) returns (res: TeeResult,
      len: nat)
    requires IsBase64(encode) || capacity < Estimated(|der|)
    requires capacity <= pem.Length
    modifies pem
    ensures res == if der == [] then Generic else if capacity < (|der| + 2) / 3 * 4 + 84 then ShortBuffer else Success
    ensures res == ShortBuffer ==> len == (|der| + 2) / 3 * 4 + 84
    ensures res != Success ==> pem[..] == old(pem[..])
    ensures res == Success ==>
              && len < capacity
              && pem[..len] == "-----BEGIN PUBLIC KEY-----\n" + Wrap(encode(der)) + "-----END PUBLIC KEY-----\n"
              && pem[len] == '\0'
              && (forall k :: len < k < pem.Length ==> pem[k] == old(pem[k]))
  {
    if der == [] {
      return Generic, capacity;
    }
    if capacity < Estimated(|der|) {
      return ShortBuffer, Estimated(|der|);
    }
    var text := encode(der);
    EstimateSufficesIff(text, |der|);
    assert |text| + 1 <= BASE64_BUFFER;
    Append(pem, 0, HEADER);
    assert pem[..|HEADER|] == HEADER;
    var end := WriteLines(pem, |HEADER|, text);
    Append(pem, end, FOOTER);
    end := end + |FOOTER|;
    assert pem[..end] == HEADER + Wrap(text) + FOOTER;
    pem[end] := '\0';
    return Success, end;
  }

  /** `public_key_obj_to_pem`. */
  method PublicKeyObjToPem(encode: bytes -> string, o: ExportCalls, pem: array<char>, capacity: nat)
    returns (res: TeeResult, len: nat)
    requires IsBase64(encode) || capacity < Estimated(|o.der|)
    requires capacity <= pem.Length
    modifies pem
    ensures res == ExportResult(o, capacity)
    ensures res == Success <==>
      && o.modulus == Success && o.exponent == Success && o.build && o.der != []
      && capacity >= (|o.der| + 2) / 3 * 4 + 84
    ensures res != Success ==> pem[..] == old(pem[..])
    ensures res == Success ==>
              && len < capacity
              && pem[..len] == "-----BEGIN PUBLIC KEY-----\n" + Wrap(encode(o.der)) + "-----END PUBLIC KEY-----\n"
              && pem[len] == '\0'
              && (forall k :: len < k < pem.Length ==> pem[k] == old(pem[k]))
  {
    if o.modulus != Success {
      return o.modulus, capacity;
    }
    if o.exponent != Success {
      return o.exponent, capacity;
    }
    if !o.build {
      return Generic, capacity;
    }
    res, len := WritePem(encode, o.der, pem, capacity);
  }
}
