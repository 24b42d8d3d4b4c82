/** UTF-8 (RFC 3629), as far as the parsers look at it. */
module Utf8 {
  import opened Common

  /** The Unicode scalar values: all code points but the surrogates. */
  type Scalar = c: int | 0 <= c < 0xD800 || 0xE000 <= c < 0x11_0000

  function EncodeScalar(c: Scalar): (s: Bytes)
    ensures 1 <= |s| <= 4
  {
    if c < 0x80 then [c]
    else if c < 0x800 then [0xC0 + c / 64, 0x80 + c % 64]
    else if c < 0x1_0000 then [0xE0 + c / 4096, 0x80 + c / 64 % 64, 0x80 + c % 64]
    else [0xF0 + c / 262144, 0x80 + c / 4096 % 64, 0x80 + c / 64 % 64, 0x80 + c % 64]
  }

  predicate Continues(b: byte)
  {
    0x80 <= b < 0xC0
  }

  /** The number of bytes that a leading byte announces; none for a byte that leads nothing. */
  function LeadLength(b: byte): (n: nat)
    ensures n <= 4
  {
    if b < 0x80 then 1 else if b < 0xC0 then 0 else if b < 0xE0 then 2 else if b < 0xF0 then 3
    else if b < 0xF8 then 4 else 0
  }

  /** The six bits of a continuation byte. */
  function Low(b: byte): int
  {
    b as int - 0x80
  }

  /** The bits of a leading byte and of the continuation bytes behind it. */
  function Assemble(s: Bytes, n: nat): int
    requires 1 <= n <= 4 && n <= |s|
  {
    if n == 1 then s[0]
    else if n == 2 then (s[0] as int - 0xC0) * 64 + Low(s[1])
    else if n == 3 then (s[0] as int - 0xE0) * 4096 + Low(s[1]) * 64 + Low(s[2])
    else (s[0] as int - 0xF0) * 262144 + Low(s[1]) * 4096 + Low(s[2]) * 64 + Low(s[3])
  }

  /** The least number that needs so many bytes. */
  function Least(n: nat): int
  {
    if n <= 1 then 0 else if n == 2 then 0x80 else if n == 3 then 0x800 else 0x1_0000
  }

  /** The first scalar value of a text and the bytes it takes; overlong forms and surrogates are refused. */
  function DecodeScalar(s: Bytes): (r: Option<(Scalar, nat)>)
    ensures r.Some? ==> 1 <= r.value.1 <= 4 && r.value.1 <= |s|
  {
    if s == [] then None else
    var n := LeadLength(s[0]);
    if n == 0 || n > |s| || exists i :: 1 <= i < n && !Continues(s[i]) then None else
    var c := Assemble(s, n);
    if Least(n) <= c && (c < 0xD800 || 0xE000 <= c < 0x11_0000) then Some((c, n)) else None
  }

  /** `str::from_utf8` succeeds. */
  predicate ValidUtf8(s: Bytes)
    decreases |s|
  {
    s == [] || (DecodeScalar(s).Some? && ValidUtf8(s[DecodeScalar(s).value.1..]))
  }

  function EncodeAll(cs: seq<Scalar>): Bytes
  {
    if cs == [] then [] else EncodeScalar(cs[0]) + EncodeAll(cs[1..])
  }

  /** `n` bytes that have the form of a scalar value, the first of them announcing their number. */
  predicate Formed(s: Bytes, n: nat)
  {
    1 <= n <= |s| && LeadLength(s[0]) == n && forall i :: 1 <= i < n ==> Continues(s[i])
  }

  /** The digits of a number to the base 64. */
  lemma {:induction false} Digits(c: nat)
    ensures c == c / 64 * 64 + c % 64
    ensures c == c / 4096 * 4096 + c / 64 % 64 * 64 + c % 64
    ensures c == c / 262144 * 262144 + c / 4096 % 64 * 4096 + c / 64 % 64 * 64 + c % 64
  {
    assert c / 4096 == c / 64 / 64 && c / 262144 == c / 4096 / 64;
  }

  lemma {:induction false} EncodedForm(c: Scalar)
    ensures var e := EncodeScalar(c); Formed(e, |e|) && Assemble(e, |e|) == c && Least(|e|) <= c
  {
    hide Assemble;
    var e := EncodeScalar(c);
    Assembled(e);
    Digits(c);
    EncodedShape(c);
  }

  lemma {:induction false} EncodedShape(c: Scalar)
    ensures var e := EncodeScalar(c); Formed(e, |e|) && Least(|e|) <= c
  {
  }

  lemma {:induction false} Assembled(s: Bytes)
    ensures |s| == 1 ==> Assemble(s, 1) == s[0]
    ensures |s| == 2 ==> Assemble(s, 2) == (s[0] as int - 0xC0) * 64 + Low(s[1])
    ensures |s| == 3 ==> Assemble(s, 3) == (s[0] as int - 0xE0) * 4096 + Low(s[1]) * 64 + Low(s[2])
    ensures |s| == 4 ==>
              Assemble(s, 4) == (s[0] as int - 0xF0) * 262144 + Low(s[1]) * 4096 + Low(s[2]) * 64 + Low(s[3])
  {
  }

  lemma {:induction false} SameForm(s: Bytes, t: Bytes, n: nat)
    requires n <= |s| && n <= |t| && n <= 4 && s[..n] == t[..n]
    ensures Formed(s, n) <==> Formed(t, n)
    ensures n >= 1 ==> Assemble(s, n) == Assemble(t, n)
  {
    assert forall i :: 0 <= i < n ==> s[..n][i] == s[i] && t[..n][i] == t[i];
  }

  lemma {:induction false} DecodeFormed(s: Bytes, n: nat)
    requires 1 <= n <= 4 && n <= |s| && Formed(s, n)
    ensures var c := Assemble(s, n);
            DecodeScalar(s) == if Least(n) <= c && (c < 0xD800 || 0xE000 <= c < 0x11_0000) then Some((c, n)) else None
  {
    hide Assemble, LeadLength;
  }

  lemma {:induction false} DecodedForm(s: Bytes)
    requires DecodeScalar(s).Some?
    ensures var (c, n) := DecodeScalar(s).value; Formed(s, n) && Assemble(s, n) == c && Least(n) <= c
  {
    hide Assemble, LeadLength;
  }

  /** Decoding what has been encoded, whatever comes after it. */
  lemma {:induction false} DecodeEncoded(c: Scalar, rest: Bytes)
    ensures DecodeScalar(EncodeScalar(c) + rest) == Some((c, |EncodeScalar(c)|))
  {
    hide DecodeScalar, EncodeScalar, Assemble, Formed, Least;
    var e := EncodeScalar(c);
    EncodedForm(c);
    assert (e + rest)[..|e|] == e == e[..|e|];
    SameForm(e, e + rest, |e|);
    DecodeFormed(e + rest, |e|);
  }

  /** There is only one way to encode what has been decoded. */
  lemma {:induction false} EncodeDecoded(s: Bytes)
    requires DecodeScalar(s).Some?
    ensures s[..DecodeScalar(s).value.1] == EncodeScalar(DecodeScalar(s).value.0)
  {
    hide DecodeScalar, EncodeScalar, Assemble, Formed, Least;
    DecodedForm(s);
    var (c, n) := DecodeScalar(s).value;
    var e := s[..n];
    SameForm(s, e, n);
    EncodeAssembled(e, c);
  }

  lemma {:induction false} EncodeAssembled(e: Bytes, c: Scalar)
    requires 1 <= |e| <= 4 && Formed(e, |e|) && Assemble(e, |e|) == c && Least(|e|) <= c
    ensures e == EncodeScalar(c)
  {
    hide Assemble, EncodeScalar;
    Assembled(e);
    if |e| == 1 {
      Encode1(e, c);
    } else if |e| == 2 {
      assert Continues(e[1]);
      Encode2(e, c);
    } else if |e| == 3 {
      assert Continues(e[1]) && Continues(e[2]);
      Encode3(e, c);
    } else {
      assert Continues(e[1]) && Continues(e[2]) && Continues(e[3]);
      Encode4(e, c);
    }
  }

  lemma {:induction false} Encode1(e: Bytes, c: Scalar)
    requires |e| == 1 && e[0] < 0x80 && c == e[0]
    ensures e == EncodeScalar(c)
  {
  }

  lemma {:induction false} Encode2(e: Bytes, c: Scalar)
    requires |e| == 2 && 0xC0 <= e[0] < 0xE0 && Continues(e[1]) && c >= 0x80
    requires c == (e[0] as int - 0xC0) * 64 + Low(e[1])
    ensures e == EncodeScalar(c)
  {
  }

  lemma {:induction false} Encode3(e: Bytes, c: Scalar)
    requires |e| == 3 && 0xE0 <= e[0] < 0xF0 && Continues(e[1]) && Continues(e[2]) && c >= 0x800
    requires c == (e[0] as int - 0xE0) * 4096 + Low(e[1]) * 64 + Low(e[2])
    ensures e == EncodeScalar(c)
  {
    assert c / 64 == (e[0] as int - 0xE0) * 64 + Low(e[1]);
  }

  lemma {:induction false} Encode4(e: Bytes, c: Scalar)
    requires |e| == 4 && 0xF0 <= e[0] < 0xF8 && Continues(e[1]) && Continues(e[2]) && Continues(e[3]) && c >= 0x1_0000
    requires c == (e[0] as int - 0xF0) * 262144 + Low(e[1]) * 4096 + Low(e[2]) * 64 + Low(e[3])
    ensures e == EncodeScalar(c)
  {
    assert c / 64 == (e[0] as int - 0xF0) * 4096 + Low(e[1]) * 64 + Low(e[2]);
    assert c / 4096 == (e[0] as int - 0xF0) * 64 + Low(e[1]);
  }

  /** The valid texts are exactly the encodings of scalar values. */
  lemma {:induction false} ValidMeansEncoded(s: Bytes)
    ensures ValidUtf8(s) <==> exists cs :: EncodeAll(cs) == s
  {
    hide EncodeAll, ValidUtf8;
    if ValidUtf8(s) { var cs := ScalarsOf(s); }
    if cs: seq<Scalar> :| EncodeAll(cs) == s { EncodedIsValid(cs); }
  }

  lemma {:induction false} ScalarsOf(s: Bytes) returns (cs: seq<Scalar>)
    requires ValidUtf8(s)
    ensures EncodeAll(cs) == s
    decreases |s|
  {
    hide DecodeScalar, EncodeScalar;
    cs := [];
    if s != [] {
      var (c, n) := DecodeScalar(s).value;
      EncodeDecoded(s);
      var more := ScalarsOf(s[n..]);
      cs := [c] + more;
      assert cs[1..] == more && s == s[..n] + s[n..];
    }
  }

  lemma {:induction false} EncodedIsValid(cs: seq<Scalar>)
    ensures ValidUtf8(EncodeAll(cs))
  {
    hide DecodeScalar, EncodeScalar;
    if cs != [] {
      var e, rest := EncodeScalar(cs[0]), EncodeAll(cs[1..]);
      DecodeEncoded(cs[0], rest);
      EncodedIsValid(cs[1..]);
      assert (e + rest)[|e|..] == rest;
    }
  }

  predicate AllAscii(s: Bytes)
  {
    forall i :: 0 <= i < |s| ==> s[i] < 0x80
  }

  lemma {:induction false} AsciiIsValid(s: Bytes)
    requires AllAscii(s)
    ensures ValidUtf8(s)
  {
    if s != [] {
      assert DecodeScalar(s) == Some((s[0], 1));
      AsciiIsValid(s[1..]);
    }
  }

  /** What comes after a scalar value does not matter for it. */
  lemma {:induction false} DecodeFront(s: Bytes, rest: Bytes)
    requires DecodeScalar(s).Some?
    ensures DecodeScalar(s + rest) == DecodeScalar(s)
  {
    hide EncodeScalar, DecodeScalar;
    var (c, n) := DecodeScalar(s).value;
    EncodeDecoded(s);
    DecodeEncoded(c, s[n..] + rest);
    assert s + rest == s[..n] + (s[n..] + rest);
  }

  lemma {:induction false} ConcatValid(s: Bytes, t: Bytes)
    requires ValidUtf8(s)
    ensures ValidUtf8(s + t) <==> ValidUtf8(t)
    decreases |s|
  {
    hide DecodeScalar;
    if s == [] {
      assert s + t == t;
    } else {
      var n := DecodeScalar(s).value.1;
      DecodeFront(s, t);
      ConcatValid(s[n..], t);
      assert (s + t)[n..] == s[n..] + t;
    }
  }

  // ---- White space -------------------------------------------------------------------------

  /** The Unicode property White_Space, by which `split_whitespace` separates words. */
  predicate WhiteSpace(c: Scalar)
  {
    || 0x09 <= c <= 0x0D || c == 0x20 || c == 0x85 || c == 0xA0 || c == 0x1680 || 0x2000 <= c <= 0x200A
    || c == 0x2028 || c == 0x2029 || c == 0x202F || c == 0x205F || c == 0x3000
  }

  predicate StartsWithSpace(s: Bytes)
  {
    DecodeScalar(s).Some? && WhiteSpace(DecodeScalar(s).value.0)
  }

  function SkipWhiteSpace(s: Bytes): Bytes
    decreases |s|
  {
    if StartsWithSpace(s) then SkipWhiteSpace(s[DecodeScalar(s).value.1..]) else s
  }

  function UntilWhiteSpace(s: Bytes): Bytes
    decreases |s|
  {
    if s == [] || StartsWithSpace(s) then []
    else
      var n := if DecodeScalar(s).Some? then DecodeScalar(s).value.1 else 1;
      s[..n] + UntilWhiteSpace(s[n..])
  }

  /** The first word of `split_whitespace`; empty if there is none. */
  function FirstWord(s: Bytes): Bytes
  {
    UntilWhiteSpace(SkipWhiteSpace(s))
  }
}
