/** Printing and parsing object ids and numbers (`object.rs`; the decimal writer is repeated in `commit.rs`). */
module ObjectText {
  import opened Common
  import opened Objects

  const MINUS: byte := 45
  const PLUS: byte := 43
  const ZERO: byte := 48

  // ---- Hexadecimal object ids --------------------------------------------------------------

  /** `HEX[n]`, lower case. */
  function HexDigit(n: nat): (b: byte)
    requires n < 16
    ensures b != LF && b != SPACE
  {
    if n < 10 then 48 + n else 87 + n
  }

  /** `hex_nibble`: either case. */
  function HexNibble(b: byte): (n: Option<nat>)
    ensures n.Some? ==> n.value < 16
  {
    if 48 <= b <= 57 then Some(b - 48)
    else if 97 <= b <= 102 then Some(b - 87)
    else if 65 <= b <= 70 then Some(b - 55)
    else None
  }

  function Hex(digest: Bytes): (s: Bytes)
    ensures |s| == 2 * |digest|
    ensures LF !in s && SPACE !in s
  {
    if digest == [] then [] else [HexDigit(digest[0] / 16), HexDigit(digest[0] % 16)] + Hex(digest[1..])
  }

  lemma {:induction false} HexBytes(digest: Bytes)
    ensures forall i :: 0 <= i < |Hex(digest)| ==> 48 <= Hex(digest)[i] <= 102
  {
    if digest != [] { HexBytes(digest[1..]); }
  }

  function Unhex(s: Bytes): (digest: Option<Bytes>)
    ensures digest.Some? ==> 2 * |digest.value| == |s|
  {
    if s == [] then Some([])
    else if |s| == 1 then None
    else
      var high, low, rest := HexNibble(s[0]), HexNibble(s[1]), Unhex(s[2..]);
      if high.None? || low.None? || rest.None? then None else Some([high.value * 16 + low.value] + rest.value)
  }

  /** `ObjectId::from_hex_bytes`. */
  function FromHex(algorithm: HashAlgorithm, s: Bytes): (r: Result<ObjectId>)
    ensures r.Ok? ==> r.value.algorithm == algorithm
    ensures r.Err? ==> r.error == InvalidInput
  {
    if |s| != algorithm.DigestLen() * 2 then Err(InvalidInput) else
    var digest := Unhex(s);
    if digest.None? then Err(InvalidInput) else Ok(ObjectId(algorithm, digest.value))
  }

  /** All of these texts are ids in hexadecimal. */
  predicate AllIds(algorithm: HashAlgorithm, values: seq<Bytes>)
  {
    forall i :: 0 <= i < |values| ==> FromHex(algorithm, values[i]).Ok?
  }

  /** One more pair of digits. */
  lemma {:induction false} UnhexStep(s: Bytes, bytes: Bytes, rest: Bytes)
    requires |rest| >= 2
    requires Unhex(s).Some? == Unhex(rest).Some?
    requires Unhex(s).Some? ==> Unhex(s).value == bytes + Unhex(rest).value
    ensures HexNibble(rest[0]).None? || HexNibble(rest[1]).None? ==> Unhex(s).None?
    ensures HexNibble(rest[0]).Some? && HexNibble(rest[1]).Some? ==>
              var bytes' := bytes + [HexNibble(rest[0]).value * 16 + HexNibble(rest[1]).value];
              && Unhex(s).Some? == Unhex(rest[2..]).Some?
              && (Unhex(s).Some? ==> Unhex(s).value == bytes' + Unhex(rest[2..]).value)
  {
    hide HexNibble;
    if Unhex(rest).Some? {
      ConcatAssoc(bytes, [HexNibble(rest[0]).value * 16 + HexNibble(rest[1]).value], Unhex(rest[2..]).value);
    }
  }

  lemma {:induction false} UnhexEmpty(s: Bytes)
    requires s == []
    ensures Unhex(s) == Some([])
  {
  }

  /** The byte loop of `from_hex_bytes`, one pair of digits at a time. */
  method FromHexBytes(algorithm: HashAlgorithm, s: Bytes) returns (r: Result<ObjectId>)
    ensures r == FromHex(algorithm, s)
  {
    hide HexNibble, Unhex;
    if |s| != algorithm.DigestLen() * 2 {
      return Err(InvalidInput);
    }
    var bytes: Bytes := [];
    var rest := s;
    assert Unhex(s).Some? ==> [] + Unhex(s).value == Unhex(s).value;
    for idx := 0 to algorithm.DigestLen()
      invariant |bytes| == idx && |rest| == |s| - 2 * idx
      invariant Unhex(s).Some? == Unhex(rest).Some?
      invariant Unhex(s).Some? ==> Unhex(s).value == bytes + Unhex(rest).value
    {
      var high := HexNibble(rest[0]);
      var low := HexNibble(rest[1]);
      UnhexStep(s, bytes, rest);
      if high.None? || low.None? {
        return Err(InvalidInput);
      }
      bytes := bytes + [high.value * 16 + low.value];
      rest := rest[2..];
    }
    UnhexEmpty(rest);
    assert bytes + [] == bytes;
    return Ok(ObjectId(algorithm, bytes));
  }

  lemma {:induction false} UnhexHex(digest: Bytes)
    ensures Unhex(Hex(digest)) == Some(digest)
  {
    if digest != [] {
      UnhexHex(digest[1..]);
      var s := Hex(digest);
      assert s[2..] == Hex(digest[1..]);
      assert digest == [digest[0]] + digest[1..];
    }
  }

  /** Parsing a printed id gives the id back. */
  lemma {:induction false} HexRoundTrip(id: ObjectId)
    ensures FromHex(id.algorithm, Hex(id.digest)) == Ok(id)
  {
    UnhexHex(id.digest);
  }

  function LowerCase(b: byte): byte
  {
    if 65 <= b <= 90 then b + 32 else b
  }

  /** The other way round, printing a parsed id normalizes its case and nothing else. */
  lemma {:induction false} HexNormalizes(s: Bytes)
    requires Unhex(s).Some?
    ensures |Hex(Unhex(s).value)| == |s|
    ensures forall i :: 0 <= i < |s| ==> Hex(Unhex(s).value)[i] == LowerCase(s[i])
  {
    if s != [] {
      HexNormalizes(s[2..]);
      NormalizesPair(s);
    }
  }

  lemma {:induction false} NormalizesPair(s: Bytes)
    requires s != [] && Unhex(s).Some?
    ensures |s| >= 2 && Unhex(s[2..]).Some?
    ensures Hex(Unhex(s).value) == [LowerCase(s[0]), LowerCase(s[1])] + Hex(Unhex(s[2..]).value)
  {
    hide HexNibble, HexDigit, LowerCase;
    var high, low := HexNibble(s[0]).value, HexNibble(s[1]).value;
    NormalizesDigit(s[0]);
    NormalizesDigit(s[1]);
    var digest := Unhex(s).value;
    assert digest[0] == high * 16 + low && digest[1..] == Unhex(s[2..]).value;
  }

  lemma {:induction false} NormalizesDigit(b: byte)
    requires HexNibble(b).Some?
    ensures HexDigit(HexNibble(b).value) == LowerCase(b)
  {
  }

  // ---- Decimal numbers ---------------------------------------------------------------------

  predicate IsDigit(b: byte)
  {
    48 <= b <= 57
  }

  predicate AllDigits(s: Bytes)
  {
    forall i :: 0 <= i < |s| ==> IsDigit(s[i])
  }

  /** The decimal digits of a number, without leading zeros. */
  function Decimal(n: nat): (s: Bytes)
    ensures s != [] && AllDigits(s)
  {
    if n < 10 then [48 + n] else Decimal(n / 10) + [48 + n % 10]
  }

  /** The number a digit string stands for. */
  function Value(s: Bytes): nat
    requires AllDigits(s)
  {
    if s == [] then 0 else Value(s[..|s| - 1]) * 10 + (s[|s| - 1] - 48)
  }

  lemma {:induction false} ValueDecimal(n: nat)
    ensures Value(Decimal(n)) == n
  {
    if n >= 10 {
      ValueDecimal(n / 10);
      var s := Decimal(n);
      assert s[..|s| - 1] == Decimal(n / 10);
    } else {
      assert Decimal(n)[..0] == [];
    }
  }

  function Pow10(k: nat): (p: nat)
    ensures p >= 1
  {
    if k == 0 then 1 else 10 * Pow10(k - 1)
  }

  lemma {:induction false} DecimalFits(n: nat, k: nat)
    requires n < Pow10(k) && k >= 1
    ensures |Decimal(n)| <= k
  {
    assert Pow10(1) == 10;
    if n >= 10 { DecimalFits(n / 10, k - 1); }
  }

  const U64_LIMIT: nat := 0x1_0000_0000_0000_0000
  const I64_MAX: int := 0x7fff_ffff_ffff_ffff
  const I64_MIN: int := -0x8000_0000_0000_0000

  type i64 = v: int | I64_MIN <= v <= I64_MAX

  lemma {:induction false} Pow10Of20()
    ensures Pow10(20) == 100_000_000_000_000_000_000
  {
    assert Pow10(5) == 100_000;
    assert Pow10(10) == 10_000_000_000;
    assert Pow10(15) == 1_000_000_000_000_000;
  }

  /** The digits still to be written in front of the ones in the buffer. */
  function Front(rest: nat): Bytes
  {
    if rest == 0 then [] else Decimal(rest)
  }

  lemma {:induction false} FrontStep(rest: nat, done: Bytes)
    requires rest > 0
    ensures Front(rest) + done == Front(rest / 10) + ([ZERO + rest % 10] + done)
  {
    if rest >= 10 { ConcatAssoc(Decimal(rest / 10), [ZERO + rest % 10], done); }
  }

  lemma {:induction false} DecimalOfZero()
    ensures Decimal(0) == [ZERO]
  {
  }

  /** `write_decimal_u64`: digits filled into a 20-byte buffer from its end; the buffer never runs out. */
  method WriteDecimalU64(out: Bytes, value: nat) returns (out': Bytes)
    requires value < U64_LIMIT
    ensures out' == out + Decimal(value)
  {
    hide Decimal;
    var buf := new byte[20];
    var cursor := buf.Length;
    if value == 0 {
      cursor := cursor - 1;
      buf[cursor] := ZERO;
      DecimalOfZero();
      assert buf[cursor..] == [ZERO];
    } else {
      Pow10Of20();
      DecimalFits(value, 20);
      var rest := value;
      assert Front(rest) + buf[cursor..] == Decimal(value);
      while rest > 0
        invariant 0 <= cursor <= buf.Length
        invariant Front(rest) + buf[cursor..] == Decimal(value)
      {
        ghost var done := buf[cursor..];
        FrontStep(rest, done);
        cursor := cursor - 1;
        buf[cursor] := ZERO + rest % 10;
        assert buf[cursor..] == [ZERO + rest % 10] + done;
        rest := rest / 10;
      }
      assert Front(0) + buf[cursor..] == buf[cursor..];
    }
    return out + buf[cursor..];
  }

  function DecimalI64(v: int): Bytes
  {
    if v < 0 then [MINUS] + Decimal(-v) else Decimal(v)
  }

  /** `write_decimal_i64`; `unsigned_abs` of the least value does not overflow. */
  method WriteDecimalI64(out: Bytes, value: i64) returns (out': Bytes)
    ensures out' == out + DecimalI64(value)
  {
    if value < 0 {
      out' := WriteDecimalU64(out + [MINUS], -(value as int));
      ConcatAssoc(out, [MINUS], Decimal(-(value as int)));
    } else {
      out' := WriteDecimalU64(out, value);
    }
  }

  /** `str::parse::<i64>`: an optional sign, then at least one digit, in range. */
  function ParseI64(s: Bytes): Option<i64>
  {
    if s == [] then None else
    var negative := s[0] == MINUS;
    var digits := if negative || s[0] == PLUS then s[1..] else s;
    if digits == [] || !AllDigits(digits) then None else
    var v: int := if negative then -(Value(digits) as int) else Value(digits);
    if I64_MIN <= v <= I64_MAX then Some(v) else None
  }

  lemma {:induction false} I64RoundTrip(v: i64)
    ensures ParseI64(DecimalI64(v)) == Some(v)
  {
    var magnitude: nat := if v < 0 then -(v as int) else v;
    ValueDecimal(magnitude);
    var digits := Decimal(magnitude);
    assert IsDigit(digits[0]);
    if v < 0 { assert DecimalI64(v)[1..] == digits; }
  }

  /** A sign or none, and at least one digit; leading zeros are allowed. */
  predicate Spells(sign: Bytes, digits: Bytes, v: int)
  {
    && (sign == [] || sign == [43] || sign == [45]) && digits != [] && AllDigits(digits)
    && v == if sign == [45] then -(Value(digits) as int) else Value(digits)
  }

  /** What is read as a number of 64 bits. */
  lemma {:induction false} ParsedNumber(s: Bytes, v: i64)
    ensures ParseI64(s) == Some(v) <==> exists sign, digits :: s == sign + digits && Spells(sign, digits, v)
    ensures AllDigits(s) <==> forall b :: b in s ==> 48 <= b <= 57
  {
    hide Value, ParseI64, Spells;
    assert forall i :: 0 <= i < |s| ==> s[i] in s;
    if ParseI64(s) == Some(v) {
      ParsedIsSpelt(s, v);
      var signed := s[0] == 43 || s[0] == 45;
      var sign, digits := if signed then s[..1] else [], if signed then s[1..] else s;
      assert s == sign + digits;
    }
    if sign: Bytes, digits: Bytes :| s == sign + digits && Spells(sign, digits, v) {
      SpeltIsParsed(sign, digits, v);
    }
  }

  lemma {:induction false} ParsedIsSpelt(s: Bytes, v: i64)
    requires ParseI64(s) == Some(v)
    ensures s != []
    ensures var signed := s[0] == 43 || s[0] == 45;
            Spells(if signed then s[..1] else [], if signed then s[1..] else s, v)
  {
    hide Value;
  }

  lemma {:induction false} SpeltIsParsed(sign: Bytes, digits: Bytes, v: i64)
    requires Spells(sign, digits, v)
    ensures ParseI64(sign + digits) == Some(v)
  {
    hide Value;
    var s := sign + digits;
    assert 48 <= digits[0] <= 57;
    if sign == [] {
      assert s == digits;
    } else {
      assert s[0] == sign[0] && s[1..] == digits;
    }
  }

  // ---- The digits --------------------------------------------------------------------------

  /** The value of a hexadecimal digit: `0` to `9`, `a` to `f` and `A` to `F`. */
  function HexValue(b: byte): int
  {
    if 48 <= b <= 57 then b as int - 48
    else if 97 <= b <= 102 then b as int - 97 + 10
    else if 65 <= b <= 70 then b as int - 65 + 10
    else -1
  }

  /** Two digits for each byte, the higher one first, and all letters small. */
  lemma {:induction false} HexMeans(digest: Bytes, i: nat)
    requires i < |digest|
    ensures var s := Hex(digest);
            && HexValue(s[2 * i]) * 16 + HexValue(s[2 * i + 1]) == digest[i]
            && !(65 <= s[2 * i] <= 90) && !(65 <= s[2 * i + 1] <= 90)
            && 0 <= HexValue(s[2 * i]) < 16 && 0 <= HexValue(s[2 * i + 1]) < 16
  {
    if i > 0 {
      HexMeans(digest[1..], i - 1);
      var s, rest := Hex(digest), Hex(digest[1..]);
      assert s[2 * i] == rest[2 * (i - 1)] && s[2 * i + 1] == rest[2 * (i - 1) + 1];
    }
  }

  /** A text is parsed if it has the right length and digits only, and then each byte is the value of its two digits. */
  lemma {:induction false} FromHexMeans(algorithm: HashAlgorithm, s: Bytes)
    ensures FromHex(algorithm, s).Ok? <==>
            |s| == 2 * (if algorithm == Sha1 then 20 else 32) && forall i :: 0 <= i < |s| ==> HexValue(s[i]) >= 0
    ensures FromHex(algorithm, s).Ok? ==>
              forall i :: 0 <= i < |FromHex(algorithm, s).value.digest| ==>
                FromHex(algorithm, s).value.digest[i] == HexValue(s[2 * i]) * 16 + HexValue(s[2 * i + 1])
  {
    if |s| % 2 == 0 { UnhexMeans(s); }
  }

  lemma {:induction false} UnhexMeans(s: Bytes)
    requires |s| % 2 == 0
    ensures Unhex(s).Some? <==> forall i :: 0 <= i < |s| ==> HexValue(s[i]) >= 0
    ensures Unhex(s).Some? ==> forall i :: 0 <= i < |Unhex(s).value| ==>
              Unhex(s).value[i] == HexValue(s[2 * i]) * 16 + HexValue(s[2 * i + 1])
  {
    if s != [] {
      var rest := s[2..];
      UnhexMeans(rest);
      assert forall i :: 0 <= i < |rest| ==> rest[i] == s[i + 2];
      assert forall i :: 2 <= i < |s| ==> s[i] == rest[i - 2];
      if Unhex(s).Some? {
        forall i | 0 <= i < |Unhex(s).value|
          ensures Unhex(s).value[i] == HexValue(s[2 * i]) * 16 + HexValue(s[2 * i + 1])
        {
          if i > 0 {
            assert Unhex(s).value[i] == Unhex(rest).value[i - 1];
            assert rest[2 * (i - 1)] == s[2 * i] && rest[2 * (i - 1) + 1] == s[2 * i + 1];
          }
        }
      }
    }
  }

  /** The digit of the units stands last, the one of the tens in front of it, and so on, without a zero in front. */
  lemma {:induction false} DecimalMeans(n: nat, k: nat)
    requires k < |Decimal(n)|
    ensures Decimal(n)[|Decimal(n)| - 1 - k] as int == 48 + n / Pow10(k) % 10
    ensures n > 0 ==> Decimal(n)[0] != 48
    decreases n
  {
    if k > 0 {
      DecimalMeans(n / 10, k - 1);
      DivTwice(n, Pow10(k - 1));
    }
    if n >= 10 && k == 0 { DecimalMeans(n / 10, 0); }
  }

  lemma {:induction false} DivTwice(n: nat, p: nat)
    requires p >= 1
    ensures n / 10 / p == n / (10 * p)
  {
    var q := n / 10 / p;
    var m := n / 10;
    assert q * p <= m < q * p + p;
    assert 10 * m <= n < 10 * m + 10;
    QuotientIs(n, 10 * p, q);
  }

  lemma {:induction false} QuotientIs(n: nat, p: nat, q: nat)
    requires p >= 1 && q * p <= n < q * p + p
    ensures n / p == q
  {
    var r := n / p;
    assert r * p <= n < r * p + p;
    if r < q { SmallerQuotient(r, q, p); }
    if q < r { SmallerQuotient(q, r, p); }
  }

  lemma {:induction false} SmallerQuotient(r: nat, q: nat, p: nat)
    requires r < q
    ensures r * p + p <= q * p
  {
    assert (r + 1) * p == r * p + p;
    var d: nat := q - (r + 1);
    assert (r + 1 + d) * p == (r + 1) * p + d * p;
  }
}
