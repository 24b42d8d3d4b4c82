/** The line-ending and ident filters (`attributes.rs`). */
module Filters {
  import opened Common
  import opened Objects
  import opened ObjectText

  /** The first occurrence of a pattern, as `find_subslice` finds it. */
  function Find(s: Bytes, pattern: Bytes): (k: Option<nat>)
    requires pattern != []
    ensures k.Some? ==> k.value + |pattern| <= |s| && pattern <= s[k.value..]
    ensures k.Some? ==> forall i :: 0 <= i < k.value ==> !(pattern <= s[i..])
    ensures k.None? ==> forall i :: 0 <= i <= |s| ==> !(pattern <= s[i..])
  {
    if |s| < |pattern| then None
    else if pattern <= s then
      assert s[0..] == s;
      Some(0)
    else
      assert s[0..] == s && forall i :: 0 < i <= |s| ==> s[i..] == s[1..][i - 1..];
      var k := Find(s[1..], pattern);
      if k.None? then None else Some(k.value + 1)
  }

  // ---- Line endings ------------------------------------------------------------------------

  const CRLF: Bytes := [CR, LF]

  /** Every CRLF becomes LF; a CR that is not followed by LF stays. */
  function ToLf(s: Bytes): Bytes
  {
    if s == [] then []
    else if CRLF <= s then [LF] + ToLf(s[2..])
    else [s[0]] + ToLf(s[1..])
  }

  /** Every LF without a CR in front of it gets one. */
  function ToCrlf(s: Bytes, afterCr: bool): Bytes
  {
    if s == [] then []
    else if s[0] == LF && !afterCr then [CR, LF] + ToCrlf(s[1..], false)
    else [s[0]] + ToCrlf(s[1..], s[0] == CR)
  }

  lemma {:induction false} AbsentInTail(s: Bytes, pattern: Bytes, k: nat)
    requires 0 < k <= |s| && forall i :: 0 <= i < k ==> !(pattern <= s[i..])
    ensures !(pattern <= s)
    ensures forall i :: 0 <= i < k - 1 ==> !(pattern <= s[1..][i..])
  {
    assert s[0..] == s;
    forall i | 0 <= i < k - 1 ensures !(pattern <= s[1..][i..]) {
      assert s[1..][i..] == s[i + 1..];
    }
  }

  lemma {:induction false} CutFront(s: Bytes, k: nat)
    requires 0 < k <= |s|
    ensures s[1..][k - 1..] == s[k..] && s[..k] == [s[0]] + s[1..][..k - 1]
  {
  }

  lemma {:induction false} ToLfSkips(s: Bytes, k: nat)
    requires k <= |s| && forall i :: 0 <= i < k ==> !(CRLF <= s[i..])
    ensures ToLf(s) == s[..k] + ToLf(s[k..])
  {
    if k == 0 {
      assert s[0..] == s && s[..0] + ToLf(s) == ToLf(s);
    } else {
      AbsentInTail(s, CRLF, k);
      ToLfSkips(s[1..], k - 1);
      CutFront(s, k);
      ConcatAssoc([s[0]], s[1..][..k - 1], ToLf(s[k..]));
    }
  }

  /** `apply_eol_clean_to_lf`. */
  method ApplyEolCleanToLf(content: Bytes) returns (out: Bytes)
    ensures out == ToLf(content)
  {
    hide Find, ToLf;
    out := [];
    var rest := content;
    assert [] + ToLf(content) == ToLf(content);
    var at := Find(rest, CRLF);
    while at.Some?
      invariant at == Find(rest, CRLF) && out + ToLf(rest) == ToLf(content)
      decreases |rest|
    {
      CleanStep(out, rest, at.value);
      out := out + rest[..at.value] + [LF];
      rest := rest[at.value + 2..];
      at := Find(rest, CRLF);
    }
    CleanEnd(rest);
    out := out + rest;
  }

  lemma {:induction false} CleanStep(out: Bytes, rest: Bytes, k: nat)
    requires k + 2 <= |rest| && CRLF <= rest[k..] && forall i :: 0 <= i < k ==> !(CRLF <= rest[i..])
    ensures out + ToLf(rest) == out + rest[..k] + [LF] + ToLf(rest[k + 2..])
  {
    ToLfSkips(rest, k);
    assert rest[k..][2..] == rest[k + 2..];
  }

  lemma {:induction false} CleanEnd(rest: Bytes)
    requires forall i :: 0 <= i <= |rest| ==> !(CRLF <= rest[i..])
    ensures ToLf(rest) == rest
  {
    ToLfSkips(rest, |rest|);
    assert rest[..|rest|] == rest && rest[|rest|..] == [];
  }

  /** `apply_eol_smudge_to_crlf`. */
  method ApplyEolSmudgeToCrlf(content: Bytes) returns (out: Bytes)
    ensures out == ToCrlf(content, false)
  {
    hide ToCrlf;
    out := [];
    var previous: Option<byte> := None;
    assert content[0..] == content && [] + ToCrlf(content, false) == ToCrlf(content, false);
    for i := 0 to |content|
      invariant out + ToCrlf(content[i..], previous == Some(CR)) == ToCrlf(content, false)
    {
      var b := content[i];
      SmudgeStep(out, content, i, previous == Some(CR));
      if b == LF && previous != Some(CR) {
        out := out + [CR];
      }
      out := out + [b];
      previous := Some(b);
    }
    SmudgeEnd(out, content[|content|..], previous == Some(CR));
  }

  lemma {:induction false} SmudgeStep(out: Bytes, content: Bytes, i: nat, afterCr: bool)
    requires i < |content|
    ensures var b := content[i];
            out + ToCrlf(content[i..], afterCr)
            == (if b == LF && !afterCr then out + [CR] + [b] else out + [b]) + ToCrlf(content[i + 1..], b == CR)
  {
    assert content[i..][1..] == content[i + 1..];
    assert out + [CR] + [LF] == out + [CR, LF];
  }

  lemma {:induction false} SmudgeEnd(out: Bytes, rest: Bytes, afterCr: bool)
    requires rest == []
    ensures out + ToCrlf(rest, afterCr) == out
  {
  }

  lemma {:induction false} ToCrlfOf(b: byte, rest: Bytes, afterCr: bool)
    ensures ToCrlf([b] + rest, afterCr)
            == if b == LF && !afterCr then [CR, LF] + ToCrlf(rest, false) else [b] + ToCrlf(rest, b == CR)
  {
    assert ([b] + rest)[1..] == rest;
  }

  /** Smudging an already smudged text changes nothing. */
  lemma {:induction false} SmudgeIdempotent(s: Bytes, afterCr: bool)
    ensures ToCrlf(ToCrlf(s, afterCr), afterCr) == ToCrlf(s, afterCr)
  {
    hide ToCrlf;
    if s == [] {
      SmudgeNothing(s, afterCr);
    } else {
      var b, rest := s[0], s[1..];
      assert s == [b] + rest;
      ToCrlfOf(b, rest, afterCr);
      if b == LF && !afterCr {
        var smudged := ToCrlf(rest, false);
        SmudgeIdempotent(rest, false);
        assert [CR, LF] + smudged == [CR] + ([LF] + smudged);
        ToCrlfOf(CR, [LF] + smudged, afterCr);
        ToCrlfOf(LF, smudged, true);
      } else {
        SmudgeIdempotent(rest, b == CR);
        ToCrlfOf(b, ToCrlf(rest, b == CR), afterCr);
      }
    }
  }

  lemma {:induction false} SmudgeNothing(s: Bytes, afterCr: bool)
    requires s == []
    ensures ToCrlf(s, afterCr) == s
  {
  }

  lemma {:induction false} ToLfOfCrlf(rest: Bytes)
    ensures ToLf([CR, LF] + rest) == [LF] + ToLf(rest)
  {
    assert ([CR, LF] + rest)[2..] == rest;
  }

  lemma {:induction false} ToLfOfOther(b: byte, rest: Bytes)
    requires b != CR || rest == [] || rest[0] != LF
    ensures ToLf([b] + rest) == [b] + ToLf(rest)
  {
    CrlfStart(b, rest);
    assert ([b] + rest)[1..] == rest;
  }

  lemma {:induction false} CrlfStart(b: byte, s: Bytes)
    ensures CRLF <= [b] + s <==> b == CR && s != [] && s[0] == LF
  {
    var t := [b] + s;
    assert s != [] ==> t[..2] == [b, s[0]];
    assert CRLF <= t ==> t[0] == CRLF[0] && t[1] == CRLF[1];
  }

  /** Cleaning undoes what smudging adds: a text and its smudged form have the same clean form. */
  lemma {:induction false} CleanOfSmudged(s: Bytes)
    ensures ToLf(ToCrlf(s, false)) == ToLf(s)
    decreases |s|
  {
    hide ToLf;
    if s == [] {
    } else if s[0] == LF {
      CleanOfSmudged(s[1..]);
      ToLfOfCrlf(ToCrlf(s[1..], false));
      ToLfOfOther(LF, s[1..]);
      assert s == [LF] + s[1..];
    } else if CRLF <= s {
      CleanOfSmudged(s[2..]);
      SmudgedCrlf(s);
      ToLfOfCrlf(ToCrlf(s[2..], false));
      ToLfOfCrlf(s[2..]);
      assert s == [CR, LF] + s[2..];
    } else {
      CleanOfSmudged(s[1..]);
      ToLfOfOther(s[0], ToCrlf(s[1..], false));
      ToLfOfOther(s[0], s[1..]);
      assert s == [s[0]] + s[1..];
    }
  }

  lemma {:induction false} SmudgedCrlf(s: Bytes)
    requires CRLF <= s
    ensures ToCrlf(s, false) == [CR, LF] + ToCrlf(s[2..], false)
  {
    assert s[1..][0] == LF && s[1..][1..] == s[2..];
    assert [CR] + ([LF] + ToCrlf(s[2..], false)) == [CR, LF] + ToCrlf(s[2..], false);
  }

  predicate HasCrlf(s: Bytes)
  {
    s != [] && (CRLF <= s || HasCrlf(s[1..]))
  }

  /** Cleaning gives back exactly what was smudged if and only if that had no CRLF. */
  lemma {:induction false} CleanUndoesSmudge(s: Bytes)
    ensures ToLf(ToCrlf(s, false)) == s <==> !HasCrlf(s)
  {
    CleanOfSmudged(s);
    NothingToClean(s);
  }

  lemma {:induction false} NothingToClean(s: Bytes)
    ensures ToLf(s) == s <==> !HasCrlf(s)
  {
    if s != [] {
      if CRLF <= s {
        assert ToLf(s)[0] == LF && s[0] == CR;
      } else {
        NothingToClean(s[1..]);
        assert ([s[0]] + ToLf(s[1..]))[1..] == ToLf(s[1..]);
      }
    }
  }

  const CRCRLF: Bytes := [CR, CR, LF]

  predicate HasCrCrlf(s: Bytes)
  {
    s != [] && (CRCRLF <= s || HasCrCrlf(s[1..]))
  }

  /** Cleaning is not idempotent; a second pass finds something exactly where a CR stood in front of a CRLF. */
  lemma {:induction false} CleanIdempotentIff(s: Bytes)
    ensures ToLf(ToLf(s)) == ToLf(s) <==> !HasCrCrlf(s)
  {
    NothingToClean(ToLf(s));
    CleanedHasCrlf(s);
  }

  lemma {:induction false} CleanedHasCrlf(s: Bytes)
    ensures HasCrlf(ToLf(s)) <==> HasCrCrlf(s)
    decreases |s|
  {
    if s != [] {
      if CRLF <= s {
        CleanedHasCrlf(s[2..]);
        assert ToLf(s)[1..] == ToLf(s[2..]);
        assert s[1..][1..] == s[2..] && s[1..][0] == LF;
        assert HasCrCrlf(s[1..]) == HasCrCrlf(s[1..][1..]);
      } else {
        CleanedHasCrlf(s[1..]);
        var t := ToLf(s);
        assert t[1..] == ToLf(s[1..]);
      }
    }
  }

  // ---- Ident -------------------------------------------------------------------------------

  const DOLLAR: byte := 36
  const COLON: byte := 58

  /** `$Id`, `$Id$` and `$Id:`. */
  const ID: Bytes := [36, 73, 100]
  const ID_PLAIN: Bytes := [36, 73, 100, 36]
  const ID_VALUE: Bytes := [36, 73, 100, 58]

  /** `find_ident_clean_terminator`: the next dollar sign on the same line. */
  function Terminator(s: Bytes): (k: Option<nat>)
    ensures k.Some? ==> k.value < |s| && s[k.value] == DOLLAR
  {
    if s == [] || s[0] == LF || s[0] == CR then None
    else if s[0] == DOLLAR then Some(0)
    else
      var k := Terminator(s[1..]);
      if k.None? then None else Some(k.value + 1)
  }

  function TrimStart(s: Bytes): Bytes
  {
    if s != [] && IsSpace(s[0]) then TrimStart(s[1..]) else s
  }

  function TrimEnd(s: Bytes): Bytes
  {
    if s != [] && IsSpace(s[|s| - 1]) then TrimEnd(s[..|s| - 1]) else s
  }

  /** `ident_clean_value_is_collapsible`: a single word, or nothing. */
  predicate Collapsible(value: Bytes)
  {
    var word := TrimEnd(TrimStart(value));
    forall i :: 0 <= i < |word| ==> !IsSpace(word[i])
  }

  /** A `$Id:` whose value ends on its line becomes `$Id$` if the value is collapsible; any other one is kept. */
  function IdentClean(s: Bytes): Bytes
    decreases |s|
  {
    if s == [] then []
    else if ID_VALUE <= s then
      var end := Terminator(s[4..]);
      if end.None? then ID_VALUE + IdentClean(s[4..])
      else (if Collapsible(s[4..4 + end.value]) then ID_PLAIN else s[..5 + end.value]) + IdentClean(s[5 + end.value..])
    else [s[0]] + IdentClean(s[1..])
  }

  function Marker(id: ObjectId): Bytes
  {
    ID_VALUE + [SPACE] + Hex(id.digest) + [SPACE, DOLLAR]
  }

  function IdentSmudge(s: Bytes, id: ObjectId): Bytes
    decreases |s|
  {
    if s == [] then []
    else if ID_PLAIN <= s then Marker(id) + IdentSmudge(s[4..], id)
    else if ID_VALUE <= s then
      var end := Terminator(s[4..]);
      if end.None? then ID_VALUE + IdentSmudge(s[4..], id)
      else
        (if Collapsible(s[4..4 + end.value]) then Marker(id) else s[..5 + end.value])
        + IdentSmudge(s[5 + end.value..], id)
    else [s[0]] + IdentSmudge(s[1..], id)
  }

  lemma {:induction false} IdentCleanSkips(s: Bytes, k: nat)
    requires k <= |s| && forall i :: 0 <= i < k ==> !(ID_VALUE <= s[i..])
    ensures IdentClean(s) == s[..k] + IdentClean(s[k..])
  {
    if k == 0 {
      assert s[0..] == s && s[..0] + IdentClean(s) == IdentClean(s);
    } else {
      AbsentInTail(s, ID_VALUE, k);
      IdentCleanSkips(s[1..], k - 1);
      CutFront(s, k);
      ConcatAssoc([s[0]], s[1..][..k - 1], IdentClean(s[k..]));
    }
  }

  /** `apply_ident_clean`. */
  method ApplyIdentClean(content: Bytes) returns (out: Bytes)
    ensures out == IdentClean(content)
  {
    hide Find, IdentClean, Terminator, Collapsible;
    out := [];
    var rest := content;
    assert [] + IdentClean(content) == IdentClean(content);
    var at := Find(rest, ID_VALUE);
    while at.Some?
      invariant at == Find(rest, ID_VALUE) && out + IdentClean(rest) == IdentClean(content)
      decreases |rest|
    {
      IdentCleanSkips(rest, at.value);
      ConcatAssoc(out, rest[..at.value], IdentClean(rest[at.value..]));
      out := out + rest[..at.value];
      rest := rest[at.value..];
      IdentCleanStep(out, rest);
      var end := Terminator(rest[4..]);
      if end.Some? {
        if Collapsible(rest[4..4 + end.value]) {
          out := out + ID_PLAIN;
        } else {
          out := out + rest[..5 + end.value];
        }
        rest := rest[5 + end.value..];
      } else {
        out := out + rest[..4];
        rest := rest[4..];
      }
      at := Find(rest, ID_VALUE);
    }
    IdentCleanSkips(rest, |rest|);
    NothingIdent(rest[|rest|..], ObjectId(Sha1, seq(20, _ => 0)));
    assert rest[..|rest|] + [] == rest;
    out := out + rest;
  }

  lemma {:induction false} IdentCleanStep(out: Bytes, rest: Bytes)
    requires ID_VALUE <= rest
    ensures var end := Terminator(rest[4..]);
            out + IdentClean(rest)
            == if end.None? then out + rest[..4] + IdentClean(rest[4..])
               else if Collapsible(rest[4..4 + end.value]) then out + ID_PLAIN + IdentClean(rest[5 + end.value..])
               else out + rest[..5 + end.value] + IdentClean(rest[5 + end.value..])
  {
    hide Terminator, Collapsible;
    assert rest[..4] == ID_VALUE;
  }

  lemma {:induction false} NothingIdent(s: Bytes, id: ObjectId)
    requires s == []
    ensures IdentClean(s) == [] && IdentSmudge(s, id) == []
  {
  }

  /** The bytes up to the first `$Id` are copied. */
  lemma {:induction false} IdentSmudgeSkips(s: Bytes, id: ObjectId, k: nat)
    requires k <= |s| && forall i :: 0 <= i < k ==> !(ID <= s[i..])
    ensures IdentSmudge(s, id) == s[..k] + IdentSmudge(s[k..], id)
  {
    if k == 0 {
      assert s[0..] == s && s[..0] + IdentSmudge(s, id) == IdentSmudge(s, id);
    } else {
      AbsentInTail(s, ID, k);
      assert ID_PLAIN <= s || ID_VALUE <= s ==> ID <= s;
      IdentSmudgeSkips(s[1..], id, k - 1);
      CutFront(s, k);
      ConcatAssoc([s[0]], s[1..][..k - 1], IdentSmudge(s[k..], id));
    }
  }

  lemma {:induction false} IdentSmudgeFront(out: Bytes, s: Bytes, id: ObjectId, k: nat)
    requires k <= |s| && forall i :: 0 <= i < k ==> !(ID <= s[i..])
    ensures out + IdentSmudge(s, id) == out + s[..k] + IdentSmudge(s[k..], id)
  {
    hide IdentSmudge;
    IdentSmudgeSkips(s, id, k);
    ConcatAssoc(out, s[..k], IdentSmudge(s[k..], id));
  }

  /** `apply_ident_smudge`. */
  method ApplyIdentSmudge(content: Bytes, id: ObjectId) returns (out: Bytes)
    ensures out == IdentSmudge(content, id)
  {
    hide Find, IdentSmudge, Terminator, Collapsible, Marker;
    out := [];
    var rest := content;
    assert [] + IdentSmudge(content, id) == IdentSmudge(content, id);
    var at := Find(rest, ID);
    while at.Some?
      invariant at == Find(rest, ID) && out + IdentSmudge(rest, id) == IdentSmudge(content, id)
      decreases |rest|
    {
      IdentSmudgeFront(out, rest, id, at.value);
      out := out + rest[..at.value];
      rest := rest[at.value..];
      IdentSmudgeStep(out, rest, id);
      if |rest| > 3 && rest[3] == DOLLAR {
        out := out + Marker(id);
        rest := rest[4..];
      } else if |rest| > 3 && rest[3] == COLON {
        var end := Terminator(rest[4..]);
        if end.Some? {
          if Collapsible(rest[4..4 + end.value]) {
            out := out + Marker(id);
          } else {
            out := out + rest[..5 + end.value];
          }
          rest := rest[5 + end.value..];
        } else {
          out := out + rest[..4];
          rest := rest[4..];
        }
      } else {
        out := out + ID;
        rest := rest[3..];
      }
      at := Find(rest, ID);
    }
    IdentSmudgeEnd(rest, id);
    out := out + rest;
  }

  lemma {:induction false} IdentSmudgeStep(out: Bytes, rest: Bytes, id: ObjectId)
    requires ID <= rest
    ensures |rest| > 3 && rest[3] == DOLLAR ==>
              out + IdentSmudge(rest, id) == out + Marker(id) + IdentSmudge(rest[4..], id)
    ensures |rest| > 3 && rest[3] == COLON ==>
              var end := Terminator(rest[4..]);
              out + IdentSmudge(rest, id)
              == if end.None? then out + rest[..4] + IdentSmudge(rest[4..], id)
                 else if Collapsible(rest[4..4 + end.value]) then
                   out + Marker(id) + IdentSmudge(rest[5 + end.value..], id)
                 else out + rest[..5 + end.value] + IdentSmudge(rest[5 + end.value..], id)
    ensures |rest| == 3 || (rest[3] != DOLLAR && rest[3] != COLON) ==>
              out + IdentSmudge(rest, id) == out + ID + IdentSmudge(rest[3..], id)
  {
    hide Terminator, Collapsible, Marker, IdentSmudge;
    assert rest[0] == 36 && rest[1] == 73 && rest[2] == 100;
    SmudgeCases(rest, id);
    if |rest| > 3 && rest[3] == COLON {
      assert rest[..4] == ID_VALUE;
      assert rest[3] != ID_PLAIN[3];
      var end := Terminator(rest[4..]);
      if end.None? {
        ConcatAssoc(out, rest[..4], IdentSmudge(rest[4..], id));
      } else {
        var first := if Collapsible(rest[4..4 + end.value]) then Marker(id) else rest[..5 + end.value];
        ConcatAssoc(out, first, IdentSmudge(rest[5 + end.value..], id));
      }
    } else if |rest| == 3 || rest[3] != DOLLAR {
      ThreeBytes(rest, id);
      ConcatAssoc(out, ID, IdentSmudge(rest[3..], id));
    } else {
      assert rest[..4] == ID_PLAIN;
      ConcatAssoc(out, Marker(id), IdentSmudge(rest[4..], id));
    }
  }

  lemma {:induction false} IdentSmudgeEnd(rest: Bytes, id: ObjectId)
    requires forall i :: 0 <= i <= |rest| ==> !(ID <= rest[i..])
    ensures IdentSmudge(rest, id) == rest
  {
    IdentSmudgeSkips(rest, id, |rest|);
    NothingIdent(rest[|rest|..], id);
    assert rest[..|rest|] + [] == rest;
  }

  lemma {:induction false} ThreeBytes(rest: Bytes, id: ObjectId)
    requires ID <= rest && (|rest| == 3 || (rest[3] != DOLLAR && rest[3] != COLON))
    ensures IdentSmudge(rest, id) == ID + IdentSmudge(rest[3..], id)
  {
    var a, b := rest[1..], rest[2..];
    assert rest[0] == 36 && a[0] == 73 && b[0] == 100 && a[1..] == b && b[1..] == rest[3..];
    assert |rest| > 3 ==> ID_PLAIN[3] == DOLLAR && ID_VALUE[3] == COLON;
    assert IdentSmudge(b, id) == [100] + IdentSmudge(rest[3..], id);
    assert IdentSmudge(a, id) == [73] + IdentSmudge(b, id);
    assert [36] + ([73] + ([100] + IdentSmudge(rest[3..], id))) == ID + IdentSmudge(rest[3..], id);
  }

  // ---- Cleaning after smudging -------------------------------------------------------------

  /** `$Id$Id:`, where the two filters read the shared dollar sign differently. */
  const OVERLAP: Bytes := [36, 73, 100, 36, 73, 100, 58]

  predicate Occurs(pattern: Bytes, s: Bytes)
  {
    pattern <= s || (s != [] && Occurs(pattern, s[1..]))
  }

  lemma {:induction false} AbsentInSuffix(pattern: Bytes, s: Bytes, n: nat)
    requires !Occurs(pattern, s) && n <= |s|
    ensures !Occurs(pattern, s[n..])
  {
    if n == 0 {
      assert s[0..] == s;
    } else {
      AbsentInSuffix(pattern, s[1..], n - 1);
      assert s[1..][n - 1..] == s[n..];
    }
  }

  lemma {:induction false} TerminatorAt(word: Bytes, rest: Bytes)
    requires forall i :: 0 <= i < |word| ==> word[i] != LF && word[i] != CR && word[i] != DOLLAR
    ensures Terminator(word + [DOLLAR] + rest) == Some(|word|)
  {
    var s := word + [DOLLAR] + rest;
    if word == [] {
      assert s[0] == DOLLAR;
    } else {
      TerminatorAt(word[1..], rest);
      assert s[1..] == word[1..] + [DOLLAR] + rest;
    }
  }

  /** A terminator is found in the same place whatever comes after it. */
  lemma {:induction false} TerminatorStable(s: Bytes, k: nat, rest: Bytes)
    requires Terminator(s) == Some(k)
    ensures Terminator(s[..k + 1] + rest) == Some(k)
  {
    var t := s[..k + 1] + rest;
    if k > 0 {
      TerminatorStable(s[1..], k - 1, rest);
      assert t[1..] == s[1..][..k] + rest;
    }
  }

  lemma {:induction false} WordCollapses(hex: Bytes)
    requires hex != [] && forall i :: 0 <= i < |hex| ==> !IsSpace(hex[i])
    ensures Collapsible([SPACE] + hex + [SPACE])
  {
    var value := [SPACE] + hex + [SPACE];
    assert value[1..] == hex + [SPACE];
    assert TrimStart(value[1..]) == hex + [SPACE];
    var tail := hex + [SPACE];
    assert tail[..|tail| - 1] == hex && TrimEnd(hex) == hex;
  }

  /** Cleaning collapses what smudging expanded. */
  lemma {:induction false} MarkerCleaned(id: ObjectId, rest: Bytes)
    ensures IdentClean(Marker(id) + rest) == ID_PLAIN + IdentClean(rest)
  {
    hide Hex, Terminator, Collapsible;
    var hex := Hex(id.digest);
    var word := [SPACE] + hex + [SPACE];
    var s := Marker(id) + rest;
    HexBytes(id.digest);
    assert s == ID_VALUE + (word + [DOLLAR] + rest);
    assert ID_VALUE <= s && s[4..] == word + [DOLLAR] + rest;
    TerminatorAt(word, rest);
    WordCollapses(hex);
    assert s[4..4 + |word|] == word && s[5 + |word|..] == rest;
  }

  /** Smudging leaves a line without dollar sign alone. */
  lemma {:induction false} SmudgeKeepsLine(s: Bytes, id: ObjectId)
    requires Terminator(s).None?
    ensures Terminator(IdentSmudge(s, id)).None?
  {
    hide Marker;
    if s != [] {
      assert ID_PLAIN[0] == DOLLAR && ID_VALUE[0] == DOLLAR;
      assert IdentSmudge(s, id) == [s[0]] + IdentSmudge(s[1..], id);
      assert ([s[0]] + IdentSmudge(s[1..], id))[1..] == IdentSmudge(s[1..], id);
      if s[0] != LF && s[0] != CR { SmudgeKeepsLine(s[1..], id); }
    }
  }

  /** Smudging keeps the first byte, and the rest of the text behind it unless that is a dollar sign. */
  lemma {:induction false} SmudgeFirst(s: Bytes, id: ObjectId)
    ensures s == [] ==> IdentSmudge(s, id) == []
    ensures s != [] ==> IdentSmudge(s, id) != [] && IdentSmudge(s, id)[0] == s[0]
    ensures s != [] && s[0] != DOLLAR ==> IdentSmudge(s, id)[1..] == IdentSmudge(s[1..], id)
  {
    hide Terminator, Collapsible;
    assert ID_PLAIN[0] == DOLLAR && ID_VALUE[0] == DOLLAR;
    assert Marker(id)[0] == DOLLAR;
  }

  /** Smudging does not create a `$Id:` out of a dollar sign that did not start one. */
  lemma {:induction false} NoNewValue(b: byte, s: Bytes, id: ObjectId)
    requires !(ID_VALUE <= [b] + s)
    ensures !(ID_VALUE <= [b] + IdentSmudge(s, id))
  {
    hide IdentSmudge;
    ValueStart(b, s);
    ValueStart(b, IdentSmudge(s, id));
    SmudgeFirst(s, id);
    if s != [] && s[0] == 73 {
      SmudgeFirst(s[1..], id);
      if |s| > 1 && s[1] == 100 {
        SmudgeFirst(s[2..], id);
        assert s[1..][1..] == s[2..];
      }
    }
  }

  lemma {:induction false} ValueStart(b: byte, s: Bytes)
    ensures ID_VALUE <= [b] + s <==>
            b == DOLLAR && s != [] && s[0] == 73 && s[1..] != [] && s[1..][0] == 100 && s[1..][1..] != []
                && s[1..][1..][0] == COLON
  {
    var t := [b] + s;
    assert |s| >= 3 ==> t[..4] == [b, s[0], s[1], s[2]] && s[1..][0] == s[1] && s[1..][1..][0] == s[2];
    assert ID_VALUE <= t ==> t[0] == ID_VALUE[0] && t[1] == ID_VALUE[1] && t[2] == ID_VALUE[2] && t[3] == ID_VALUE[3];
  }

  lemma {:induction false} CleanOther(b: byte, s: Bytes)
    requires !(ID_VALUE <= [b] + s)
    ensures IdentClean([b] + s) == [b] + IdentClean(s)
  {
    assert ([b] + s)[1..] == s;
  }

  lemma {:induction false} OverlapMeaning(s: Bytes)
    ensures OVERLAP <= s <==> ID_PLAIN <= s && ID_VALUE <= s[3..]
  {
    if OVERLAP <= s {
      assert s[3..][..4] == s[..7][3..] == ID_VALUE && s[..4] == s[..7][..4] == ID_PLAIN;
    }
    if ID_PLAIN <= s && ID_VALUE <= s[3..] {
      assert s[..7] == s[..3] + s[3..][..4] && s[..3] == s[..4][..3];
      assert s[..7] == OVERLAP;
    }
  }

  /**
   * What is left of a text after smudging and cleaning: as cleaning, but a `$Id$` is taken as a whole, because smudging
   * has done so.
   */
  function Collapsed(s: Bytes): Bytes
    decreases |s|
  {
    if s == [] then []
    else if ID_PLAIN <= s then ID_PLAIN + Collapsed(s[4..])
    else if ID_VALUE <= s then
      var end := Terminator(s[4..]);
      if end.None? then ID_VALUE + Collapsed(s[4..])
      else (if Collapsible(s[4..4 + end.value]) then ID_PLAIN else s[..5 + end.value]) + Collapsed(s[5 + end.value..])
    else [s[0]] + Collapsed(s[1..])
  }

  /** Smudging and then cleaning is collapsing, on every text. */
  lemma {:induction false} SmudgedIsCollapsed(s: Bytes, id: ObjectId)
    ensures IdentClean(IdentSmudge(s, id)) == Collapsed(s)
    decreases |s|
  {
    hide IdentClean, IdentSmudge, Terminator, Collapsible, Marker;
    if s == [] {
      NothingIdent(s, id);
      NothingIdent(IdentSmudge(s, id), id);
    } else if ID_PLAIN <= s {
      SmudgedIsCollapsed(s[4..], id);
      SmudgeCases(s, id);
      MarkerCleaned(id, IdentSmudge(s[4..], id));
    } else if ID_VALUE <= s {
      var end := Terminator(s[4..]);
      SmudgeCases(s, id);
      if end.None? {
        SmudgedIsCollapsed(s[4..], id);
        SmudgeKeepsLine(s[4..], id);
        CleanUnterminated(IdentSmudge(s[4..], id));
      } else {
        SmudgedIsCollapsed(s[5 + end.value..], id);
        var rest := IdentSmudge(s[5 + end.value..], id);
        MarkerCleaned(id, rest);
        if !Collapsible(s[4..4 + end.value]) { CleanTerminated(s, end.value, rest); }
      }
    } else {
      SmudgedIsCollapsed(s[1..], id);
      SmudgeCases(s, id);
      assert s == [s[0]] + s[1..];
      NoNewValue(s[0], s[1..], id);
      CleanOther(s[0], IdentSmudge(s[1..], id));
    }
  }

  // Two scans of the same text: smudging takes a whole `$Id$`, cleaning leaves its last dollar sign for what follows.
  // They give the same text as long as no collapsible value starts at a dollar sign that the other scan has already
  // passed.

  /** Both scans stand at the same place. */
  predicate InStep(s: Bytes)
    decreases |s|, 0
  {
    if s == [] then true
    else if ID_PLAIN <= s then SmudgeAhead(s[4..])
    else if ID_VALUE <= s then
      var end := Terminator(s[4..]);
      if end.None? then InStep(s[4..]) else InStep(s[5 + end.value..])
    else InStep(s[1..])
  }

  /** Smudging stands at `s`, cleaning at the dollar sign in front of it. */
  predicate SmudgeAhead(s: Bytes)
    decreases |s|, 1
  {
    if !(ID_VALUE <= [DOLLAR] + s) then InStep(s)
    else
      var end := Terminator(s[3..]);
      if end.None? then InStep(s[3..]) else !Collapsible(s[3..3 + end.value]) && CleanAhead(s[4 + end.value..])
  }

  /** Cleaning stands at `s`, smudging at the dollar sign in front of it. */
  predicate CleanAhead(s: Bytes)
    decreases |s|, 1
  {
    if ID_PLAIN <= [DOLLAR] + s then SmudgeAhead(s[3..])
    else if !(ID_VALUE <= [DOLLAR] + s) then InStep(s)
    else
      var end := Terminator(s[3..]);
      if end.None? then InStep(s[3..]) else !Collapsible(s[3..3 + end.value]) && SmudgeAhead(s[4 + end.value..])
  }

  lemma {:induction false} Cancel(front: Bytes, x: Bytes, y: Bytes)
    ensures front + x == front + y <==> x == y
  {
    if front + x == front + y {
      assert x == (front + x)[|front|..] == (front + y)[|front|..] == y;
    }
  }

  /** Text without dollar signs is copied by both scans. */
  lemma {:induction false} WordCopied(word: Bytes, rest: Bytes)
    requires DOLLAR !in word
    ensures IdentClean(word + rest) == word + IdentClean(rest) && Collapsed(word + rest) == word + Collapsed(rest)
  {
    hide IdentClean, Collapsed;
    if word == [] {
      assert word + rest == rest && word + IdentClean(rest) == IdentClean(rest)
             && word + Collapsed(rest) == Collapsed(rest);
    } else {
      WordCopied(word[1..], rest);
      ByteCopied(word[0], word[1..] + rest);
      assert word + rest == [word[0]] + (word[1..] + rest) && [word[0]] + word[1..] == word;
      ConcatAssoc([word[0]], word[1..], IdentClean(rest));
      ConcatAssoc([word[0]], word[1..], Collapsed(rest));
    }
  }

  lemma {:induction false} ByteCopied(b: byte, s: Bytes)
    requires b != DOLLAR
    ensures IdentClean([b] + s) == [b] + IdentClean(s) && Collapsed([b] + s) == [b] + Collapsed(s)
  {
    hide IdentClean, Collapsed;
    assert ID_PLAIN[0] == DOLLAR && ID_VALUE[0] == DOLLAR && ([b] + s)[0] == b;
    CleanOther(b, s);
    CollapsedOther(b, s);
  }

  lemma {:induction false} TerminatorWord(s: Bytes, k: nat)
    requires Terminator(s) == Some(k)
    ensures DOLLAR !in s[..k]
    ensures s == s[..k] + ([DOLLAR] + s[k + 1..])
  {
    TerminatorFirst(s, k);
    assert s == s[..k] + s[k..] && s[k..] == [s[k]] + s[k + 1..];
  }

  lemma {:induction false} TerminatorFirst(s: Bytes, k: nat)
    requires Terminator(s) == Some(k)
    ensures DOLLAR !in s[..k]
  {
    if k > 0 {
      TerminatorFirst(s[1..], k - 1);
      CutFront(s, k);
    }
  }

  /** A `$Id:` with its last three bytes apart. */
  lemma {:induction false} ValueParts(s: Bytes)
    requires ID_VALUE <= [DOLLAR] + s
    ensures |s| >= 3 && s == ID_VALUE[1..] + s[3..] && ([DOLLAR] + s)[4..] == s[3..]
    ensures DOLLAR !in ID_VALUE[1..]
  {
    var t := [DOLLAR] + s;
    assert t == t[..4] + t[4..] && t[..4] == ID_VALUE;
  }

  lemma {:induction false} CollapsedOther(b: byte, s: Bytes)
    requires !(ID_PLAIN <= [b] + s) && !(ID_VALUE <= [b] + s)
    ensures Collapsed([b] + s) == [b] + Collapsed(s)
  {
    assert ([b] + s)[1..] == s;
  }

  lemma {:induction false} CollapsedCases(s: Bytes)
    requires s != []
    ensures ID_PLAIN <= s ==> Collapsed(s) == ID_PLAIN + Collapsed(s[4..])
    ensures ID_VALUE <= s ==>
              var end := Terminator(s[4..]);
              Collapsed(s)
              == if end.None? then ID_VALUE + Collapsed(s[4..])
                 else
                   (if Collapsible(s[4..4 + end.value]) then ID_PLAIN else s[..5 + end.value])
                   + Collapsed(s[5 + end.value..])
  {
    hide Terminator, Collapsible;
    assert ID_VALUE <= s ==> s[3] == ID_VALUE[3];
    assert ID_PLAIN <= s ==> s[3] == ID_PLAIN[3];
  }

  /** One scan reads `$Id:` and its value, the other one copies them up to the dollar sign that ends the value. */
  lemma {:induction false} ValueKept(s: Bytes, k: nat)
    requires ID_VALUE <= [DOLLAR] + s && Terminator(s[3..]) == Some(k)
    ensures var t, front, rest := [DOLLAR] + s, ID_VALUE + s[3..3 + k], s[4 + k..];
            && t[..5 + k] == front + [DOLLAR] && t[5 + k..] == rest
            && [DOLLAR] + IdentClean(s) == front + IdentClean([DOLLAR] + rest)
            && [DOLLAR] + Collapsed(s) == front + Collapsed([DOLLAR] + rest)
  {
    hide IdentClean, Collapsed, Terminator;
    var value, rest := s[3..][..k], s[4 + k..];
    ValueParts(s);
    TerminatorWord(s[3..], k);
    assert s[3..][k + 1..] == rest && s[3..3 + k] == value;
    var word := ID_VALUE[1..] + value;
    assert s == word + ([DOLLAR] + rest);
    WordCopied(word, [DOLLAR] + rest);
    assert [DOLLAR] + word == ID_VALUE + value;
    ConcatAssoc([DOLLAR], word, IdentClean([DOLLAR] + rest));
    ConcatAssoc([DOLLAR], word, Collapsed([DOLLAR] + rest));
    assert [DOLLAR] + s == ID_VALUE + value + [DOLLAR] + rest;
  }

  lemma {:induction false} ValueSlices(s: Bytes, k: nat)
    requires 3 + k < |s|
    ensures var t := [DOLLAR] + s; t[4..] == s[3..] && t[4..4 + k] == s[3..3 + k] && t[5 + k..] == s[4 + k..]
  {
    var t := [DOLLAR] + s;
    assert t[4..4 + k] == t[4..][..k] && s[3..3 + k] == s[3..][..k];
    assert t[5 + k..] == t[4..][k + 1..] && s[4 + k..] == s[3..][k + 1..];
  }

  lemma {:induction false} UnterminatedKept(s: Bytes)
    requires ID_VALUE <= [DOLLAR] + s
    ensures [DOLLAR] + IdentClean(s) == ID_VALUE + IdentClean(s[3..])
    ensures [DOLLAR] + Collapsed(s) == ID_VALUE + Collapsed(s[3..])
  {
    hide IdentClean, Collapsed;
    ValueParts(s);
    var word := ID_VALUE[1..];
    WordCopied(word, s[3..]);
    assert [DOLLAR] + word == ID_VALUE;
    ConcatAssoc([DOLLAR], word, IdentClean(s[3..]));
    ConcatAssoc([DOLLAR], word, Collapsed(s[3..]));
  }

  /** The two scans agree from a common place on if and only if they stay in step. */
  lemma {:induction false} InStepAgrees(s: Bytes)
    ensures Collapsed(s) == IdentClean(s) <==> InStep(s)
    decreases |s|, 0
  {
    hide IdentClean, Collapsed, Terminator, Collapsible, SmudgeAhead, CleanAhead;
    if s == [] {
      NothingCollapsed(s);
    } else if ID_PLAIN <= s {
      CollapsedCases(s);
      PlainPassed(s);
      SmudgeAheadAgrees(s[4..]);
      Cancel(ID, [DOLLAR] + Collapsed(s[4..]), IdentClean([DOLLAR] + s[4..]));
      assert ID + ([DOLLAR] + Collapsed(s[4..])) == ID_PLAIN + Collapsed(s[4..]);
    } else if ID_VALUE <= s {
      CollapsedCases(s);
      CleanCases(s);
      var end := Terminator(s[4..]);
      if end.None? {
        InStepAgrees(s[4..]);
        Cancel(ID_VALUE, Collapsed(s[4..]), IdentClean(s[4..]));
      } else {
        var rest := s[5 + end.value..];
        InStepAgrees(rest);
        Cancel(if Collapsible(s[4..4 + end.value]) then ID_PLAIN else s[..5 + end.value], Collapsed(rest),
               IdentClean(rest));
      }
    } else {
      InStepAgrees(s[1..]);
      assert s == [s[0]] + s[1..];
      CleanOther(s[0], s[1..]);
      CollapsedOther(s[0], s[1..]);
      Cancel([s[0]], Collapsed(s[1..]), IdentClean(s[1..]));
    }
  }

  lemma {:induction false} NothingCollapsed(s: Bytes)
    requires s == []
    ensures Collapsed(s) == [] && IdentClean(s) == []
  {
  }

  /** Cleaning copies the first three bytes of a `$Id$`. */
  lemma {:induction false} PlainPassed(s: Bytes)
    requires ID_PLAIN <= s
    ensures IdentClean(s) == ID + IdentClean([DOLLAR] + s[4..])
  {
    hide IdentClean;
    var word: Bytes := [73, 100];
    assert s == [DOLLAR] + (word + ([DOLLAR] + s[4..])) by {
      assert s == s[..4] + s[4..] && s[..4] == ID_PLAIN;
    }
    assert !(ID_VALUE <= s) by {
      assert s[3] == ID_PLAIN[3] && ID_VALUE[3] == COLON;
    }
    CleanOther(DOLLAR, word + ([DOLLAR] + s[4..]));
    WordCopied(word, [DOLLAR] + s[4..]);
    ConcatAssoc([DOLLAR], word, IdentClean([DOLLAR] + s[4..]));
    assert [DOLLAR] + word == ID;
  }

  lemma {:induction false} SmudgeAheadAgrees(s: Bytes)
    ensures [DOLLAR] + Collapsed(s) == IdentClean([DOLLAR] + s) <==> SmudgeAhead(s)
    decreases |s|, 1
  {
    hide IdentClean, Collapsed, Terminator, Collapsible, InStep, CleanAhead;
    if !(ID_VALUE <= [DOLLAR] + s) {
      CleanOther(DOLLAR, s);
      Cancel([DOLLAR], Collapsed(s), IdentClean(s));
      InStepAgrees(s);
    } else {
      ValueParts(s);
      var end := Terminator(s[3..]);
      if end.None? {
        CleanCases([DOLLAR] + s);
        UnterminatedKept(s);
        Cancel(ID_VALUE, Collapsed(s[3..]), IdentClean(s[3..]));
        InStepAgrees(s[3..]);
      } else {
        ValueCleaned(s, end.value);
        CleanAheadAgrees(s[4 + end.value..]);
      }
    }
  }

  /** Cleaning reads a value that smudging copies. */
  lemma {:induction false} ValueCleaned(s: Bytes, k: nat)
    requires ID_VALUE <= [DOLLAR] + s && Terminator(s[3..]) == Some(k)
    ensures var rest := s[4 + k..];
            [DOLLAR] + Collapsed(s) == IdentClean([DOLLAR] + s)
            <==> !Collapsible(s[3..3 + k]) && Collapsed([DOLLAR] + rest) == [DOLLAR] + IdentClean(rest)
  {
    hide IdentClean, Collapsed, Terminator, Collapsible;
    var t, value, rest := [DOLLAR] + s, s[3..3 + k], s[4 + k..];
    ValueParts(s);
    ValueSlices(s, k);
    assert Terminator(t[4..]) == Some(k);
    CleanCases(t);
    ValueKept(s, k);
    ReadAndCopied(Collapsible(value), value, IdentClean(rest), Collapsed([DOLLAR] + rest));
  }

  /** A keyword that is read and one that is copied: a collapsed one differs in the fourth byte. */
  lemma {:induction false} ReadAndCopied(collapsed: bool, value: Bytes, x: Bytes, y: Bytes)
    ensures var front := ID_VALUE + value;
            (if collapsed then ID_PLAIN else front + [DOLLAR]) + x == front + y <==> !collapsed && [DOLLAR] + x == y
  {
    var front := ID_VALUE + value;
    if collapsed {
      assert (front + y)[3] == COLON && (ID_PLAIN + x)[3] == DOLLAR;
    } else {
      ConcatAssoc(front, [DOLLAR], x);
      Cancel(front, [DOLLAR] + x, y);
    }
  }

  lemma {:induction false} CleanAheadAgrees(s: Bytes)
    ensures Collapsed([DOLLAR] + s) == [DOLLAR] + IdentClean(s) <==> CleanAhead(s)
    decreases |s|, 1
  {
    hide IdentClean, Collapsed, Terminator, Collapsible, InStep, SmudgeAhead;
    if ID_PLAIN <= [DOLLAR] + s {
      PlainTaken(s);
      SmudgeAheadAgrees(s[3..]);
    } else if !(ID_VALUE <= [DOLLAR] + s) {
      CollapsedOther(DOLLAR, s);
      Cancel([DOLLAR], Collapsed(s), IdentClean(s));
      InStepAgrees(s);
    } else {
      ValueParts(s);
      var end := Terminator(s[3..]);
      if end.None? {
        CollapsedCases([DOLLAR] + s);
        UnterminatedKept(s);
        Cancel(ID_VALUE, Collapsed(s[3..]), IdentClean(s[3..]));
        InStepAgrees(s[3..]);
      } else {
        ValueTaken(s, end.value);
        SmudgeAheadAgrees(s[4 + end.value..]);
      }
    }
  }

  /** Smudging reads a value that cleaning copies. */
  lemma {:induction false} ValueTaken(s: Bytes, k: nat)
    requires ID_VALUE <= [DOLLAR] + s && Terminator(s[3..]) == Some(k)
    ensures var rest := s[4 + k..];
            Collapsed([DOLLAR] + s) == [DOLLAR] + IdentClean(s)
            <==> !Collapsible(s[3..3 + k]) && [DOLLAR] + Collapsed(rest) == IdentClean([DOLLAR] + rest)
  {
    hide IdentClean, Collapsed, Terminator, Collapsible;
    var t, value, rest := [DOLLAR] + s, s[3..3 + k], s[4 + k..];
    ValueParts(s);
    ValueSlices(s, k);
    assert Terminator(t[4..]) == Some(k);
    CollapsedCases(t);
    ValueKept(s, k);
    ReadAndCopied(Collapsible(value), value, Collapsed(rest), IdentClean([DOLLAR] + rest));
  }

  /** Smudging takes a `$Id$` whose first three bytes cleaning copies. */
  lemma {:induction false} PlainTaken(s: Bytes)
    requires ID_PLAIN <= [DOLLAR] + s
    ensures |s| >= 3
    ensures Collapsed([DOLLAR] + s) == [DOLLAR] + IdentClean(s)
            <==> [DOLLAR] + Collapsed(s[3..]) == IdentClean([DOLLAR] + s[3..])
  {
    hide IdentClean, Collapsed, Terminator, Collapsible;
    CollapsedCases([DOLLAR] + s);
    PlainParts(s);
    var rest := s[3..];
    var word: Bytes := [73, 100];
    WordCopied(word, [DOLLAR] + rest);
    ConcatAssoc([DOLLAR], word, IdentClean([DOLLAR] + rest));
    assert [DOLLAR] + word == ID;
    assert ID + ([DOLLAR] + Collapsed(rest)) == ID_PLAIN + Collapsed(rest);
    Cancel(ID, [DOLLAR] + Collapsed(rest), IdentClean([DOLLAR] + rest));
  }

  lemma {:induction false} PlainParts(s: Bytes)
    requires ID_PLAIN <= [DOLLAR] + s
    ensures |s| >= 3 && ([DOLLAR] + s)[4..] == s[3..] && s == [73, 100] + ([DOLLAR] + s[3..])
  {
    var t := [DOLLAR] + s;
    assert t[..4] == ID_PLAIN;
    assert t[1] == ID_PLAIN[1] && t[2] == ID_PLAIN[2] && t[3] == ID_PLAIN[3];
    assert s[0] == 73 && s[1] == 100 && s[2] == DOLLAR;
  }

  /** A text and its smudged form have the same clean form if and only if the two scans stay in step. */
  lemma {:induction false} IdentCleanAfterSmudge(s: Bytes, id: ObjectId)
    ensures IdentClean(IdentSmudge(s, id)) == IdentClean(s) <==> InStep(s)
    ensures !Occurs(OVERLAP, s) ==> InStep(s)
  {
    hide IdentClean, IdentSmudge, Collapsed, InStep, Occurs;
    SmudgedIsCollapsed(s, id);
    InStepAgrees(s);
    if !Occurs(OVERLAP, s) { NoOverlapInStep(s); }
  }

  /** The scans can only part at a `$Id$Id:`. */
  lemma {:induction false} NoOverlapInStep(s: Bytes)
    requires !Occurs(OVERLAP, s)
    ensures InStep(s)
    decreases |s|
  {
    hide Terminator, Occurs;
    if s != [] {
      if ID_PLAIN <= s {
        AbsentHere(OVERLAP, s);
        OverlapMeaning(s);
        assert s[3..] == [DOLLAR] + s[4..];
        AbsentInSuffix(OVERLAP, s, 4);
        NoOverlapInStep(s[4..]);
      } else if ID_VALUE <= s {
        var n := if Terminator(s[4..]).None? then 4 else 5 + Terminator(s[4..]).value;
        AbsentInSuffix(OVERLAP, s, n);
        NoOverlapInStep(s[n..]);
      } else {
        AbsentInSuffix(OVERLAP, s, 1);
        NoOverlapInStep(s[1..]);
      }
    }
  }

  lemma {:induction false} AbsentHere(pattern: Bytes, s: Bytes)
    requires !Occurs(pattern, s)
    ensures !(pattern <= s)
  {
  }

  lemma {:induction false} SmudgeCases(s: Bytes, id: ObjectId)
    requires s != []
    ensures IdentSmudge(s, id)
            == if ID_PLAIN <= s then Marker(id) + IdentSmudge(s[4..], id)
               else if ID_VALUE <= s then
                 var end := Terminator(s[4..]);
                 if end.None? then ID_VALUE + IdentSmudge(s[4..], id)
                 else
                   (if Collapsible(s[4..4 + end.value]) then Marker(id) else s[..5 + end.value])
                   + IdentSmudge(s[5 + end.value..], id)
               else [s[0]] + IdentSmudge(s[1..], id)
  {
    hide Terminator, Collapsible, Marker;
  }

  lemma {:induction false} CleanCases(s: Bytes)
    requires ID_VALUE <= s
    ensures var end := Terminator(s[4..]);
            IdentClean(s)
            == if end.None? then ID_VALUE + IdentClean(s[4..])
               else
                 (if Collapsible(s[4..4 + end.value]) then ID_PLAIN else s[..5 + end.value])
                 + IdentClean(s[5 + end.value..])
  {
    hide Terminator, Collapsible;
  }

  lemma {:induction false} CleanUnterminated(rest: Bytes)
    requires Terminator(rest).None?
    ensures IdentClean(ID_VALUE + rest) == ID_VALUE + IdentClean(rest)
  {
    hide Terminator, Collapsible;
    assert (ID_VALUE + rest)[4..] == rest;
  }

  lemma {:induction false} CleanTerminated(s: Bytes, k: nat, rest: Bytes)
    requires ID_VALUE <= s && Terminator(s[4..]) == Some(k) && !Collapsible(s[4..4 + k])
    ensures IdentClean(s[..5 + k] + rest) == s[..5 + k] + IdentClean(rest)
  {
    hide Terminator, Collapsible, IdentClean;
    var t := s[..5 + k] + rest;
    TerminatorStable(s[4..], k, rest);
    FrontSlices(s, k, rest);
    CleanCases(t);
  }

  lemma {:induction false} FrontSlices(s: Bytes, k: nat, rest: Bytes)
    requires ID_VALUE <= s && 5 + k <= |s|
    ensures var t := s[..5 + k] + rest;
            && ID_VALUE <= t && t[4..] == s[4..][..k + 1] + rest && t[4..4 + k] == s[4..4 + k]
            && t[..5 + k] == s[..5 + k] && t[5 + k..] == rest
  {
    var front := s[..5 + k];
    var t := front + rest;
    assert |front| == 5 + k && forall i :: 0 <= i < 5 + k ==> t[i] == front[i] == s[i];
    assert t[..4] == s[..4] == ID_VALUE;
    assert t[4..4 + k] == s[4..4 + k];
    assert t[4..] == s[4..][..k + 1] + rest;
  }

  /** Smudging meets a keyword with a value that it replaces. */
  predicate HasValue(s: Bytes)
    decreases |s|
  {
    if s == [] then false
    else if ID_PLAIN <= s then HasValue(s[4..])
    else if ID_VALUE <= s then
      var end := Terminator(s[4..]);
      if end.None? then HasValue(s[4..]) else Collapsible(s[4..4 + end.value]) || HasValue(s[5 + end.value..])
    else HasValue(s[1..])
  }

  /** Collapsing a value makes a text shorter, and nothing makes it longer. */
  lemma {:induction false} CollapsedUnchanged(s: Bytes)
    ensures |Collapsed(s)| <= |s|
    ensures Collapsed(s) == s <==> !HasValue(s)
    decreases |s|
  {
    hide Terminator, Collapsible, Collapsed;
    if s == [] {
      NothingCollapsed(s);
    } else if ID_PLAIN <= s {
      CollapsedCases(s);
      CollapsedUnchanged(s[4..]);
      assert s == ID_PLAIN + s[4..];
      Cancel(ID_PLAIN, Collapsed(s[4..]), s[4..]);
    } else if ID_VALUE <= s {
      CollapsedCases(s);
      var end := Terminator(s[4..]);
      var n := if end.None? then 4 else 5 + end.value;
      CollapsedUnchanged(s[n..]);
      assert s == s[..n] + s[n..] && s[..4] == ID_VALUE;
      Cancel(s[..n], Collapsed(s[n..]), s[n..]);
    } else {
      assert s == [s[0]] + s[1..];
      CollapsedOther(s[0], s[1..]);
      CollapsedUnchanged(s[1..]);
      Cancel([s[0]], Collapsed(s[1..]), s[1..]);
    }
  }

  /**
   * Cleaning gives back exactly what was smudged if and only if smudging met no value; without `$Id:` it meets none.
   */
  lemma {:induction false} IdentCleanUndoesSmudge(s: Bytes, id: ObjectId)
    ensures IdentClean(IdentSmudge(s, id)) == s <==> !HasValue(s)
    ensures !Occurs(ID_VALUE, s) ==> !HasValue(s)
  {
    hide IdentSmudge, IdentClean, Collapsed, HasValue, Occurs;
    SmudgedIsCollapsed(s, id);
    CollapsedUnchanged(s);
    if !Occurs(ID_VALUE, s) { NoValue(s); }
  }

  lemma {:induction false} NoValue(s: Bytes)
    requires !Occurs(ID_VALUE, s)
    ensures !HasValue(s)
    decreases |s|
  {
    hide Occurs, Terminator;
    if s != [] {
      AbsentHere(ID_VALUE, s);
      var n := if ID_PLAIN <= s then 4 else 1;
      AbsentInSuffix(ID_VALUE, s, n);
      NoValue(s[n..]);
    }
  }

  /** An overlap: smudging takes the first keyword, so cleaning leaves a second one that it would have collapsed. */
  lemma {:induction false} OverlapIsNotClean(id: ObjectId)
    ensures var s := [36, 73, 100, 36, 73, 100, 58, 32, 120, 36];
            IdentClean(IdentSmudge(s, id)) == s && IdentClean(s) != s && !InStep(s)
  {
    hide IdentSmudge, IdentClean, Terminator, Collapsible, Marker, Occurs, InStep;
    var s: Bytes := [36, 73, 100, 36, 73, 100, 58, 32, 120, 36];
    var rest: Bytes := [73, 100, 58, 32, 120, 36];
    assert s[4..] == rest && ID_PLAIN <= s;
    SmudgeCases(s, id);
    PlainRest(id);
    MarkerCleaned(id, rest);
    assert ID_PLAIN + rest == s;
    OverlapCleaned();
    IdentCleanAfterSmudge(s, id);
  }

  /** An overlap that does no harm, as no dollar sign ends its value. */
  lemma {:induction false} OverlapInStep()
    ensures Occurs(OVERLAP, OVERLAP) && InStep(OVERLAP)
  {
    var s := OVERLAP;
    var rest := s[4..];
    assert s[..4] == ID_PLAIN && rest == [73, 100, 58] && [DOLLAR] + rest == ID_VALUE;
    assert rest[3..] == [];
  }

  lemma {:induction false} PlainRest(id: ObjectId)
    ensures var rest := [73, 100, 58, 32, 120, 36]; IdentSmudge(rest, id) == rest && IdentClean(rest) == rest
  {
    hide IdentSmudge, IdentClean, Marker;
    var rest: Bytes := [73, 100, 58, 32, 120, 36];
    forall i | 0 <= i < 6 ensures !(ID <= rest[i..]) && !(ID_VALUE <= rest[i..]) {
      assert rest[i..][0] == rest[i];
    }
    IdentSmudgeSkips(rest, id, 6);
    IdentCleanSkips(rest, 6);
    NothingIdent(rest[6..], id);
    assert rest[..6] + [] == rest;
  }

  lemma {:induction false} OverlapCleaned()
    ensures IdentClean([36, 73, 100, 36, 73, 100, 58, 32, 120, 36]) == [36, 73, 100, 36, 73, 100, 36]
  {
    hide IdentClean, Terminator, Collapsible;
    var s: Bytes := [36, 73, 100, 36, 73, 100, 58, 32, 120, 36];
    forall i | 0 <= i < 3 ensures !(ID_VALUE <= s[i..]) {
      assert s[i..][3] == s[i + 3] && s[i..][0] == s[i];
    }
    IdentCleanSkips(s, 3);
    var t := s[3..];
    var word: Bytes := [32, 120];
    assert t == [36, 73, 100, 58, 32, 120, 36] && t[4..] == word + [DOLLAR] + [];
    TerminatorAt(word, []);
    assert t[4..6] == word && t[7..] == [];
    OneLetter();
    CleanCases(t);
    NothingIdent(t[7..], ObjectId(Sha1, seq(20, _ => 0)));
    assert s[..3] + (ID_PLAIN + []) == [36, 73, 100, 36, 73, 100, 36];
  }

  lemma {:induction false} OneLetter()
    ensures Collapsible([32, 120])
  {
    var value: Bytes := [32, 120];
    assert value[1..] == [120];
    assert TrimStart(value[1..]) == value[1..];
    assert TrimEnd(value[1..]) == value[1..];
  }
}
