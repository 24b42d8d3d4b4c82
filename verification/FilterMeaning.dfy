/** What the filters do with each piece of a text (`attributes.rs`). */
module FilterMeaning {
  import opened Common
  import opened Objects
  import opened ObjectText
  import opened Filters

  // ---- Line endings ------------------------------------------------------------------------

  /** Cleaning turns CR LF into LF and copies everything else. */
  lemma {:induction false} EolCleanMeans(b: byte, rest: Bytes)
    ensures ToLf([]) == [] && ToLf([13, 10] + rest) == [10] + ToLf(rest)
    ensures !(b == 13 && rest != [] && rest[0] == 10) ==> ToLf([b] + rest) == [b] + ToLf(rest)
  {
    ToLfOfCrlf(rest);
    if !(b == 13 && rest != [] && rest[0] == 10) { ToLfOfOther(b, rest); }
  }

  /** Every line feed has a carriage return in front of it. */
  predicate NoBareLf(s: Bytes, afterCr: bool)
  {
    s != [] ==> (s[0] == 10 ==> afterCr) && NoBareLf(s[1..], s[0] == 13)
  }

  /** A smudged text has no bare line feed, and is the only such text with its clean form. */
  lemma {:induction false} EolSmudgeMeans(s: Bytes, afterCr: bool)
    ensures NoBareLf(ToCrlf(s, afterCr), afterCr)
  {
    if s != [] {
      if s[0] == 10 && !afterCr {
        EolSmudgeMeans(s[1..], false);
        var t := ToCrlf(s, afterCr);
        assert t[1..] == [10] + ToCrlf(s[1..], false) && t[1..][1..] == ToCrlf(s[1..], false);
      } else {
        EolSmudgeMeans(s[1..], s[0] == 13);
        assert ToCrlf(s, afterCr)[1..] == ToCrlf(s[1..], s[0] == 13);
      }
    }
  }

  /** Texts without bare line feeds are determined by their clean forms. */
  lemma {:induction false} SmudgedIsOnlyOne(s: Bytes, t: Bytes)
    requires NoBareLf(s, false) && NoBareLf(t, false) && ToLf(s) == ToLf(t)
    ensures s == t
    decreases |s|
  {
    hide ToLf;
    FirstLf(s);
    FirstLf(t);
    if s != [] && t != [] {
      if CRLF <= s {
        assert CRLF <= t;
        var x, y := s[2..], t[2..];
        assert s == [CR, LF] + x && t == [CR, LF] + y;
        ToLfOfCrlf(x);
        ToLfOfCrlf(y);
        assert x == s[1..][1..] && y == t[1..][1..];
        assert ToLf(x) == ([LF] + ToLf(x))[1..] && ToLf(y) == ([LF] + ToLf(y))[1..];
        assert NoBareLf(s[1..], true) && NoBareLf(t[1..], true) && s[1..][0] == LF && t[1..][0] == LF;
        SmudgedIsOnlyOne(x, y);
      } else {
        var x, y := s[1..], t[1..];
        assert s == [s[0]] + x && t == [t[0]] + y;
        CrlfStart(s[0], x);
        CrlfStart(t[0], y);
        ToLfOfOther(s[0], x);
        ToLfOfOther(t[0], y);
        assert ToLf(x) == ([s[0]] + ToLf(x))[1..] && ToLf(y) == ([t[0]] + ToLf(y))[1..];
        NotAfterCr(x, s[0] == 13);
        NotAfterCr(y, t[0] == 13);
        SmudgedIsOnlyOne(x, y);
      }
    }
  }

  lemma {:induction false} NotAfterCr(s: Bytes, afterCr: bool)
    requires NoBareLf(s, afterCr) && (afterCr ==> s == [] || s[0] != 10)
    ensures NoBareLf(s, false)
  {
  }

  /** How the clean form begins. */
  lemma {:induction false} FirstLf(s: Bytes)
    requires NoBareLf(s, false)
    ensures s == [] <==> ToLf(s) == []
    ensures s != [] ==> (CRLF <= s <==> ToLf(s)[0] == 10) && (!(CRLF <= s) ==> ToLf(s)[0] == s[0])
  {
  }

  // ---- Keywords ----------------------------------------------------------------------------

  predicate AllSpace(s: Bytes)
  {
    forall i :: 0 <= i < |s| ==> IsSpace(s[i])
  }

  predicate NoSpace(s: Bytes)
  {
    forall i :: 0 <= i < |s| ==> !IsSpace(s[i])
  }

  /** One word, or nothing, between white space. */
  ghost predicate SingleWord(value: Bytes)
  {
    exists before, word, after ::
      value == before + word + after && AllSpace(before) && NoSpace(word) && AllSpace(after)
  }

  lemma {:induction false} TrimStartParts(s: Bytes) returns (front: Bytes)
    ensures s == front + TrimStart(s) && AllSpace(front)
    ensures TrimStart(s) != [] ==> !IsSpace(TrimStart(s)[0])
  {
    front := [];
    if s != [] && IsSpace(s[0]) {
      var more := TrimStartParts(s[1..]);
      front := [s[0]] + more;
      assert s == [s[0]] + s[1..];
    } else {
      assert s == [] + s;
    }
  }

  lemma {:induction false} TrimEndParts(s: Bytes) returns (back: Bytes)
    ensures s == TrimEnd(s) + back && AllSpace(back)
  {
    back := [];
    if s != [] && IsSpace(s[|s| - 1]) {
      var more := TrimEndParts(s[..|s| - 1]);
      back := more + [s[|s| - 1]];
      assert s == s[..|s| - 1] + [s[|s| - 1]];
    } else {
      assert s == s + [];
    }
  }

  lemma {:induction false} TrimStartOf(front: Bytes, rest: Bytes)
    requires AllSpace(front) && (rest != [] ==> !IsSpace(rest[0]))
    ensures TrimStart(front + rest) == rest
  {
    if front == [] {
      assert front + rest == rest;
    } else {
      assert (front + rest)[1..] == front[1..] + rest;
      TrimStartOf(front[1..], rest);
    }
  }

  lemma {:induction false} TrimEndOf(word: Bytes, back: Bytes)
    requires AllSpace(back) && NoSpace(word)
    ensures TrimEnd(word + back) == word
  {
    var n := |back| - 1;
    if back == [] {
      assert word + back == word;
      assert word != [] ==> !IsSpace(word[|word| - 1]);
    } else {
      assert (word + back)[..|word| + n] == word + back[..n] && (word + back)[|word| + n] == back[n];
      TrimEndOf(word, back[..n]);
    }
  }

  /** What `ident_clean_value_is_collapsible` tests. */
  lemma {:induction false} CollapsibleMeans(value: Bytes)
    ensures Collapsible(value) <==> SingleWord(value)
  {
    hide TrimStart, TrimEnd, IsSpace;
    if Collapsible(value) {
      var front := TrimStartParts(value);
      var back := TrimEndParts(TrimStart(value));
      var word := TrimEnd(TrimStart(value));
      assert value == front + word + back;
    }
    if SingleWord(value) {
      var before, word, after :|
        value == before + word + after && AllSpace(before) && NoSpace(word) && AllSpace(after);
      if word == [] {
        NothingBetween(before, after, value);
      } else {
        assert value == before + (word + after);
        TrimStartOf(before, word + after);
        TrimEndOf(word, after);
      }
    }
  }

  lemma {:induction false} NothingBetween(before: Bytes, after: Bytes, value: Bytes)
    requires AllSpace(before) && AllSpace(after) && value == before + [] + after
    ensures Collapsible(value)
  {
    hide TrimEnd, IsSpace;
    assert AllSpace(value);
    TrimStartOf(value, []);
    assert value + [] == value;
    TrimEndOf([], []);
    var nothing: Bytes := [];
    assert nothing + nothing == nothing;
  }

  /** A value that a dollar sign may end: no line end and no dollar sign in it. */
  predicate OneLine(value: Bytes)
  {
    10 !in value && 13 !in value && 36 !in value
  }

  /** `$Id: ` with the id in hexadecimal and ` $`. */
  function Expanded(id: ObjectId): Bytes
  {
    [36, 73, 100, 58, 32] + Hex(id.digest) + [32, 36]
  }

  /** The id can be read from it. */
  lemma {:induction false} ExpandedCarriesId(id: ObjectId)
    ensures FromHex(id.algorithm, Expanded(id)[5..|Expanded(id)| - 2]) == Ok(id)
  {
    hide FromHex;
    assert Expanded(id)[5..|Expanded(id)| - 2] == Hex(id.digest);
    HexRoundTrip(id);
  }

  lemma {:induction false} ExpandedIsMarker(id: ObjectId)
    ensures Marker(id) == Expanded(id)
  {
  }

  /** `$Id:` with a value up to a dollar sign: a single word is collapsed or expanded, anything else is kept. */
  lemma {:induction false} KeywordMeans(value: Bytes, rest: Bytes, id: ObjectId)
    requires OneLine(value)
    ensures var keyword := [36, 73, 100, 58] + value + [36];
            && IdentClean(keyword + rest)
               == (if SingleWord(value) then [36, 73, 100, 36] else keyword) + IdentClean(rest)
            && IdentSmudge(keyword + rest, id)
               == (if SingleWord(value) then Expanded(id) else keyword) + IdentSmudge(rest, id)
  {
    hide IdentClean, IdentSmudge, Collapsible, Terminator, Marker, SingleWord, Expanded;
    var keyword := [36, 73, 100, 58] + value + [36];
    var s := keyword + rest;
    var k := |value|;
    KeywordSlices(value, rest);
    TerminatorAt(value, rest);
    CleanCases(s);
    SmudgeCases(s, id);
    CollapsibleMeans(value);
    ExpandedIsMarker(id);
  }

  lemma {:induction false} KeywordSlices(value: Bytes, rest: Bytes)
    ensures var keyword := [36, 73, 100, 58] + value + [36];
            var s := keyword + rest;
            && ID_VALUE <= s && !(ID_PLAIN <= s) && s[4..] == value + [DOLLAR] + rest && s[4..4 + |value|] == value
            && s[5 + |value|..] == rest && s[..5 + |value|] == keyword
  {
    var keyword := [36, 73, 100, 58] + value + [36];
    var s := keyword + rest;
    assert s[..4] == ID_VALUE && s[3] == 58 && ID_PLAIN[3] == 36;
    assert s[4..] == value + [DOLLAR] + rest;
    assert s[4..4 + |value|] == s[4..][..|value|];
  }

  /** `$Id:` without a dollar sign on its line is kept, and so is the search for keywords behind it. */
  lemma {:induction false} OpenKeywordMeans(value: Bytes, rest: Bytes, id: ObjectId)
    requires OneLine(value) && (rest == [] || rest[0] == 10 || rest[0] == 13)
    ensures IdentClean([36, 73, 100, 58] + (value + rest)) == [36, 73, 100, 58] + IdentClean(value + rest)
    ensures IdentSmudge([36, 73, 100, 58] + (value + rest), id) == [36, 73, 100, 58] + IdentSmudge(value + rest, id)
  {
    hide IdentClean, IdentSmudge, Collapsible, Terminator, Marker;
    var s := [36, 73, 100, 58] + (value + rest);
    NoTerminator(value, rest);
    assert s[..4] == ID_VALUE && s[4..] == value + rest && s[3] == 58 && ID_PLAIN[3] == 36;
    CleanCases(s);
    SmudgeCases(s, id);
  }

  lemma {:induction false} NoTerminator(value: Bytes, rest: Bytes)
    requires OneLine(value) && (rest == [] || rest[0] == 10 || rest[0] == 13)
    ensures Terminator(value + rest).None?
  {
    if value == [] {
      assert value + rest == rest;
    } else {
      assert (value + rest)[1..] == value[1..] + rest && value[0] in value;
      NoTerminator(value[1..], rest);
    }
  }

  /** `$Id$` is expanded, and copied by cleaning. */
  lemma {:induction false} PlainKeywordMeans(rest: Bytes, id: ObjectId)
    ensures IdentSmudge([36, 73, 100, 36] + rest, id) == Expanded(id) + IdentSmudge(rest, id)
  {
    hide IdentSmudge, Terminator, Collapsible, Marker, Expanded;
    var s := [36, 73, 100, 36] + rest;
    assert s[..4] == ID_PLAIN && s[4..] == rest;
    SmudgeCases(s, id);
    ExpandedIsMarker(id);
  }

  /** Any byte that starts no keyword is copied. */
  lemma {:induction false} OtherByteMeans(b: byte, rest: Bytes, id: ObjectId)
    ensures !([36, 73, 100, 58] <= [b] + rest) ==> IdentClean([b] + rest) == [b] + IdentClean(rest)
    ensures !([36, 73, 100, 58] <= [b] + rest) && !([36, 73, 100, 36] <= [b] + rest) ==>
              IdentSmudge([b] + rest, id) == [b] + IdentSmudge(rest, id)
    ensures IdentClean([]) == [] && IdentSmudge([], id) == []
  {
    hide Terminator, Collapsible, Marker, IdentClean, IdentSmudge;
    NothingIdent([], id);
    if !([36, 73, 100, 58] <= [b] + rest) {
      CleanOther(b, rest);
      SmudgeCases([b] + rest, id);
      assert ([b] + rest)[1..] == rest;
    }
  }
}
