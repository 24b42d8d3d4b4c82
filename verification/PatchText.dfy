/** What the text that a patch id is taken of means in terms of the bytes of the patch (`patch_id.rs`). */
module PatchText {
  import opened Common
  import opened ObjectText
  import opened Utf8
  import opened PatchId
  import opened PatchSections

  /** Tab, line feed, form feed, carriage return and space. */
  predicate White(b: byte)
  {
    b == 9 || b == 10 || b == 12 || b == 13 || b == 32
  }

  /** How many of the first `k` bytes are not white. */
  function InkBefore(text: Bytes, k: nat): (n: nat)
    requires k <= |text|
    ensures n <= k
  {
    if k == 0 then 0 else InkBefore(text, k - 1) + if White(text[k - 1]) then 0 else 1
  }

  /** `ink` has the bytes of `text` that are not white, all of them and in their order, and no others. */
  ghost predicate Ink(text: Bytes, ink: Bytes)
  {
    && |ink| == InkBefore(text, |text|)
    && forall k :: 0 <= k < |text| && !White(text[k]) ==>
         InkBefore(text, k) < |ink| && ink[InkBefore(text, k)] == text[k]
  }

  /** The texts differ in white space only. */
  ghost predicate SameInk(a: Bytes, b: Bytes)
  {
    exists ink :: Ink(a, ink) && Ink(b, ink)
  }

  lemma {:induction false} StripConcat(x: Bytes, y: Bytes)
    ensures WithoutSpaces(x + y) == WithoutSpaces(x) + WithoutSpaces(y)
  {
    if x == [] {
      assert x + y == y;
    } else {
      assert (x + y)[1..] == x[1..] + y;
      StripConcat(x[1..], y);
    }
  }

  lemma {:induction false} StripByte(b: byte)
    ensures WithoutSpaces([b]) == if White(b) then [] else [b]
    ensures WithoutSpaces([]) == []
  {
    assert [b][1..] == [];
  }

  /** The ink of a front part is a front part of the ink. */
  lemma {:induction false} StripFront(text: Bytes, k: nat)
    requires k <= |text|
    ensures |WithoutSpaces(text[..k])| == InkBefore(text, k)
    ensures k < |text| ==>
              WithoutSpaces(text[..k + 1]) == WithoutSpaces(text[..k]) + if White(text[k]) then [] else [text[k]]
    ensures WithoutSpaces(text) == WithoutSpaces(text[..k]) + WithoutSpaces(text[k..])
  {
    hide WithoutSpaces;
    assert text == text[..k] + text[k..];
    StripConcat(text[..k], text[k..]);
    if k < |text| {
      assert text[..k + 1] == text[..k] + [text[k]];
      StripConcat(text[..k], [text[k]]);
      StripByte(text[k]);
    }
    if k == 0 {
      StripByte(0);
      assert text[..0] == [];
    } else {
      StripFront(text, k - 1);
    }
  }

  lemma {:induction false} StrippedInk(text: Bytes)
    ensures Ink(text, WithoutSpaces(text))
  {
    hide WithoutSpaces, InkBefore;
    StripFront(text, |text|);
    assert text[..|text|] == text;
    forall k | 0 <= k < |text| && !White(text[k])
      ensures InkBefore(text, k) < |WithoutSpaces(text)| && WithoutSpaces(text)[InkBefore(text, k)] == text[k]
    {
      StripFront(text, k);
      StripFront(text, k + 1);
    }
  }

  lemma {:induction false} InkFront(text: Bytes, ink: Bytes, k: nat)
    requires Ink(text, ink) && k <= |text|
    ensures InkBefore(text, k) <= |ink| && ink[..InkBefore(text, k)] == WithoutSpaces(text[..k])
  {
    hide WithoutSpaces, InkBefore;
    InkGrows(text, k);
    if k == 0 {
      StripByte(0);
      NoInkYet(text);
      assert text[..0] == [] && ink[..0] == [];
    } else {
      InkFront(text, ink, k - 1);
      StripFront(text, k - 1);
      NextInk(text, k - 1);
      var n := InkBefore(text, k - 1);
      if !White(text[k - 1]) { assert ink[..n + 1] == ink[..n] + [ink[n]]; }
    }
  }

  lemma {:induction false} NoInkYet(text: Bytes)
    ensures InkBefore(text, 0) == 0
  {
  }

  lemma {:induction false} NextInk(text: Bytes, k: nat)
    requires k < |text|
    ensures InkBefore(text, k + 1) == InkBefore(text, k) + if White(text[k]) then 0 else 1
  {
  }

  lemma {:induction false} InkGrows(text: Bytes, k: nat)
    requires k <= |text|
    ensures InkBefore(text, k) <= InkBefore(text, |text|)
    decreases |text| - k
  {
    if k < |text| { InkGrows(text, k + 1); }
  }

  lemma {:induction false} InkStripped(text: Bytes, ink: Bytes)
    requires Ink(text, ink)
    ensures ink == WithoutSpaces(text)
  {
    hide WithoutSpaces, InkBefore;
    InkFront(text, ink, |text|);
    assert text[..|text|] == text && ink[..|ink|] == ink;
  }

  /** In verbatim mode a line is hashed as it is, in the others exactly its bytes that are not white. */
  lemma {:induction false} NormalizeMeans(mode: Mode, line: Bytes, ink: Bytes)
    ensures mode == Verbatim ==> Normalize(mode, line) == line
    ensures mode != Verbatim ==> (Ink(line, ink) <==> Normalize(mode, line) == ink)
  {
    hide WithoutSpaces;
    if Ink(line, ink) { InkStripped(line, ink); }
    StrippedInk(line);
  }

  // ---- Sections ----------------------------------------------------------------------------

  function Concat(lines: seq<Bytes>): Bytes
  {
    if lines == [] then [] else lines[0] + Concat(lines[1..])
  }

  /** The header lines, but those that start with `index `. */
  function HashedHeaders(headers: seq<Bytes>): seq<Bytes>
  {
    if headers == [] then []
    else (if [105, 110, 100, 101, 120, 32] <= headers[0] then [] else [headers[0]]) + HashedHeaders(headers[1..])
  }

  /** The lines of a hunk, but those that start with `\ ` and have more than twelve bytes. */
  function HashedBody(body: seq<Bytes>): seq<Bytes>
  {
    if body == [] then []
    else (if [92, 32] <= body[0] && |body[0]| > 12 then [] else [body[0]]) + HashedBody(body[1..])
  }

  function HashedHunks(hunks: seq<Hunk>): seq<Bytes>
  {
    if hunks == [] then [] else HashedBody(hunks[0].body) + HashedHunks(hunks[1..])
  }

  /** The lines of a section that are hashed: no `index` lines, no hunk headers and no remarks. */
  function HashedLines(s: Section): seq<Bytes>
  {
    [s.diff] + HashedHeaders(s.headers) + [s.oldFile, s.newFile] + HashedHunks(s.hunks)
  }

  function Normalized(mode: Mode, lines: seq<Bytes>): Bytes
  {
    Normalize(mode, Concat(lines))
  }

  lemma {:induction false} NormalizeConcat(mode: Mode, x: Bytes, y: Bytes)
    ensures Normalize(mode, x + y) == Normalize(mode, x) + Normalize(mode, y)
    ensures Normalize(mode, []) == []
  {
    StripConcat(x, y);
  }

  lemma {:induction false} ConcatAppend(xs: seq<Bytes>, ys: seq<Bytes>)
    ensures Concat(xs + ys) == Concat(xs) + Concat(ys)
  {
    if xs == [] {
      assert xs + ys == ys;
    } else {
      assert (xs + ys)[1..] == xs[1..] + ys;
      ConcatAppend(xs[1..], ys);
    }
  }

  lemma {:induction false} NormalizedAppend(mode: Mode, xs: seq<Bytes>, ys: seq<Bytes>)
    ensures Normalized(mode, xs + ys) == Normalized(mode, xs) + Normalized(mode, ys)
    ensures Normalized(mode, []) == []
  {
    hide Normalize, Concat;
    ConcatAppend(xs, ys);
    NormalizeConcat(mode, Concat(xs), Concat(ys));
    NothingConcat();
  }

  lemma {:induction false} NothingConcat()
    ensures Concat([]) == []
  {
  }

  lemma {:induction false} NormalizedOne(mode: Mode, line: Bytes)
    ensures Normalized(mode, [line]) == Normalize(mode, line)
  {
    hide Normalize;
    assert [line][1..] == [];
    assert Concat([line]) == line;
  }

  lemma {:induction false} HeadersHashed(mode: Mode, headers: seq<Bytes>)
    ensures HeaderText(mode, headers) == Normalized(mode, HashedHeaders(headers))
  {
    hide Normalize, Normalized;
    NormalizedAppend(mode, [], []);
    if headers != [] {
      HeadersHashed(mode, headers[1..]);
      NormalizedOne(mode, headers[0]);
      var first := if [105, 110, 100, 101, 120, 32] <= headers[0] then [] else [headers[0]];
      NormalizedAppend(mode, first, HashedHeaders(headers[1..]));
    }
  }

  lemma {:induction false} BodyHashed(mode: Mode, body: seq<Bytes>)
    ensures BodyText(mode, body) == Normalized(mode, HashedBody(body))
  {
    hide Normalize, Normalized;
    NormalizedAppend(mode, [], []);
    if body != [] {
      BodyHashed(mode, body[1..]);
      NormalizedOne(mode, body[0]);
      var first := if [92, 32] <= body[0] && |body[0]| > 12 then [] else [body[0]];
      NormalizedAppend(mode, first, HashedBody(body[1..]));
    }
  }

  lemma {:induction false} HunksHashed(mode: Mode, hunks: seq<Hunk>)
    ensures HunkText(mode, hunks) == Normalized(mode, HashedHunks(hunks))
  {
    hide Normalize, Normalized, BodyText, HashedBody;
    NormalizedAppend(mode, [], []);
    if hunks != [] {
      HunksHashed(mode, hunks[1..]);
      BodyHashed(mode, hunks[0].body);
      NormalizedAppend(mode, HashedBody(hunks[0].body), HashedHunks(hunks[1..]));
    }
  }

  lemma {:induction false} SectionHashed(mode: Mode, s: Section)
    ensures SectionText(mode, s) == Normalized(mode, HashedLines(s))
  {
    hide Normalize, Normalized, HeaderText, HunkText, HashedHeaders, HashedHunks;
    HeadersHashed(mode, s.headers);
    HunksHashed(mode, s.hunks);
    NormalizedOne(mode, s.diff);
    NormalizedOne(mode, s.oldFile);
    NormalizedOne(mode, s.newFile);
    assert [s.oldFile, s.newFile] == [s.oldFile] + [s.newFile];
    NormalizedAppend(mode, [s.oldFile], [s.newFile]);
    NormalizedAppend(mode, [s.diff], HashedHeaders(s.headers));
    NormalizedAppend(mode, [s.diff] + HashedHeaders(s.headers), [s.oldFile, s.newFile]);
    NormalizedAppend(mode, [s.diff] + HashedHeaders(s.headers) + [s.oldFile, s.newFile], HashedHunks(s.hunks));
    ConcatAssoc(Normalize(mode, s.diff) + HeaderText(mode, s.headers), Normalize(mode, s.oldFile),
                Normalize(mode, s.newFile));
  }

  /**
   * The text that is hashed of a section: in verbatim mode its hashed lines as they are, in the others the bytes of
   * these lines that are not white, every one of them and in their order.
   */
  lemma {:induction false} SectionTextMeans(mode: Mode, s: Section)
    ensures mode == Verbatim ==> SectionText(mode, s) == Concat(HashedLines(s))
    ensures mode != Verbatim ==> Ink(Concat(HashedLines(s)), SectionText(mode, s))
  {
    hide Normalize, SectionText, HashedLines, Ink;
    SectionHashed(mode, s);
    NormalizeMeans(mode, Concat(HashedLines(s)), SectionText(mode, s));
  }

  /** So two sections are hashed alike if and only if their hashed lines differ in white space only. */
  lemma {:induction false} SameSectionText(mode: Mode, s: Section, t: Section)
    requires mode != Verbatim
    ensures SectionText(mode, s) == SectionText(mode, t) <==> SameInk(Concat(HashedLines(s)), Concat(HashedLines(t)))
  {
    hide Normalize, SectionText, HashedLines, Ink;
    SectionTextMeans(mode, s);
    SectionTextMeans(mode, t);
    var x, y := Concat(HashedLines(s)), Concat(HashedLines(t));
    if ink :| Ink(x, ink) && Ink(y, ink) {
      SectionHashed(mode, s);
      SectionHashed(mode, t);
      NormalizeMeans(mode, x, ink);
      NormalizeMeans(mode, y, ink);
    }
  }

  ghost predicate SameButWhite(xs: seq<Section>, ys: seq<Section>)
  {
    && |xs| == |ys|
    && forall i :: 0 <= i < |xs| ==> SameInk(Concat(HashedLines(xs[i])), Concat(HashedLines(ys[i])))
  }

  lemma {:induction false} SameTexts(mode: Mode, xs: seq<Section>, ys: seq<Section>)
    requires mode != Verbatim && SameButWhite(xs, ys)
    ensures PatchText(mode, xs) == PatchText(mode, ys)
    ensures mode == Stable ==> SectionTexts(xs) == SectionTexts(ys)
  {
    hide SectionText, HashedLines, SameInk;
    if xs != [] {
      var n := |xs| - 1;
      SameSectionText(mode, xs[n], ys[n]);
      SameTexts(mode, xs[..n], ys[..n]);
    }
  }

  /** Patches that differ in white space only have the same id, but for verbatim ids. */
  lemma {:induction false} WhiteSpaceDoesNotMatter(digest: Digest, mode: Mode, p: seq<Bytes>, xs: seq<Section>,
                                                   q: seq<Bytes>, ys: seq<Section>, r: seq<Bytes>, t: seq<Bytes>,
                                                   xid: Bytes, yid: Bytes)
    requires mode != Verbatim && IsPrologue(p) && IsPrologue(q) && EndsPatch(r) && EndsPatch(t)
    requires AllWellFormed(xs) && xs != [] && AllWellFormed(ys) && ys != [] && SameButWhite(Taken(xs), Taken(ys))
    requires |xid| == 20
             && Number(xid) == SumOf(digest, Flush(ReadLines(mode, START, p + PatchLines(xs) + r).final).flushed)
    requires |yid| == 20
             && Number(yid) == SumOf(digest, Flush(ReadLines(mode, START, q + PatchLines(ys) + t).final).flushed)
    ensures xid == yid
  {
    hide *;
    PatchIdMeaning(mode, p, xs, r);
    PatchIdMeaning(mode, q, ys, t);
    SameTexts(mode, Taken(xs), Taken(ys));
    NumberInjective(xid, yid);
  }

  // ---- Hunk headers and commit names -------------------------------------------------------

  /** A range of a hunk header: the first line, and the number of lines unless that is one. */
  function RangeText(start: nat, count: Option<nat>): Bytes
  {
    Decimal(start) + if count.None? then [] else [44] + Decimal(count.value)
  }

  lemma {:induction false} DecimalIsAsciiDigits(n: nat)
    ensures forall i :: 0 <= i < |Decimal(n)| ==> 48 <= Decimal(n)[i] <= 57
  {
  }

  lemma {:induction false} CountOfRange(start: nat, count: Option<nat>)
    requires count.Some? ==> count.value <= 0x7fff_ffff_ffff_ffff
    ensures HunkCount(RangeText(start, count)) == Some(if count.None? then 1 else count.value)
  {
    hide Decimal, IndexOf, ParseI64;
    DecimalIsAsciiDigits(start);
    var first, text := Decimal(start), RangeText(start, count);
    if count.Some? {
      IndexOfFirst(first, 44, Decimal(count.value));
      assert text == first + [44] + Decimal(count.value);
      assert text[|first| + 1..] == Decimal(count.value);
      I64RoundTrip(count.value);
    } else {
      assert text == first;
      NoComma(first);
    }
  }

  lemma {:induction false} NoComma(s: Bytes)
    requires 44 !in s
    ensures IndexOf(s, 44) == |s|
  {
  }

  lemma {:induction false} WordThenSpace(word: Bytes, rest: Bytes)
    requires forall i :: 0 <= i < |word| ==> 33 <= word[i] < 127
    ensures UntilWhiteSpace(word + [SPACE] + rest) == word
  {
    var s := word + [SPACE] + rest;
    if word == [] {
      assert DecodeScalar(s) == Some((SPACE, 1));
    } else {
      assert DecodeScalar(s) == Some((word[0], 1));
      assert s[1..] == word[1..] + [SPACE] + rest && s[..1] == [word[0]];
      WordThenSpace(word[1..], rest);
      assert word == [word[0]] + word[1..];
    }
  }

  lemma {:induction false} FirstWordOf(word: Bytes, rest: Bytes)
    requires word != [] && forall i :: 0 <= i < |word| ==> 33 <= word[i] < 127
    ensures FirstWord(word + [SPACE] + rest) == word
  {
    hide UntilWhiteSpace;
    WordThenSpace(word, rest);
    var s := word + [SPACE] + rest;
    assert DecodeScalar(s) == Some((word[0], 1));
    assert SkipWhiteSpace(s) == s;
  }

  /** The counts of the header `@@ -a,b +c,d ` are `b` and `d`; a count that is left out is one. */
  lemma {:induction false} HeaderCountsMean(a: nat, b: Option<nat>, c: nat, d: Option<nat>, rest: Bytes)
    requires b.Some? ==> b.value <= 0x7fff_ffff_ffff_ffff
    requires d.Some? ==> d.value <= 0x7fff_ffff_ffff_ffff
    ensures HeaderCounts([64, 64, 32, 45] + RangeText(a, b) + [32, 43] + RangeText(c, d) + [32] + rest)
            == Some((if b.None? then 1 else b.value, if d.None? then 1 else d.value))
  {
    hide RangeText, HunkCount, FirstWord, IndexOf;
    var olds, news := RangeText(a, b), RangeText(c, d);
    var line := [64, 64, 32, 45] + olds + [32, 43] + news + [32] + rest;
    RangeIsWord(a, b);
    RangeIsWord(c, d);
    var after := [43] + (news + [32] + rest);
    assert line[4..] == olds + [32] + after;
    IndexOfFirst(olds, 32, after);
    assert line[4..][..|olds|] == olds && line[4..][|olds| + 1..] == after && after[1..] == news + [32] + rest;
    FirstWordOf(news, rest);
    CountOfRange(a, b);
    CountOfRange(c, d);
    assert line[..4] == HUNK && after[..1] == [PLUS];
  }

  lemma {:induction false} RangeIsWord(start: nat, count: Option<nat>)
    ensures RangeText(start, count) != [] && forall i :: 0 <= i < |RangeText(start, count)| ==>
              33 <= RangeText(start, count)[i] < 127
    ensures SPACE !in RangeText(start, count)
  {
    hide Decimal;
    DecimalIsAsciiDigits(start);
    if count.Some? { DecimalIsAsciiDigits(count.value); }
  }

  /** Nothing, `diff-tree `, `commit ` and `From `. */
  const OID_PREFIXES: set<Bytes> := {
    [], [100, 105, 102, 102, 45, 116, 114, 101, 101, 32], [99, 111, 109, 109, 105, 116, 32], [70, 114, 111, 109, 32]}

  predicate HexDigits(s: Bytes)
  {
    forall i :: 0 <= i < |s| ==> 48 <= s[i] <= 57 || 65 <= s[i] <= 70 || 97 <= s[i] <= 102
  }

  /** A line names the commit whose forty hexadecimal digits it begins with, or has behind one of three words. */
  lemma {:induction false} NamedCommit(line: Bytes, oid: Bytes)
    ensures LeadingOid(OidText(line).0) == Some(oid) <==>
            |oid| == 40 && HexDigits(oid) && exists p :: p in OID_PREFIXES && p + oid <= line
  {
    hide LeadingOid;
    LeadingMeans(OidText(line).0, oid);
    var p0 := if DIFF_TREE <= line then DIFF_TREE else if COMMIT <= line then COMMIT
              else if FROM <= line then FROM else [];
    assert line == p0 + OidText(line).0;
    assert p0 in OID_PREFIXES;
    if |oid| == 40 && HexDigits(oid) {
      if oid <= OidText(line).0 { PrefixBehind(p0, oid, OidText(line).0); }
      if p :| p in OID_PREFIXES && p + oid <= line {
        OnePrefix(line, oid, p, p0);
      }
    }
  }

  lemma {:induction false} LeadingMeans(text: Bytes, oid: Bytes)
    ensures LeadingOid(text) == Some(oid) <==> |oid| == 40 && HexDigits(oid) && oid <= text
  {
    if LeadingOid(text) == Some(oid) {
      assert forall i :: 0 <= i < 40 ==> oid[i] == text[i] && HexNibble(text[i]).Some?;
    }
    if |oid| == 40 && HexDigits(oid) && oid <= text {
      assert text[..40] == oid;
      assert forall i :: 0 <= i < 40 ==> text[i] == oid[i];
    }
  }

  lemma {:induction false} PrefixBehind(p: Bytes, oid: Bytes, text: Bytes)
    ensures p + oid <= p + text <==> oid <= text
  {
    if p + oid <= p + text {
      assert oid == (p + oid)[|p|..] && text == (p + text)[|p|..];
      assert (p + text)[|p|..][..|oid|] == (p + text)[..|p + oid|][|p|..] == oid;
    }
    if oid <= text { assert (p + text)[..|p + oid|] == p + text[..|oid|]; }
  }

  lemma {:induction false} OnePrefix(line: Bytes, oid: Bytes, p: Bytes, p0: Bytes)
    requires p in OID_PREFIXES && p + oid <= line && |oid| == 40 && HexDigits(oid)
    requires p0 == if DIFF_TREE <= line then DIFF_TREE else if COMMIT <= line then COMMIT else if FROM <= line then FROM
                   else []
    ensures p == p0 && oid <= OidText(line).0
  {
    var front := p + oid;
    assert forall i :: 0 <= i < |front| ==> line[i] == front[i];
    assert line[1] == front[1];
    if p == [] {
      assert front == oid && HexDigits(oid) && line[1] == oid[1];
      assert DIFF_TREE[1] == 105 && COMMIT[1] == 111 && FROM[1] == 114;
    } else {
      assert front[0] == p[0] && front[1] == p[1];
      assert p <= line by { assert line[..|p|] == front[..|p|] == p; }
      assert DIFF_TREE[0] == 100 && COMMIT[0] == 99 && FROM[0] == 70;
    }
    assert line == p0 + OidText(line).0;
    PrefixBehind(p0, oid, OidText(line).0);
  }

  // ---- Any line ----------------------------------------------------------------------------

  /** A remark of more than twelve bytes, or a line in front of the first `diff `. */
  predicate PassedOver(st: State, line: Bytes)
  {
    ([92, 32] <= line && |line| > 12) || (st.patchLen == 0 && !([100, 105, 102, 102, 32] <= line))
  }

  /** In front of `--- ` a line must start with a letter; behind a hunk there must be `@@ -` or `diff `. */
  predicate Unexpected(st: State, line: Bytes)
  {
    if st.before == -1 then
      && !([45, 45, 45, 32] <= line)
      && (line == [] || !(65 <= line[0] <= 90 || 97 <= line[0] <= 122))
    else
      st.before == 0 && st.after == 0 && !([64, 64, 32, 45] <= line) && !([100, 105, 102, 102, 32] <= line)
  }

  /** `index ` in front of `--- `, and `@@ -` between two hunks. */
  predicate NotHashed(st: State, line: Bytes)
  {
    || (st.before == -1 && [105, 110, 100, 101, 120, 32] <= line)
    || (st.before == 0 && st.after == 0 && [64, 64, 32, 45] <= line)
  }

  /** What any line does, whatever the patch looks like. The counts of a hunk are those of its header. */
  lemma {:induction false} LineMeans(mode: Mode, st: State, line: Bytes)
    requires !NamesCommit(line)
    ensures ReadLine(mode, st, line).Stop? <==> !PassedOver(st, line) && Unexpected(st, line)
    ensures ReadLine(mode, st, line).Stop? ==> ReadLine(mode, st, line).nextOid.None?
    ensures PassedOver(st, line) ==> ReadLine(mode, st, line) == Go(st)
    ensures !PassedOver(st, line) && NotHashed(st, line) ==>
              var counts := ScanHunkHeader(line);
              ReadLine(mode, st, line)
              == Go(if st.before == -1 || counts.None? then st
                    else st.(before := counts.value.0, after := counts.value.1))
    ensures !PassedOver(st, line) && !NotHashed(st, line) && !Unexpected(st, line) ==>
              var minus := line != [] && (line[0] == 45 || line[0] == 32);
              var plus := line != [] && (line[0] == 43 || line[0] == 32);
              var ended := st.before == 0 && st.after == 0;
              var starts := st.before == -1 && [45, 45, 45, 32] <= line;
              var before := if ended then -1 else if starts then 1 else st.before;
              var after := if ended then -1 else if starts then 1 else st.after;
              var text := Normalize(mode, line);
              ReadLine(mode, st, line)
              == Go(State(st.patchLen + |text|, if minus then OneLess(before) else before,
                          if plus then OneLess(after) else after,
                          (if ended && mode == Stable then [] else st.hasher) + text,
                          if ended && mode == Stable then st.flushed + [st.hasher] else st.flushed))
  {
    hide Normalize, ScanHunkHeader, LeadingOid;
  }
}
