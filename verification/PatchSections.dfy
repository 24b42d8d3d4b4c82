/** What the patch id of a well-formed patch is: the sum of the digests of its file sections (`patch_id.rs`). */
module PatchSections {
  import opened Common
  import opened ObjectText
  import opened Utf8
  import opened PatchId

  datatype Hunk = Hunk(header: Bytes, body: seq<Bytes>)

  /** The part of a patch about one file. */
  datatype Section = Section(diff: Bytes, headers: seq<Bytes>, oldFile: Bytes, newFile: Bytes, hunks: seq<Hunk>)

  predicate IsOld(line: Bytes)
  {
    line != [] && (line[0] == MINUS || line[0] == SPACE)
  }

  predicate IsNew(line: Bytes)
  {
    line != [] && (line[0] == PLUS || line[0] == SPACE)
  }

  /** The remark that a file does not end in a line feed. */
  predicate IsRemark(line: Bytes)
  {
    NO_NEWLINE <= line && |line| > 12
  }

  function OldLines(body: seq<Bytes>): nat
  {
    if body == [] then 0 else (if IsOld(body[0]) then 1 else 0) + OldLines(body[1..])
  }

  function NewLines(body: seq<Bytes>): nat
  {
    if body == [] then 0 else (if IsNew(body[0]) then 1 else 0) + NewLines(body[1..])
  }

  predicate NamesCommit(line: Bytes)
  {
    LeadingOid(OidText(line).0).Some?
  }

  /** The counts in the header are those of the body, and the body has nothing but counted lines and remarks. */
  predicate CountedHunk(h: Hunk)
  {
    && HUNK <= h.header && HeaderCounts(h.header) == Some((OldLines(h.body), NewLines(h.body)))
    && forall i :: 0 <= i < |h.body| ==> IsOld(h.body[i]) || IsNew(h.body[i]) || IsRemark(h.body[i])
  }

  /** A header that is not UTF-8 is passed over, which does no harm to a body without counted lines. */
  predicate ReadableHunk(h: Hunk)
  {
    ValidUtf8(h.header) || OldLines(h.body) + NewLines(h.body) == 0
  }

  predicate WellFormedHeader(line: Bytes)
  {
    line != [] && IsLetter(line[0]) && !NamesCommit(line)
  }

  /** A section whose hunk headers count the lines of their hunks. */
  predicate WellFormed(s: Section)
  {
    && DIFF <= s.diff && OLD_FILE <= s.oldFile && NEW_FILE <= s.newFile
    && (forall i :: 0 <= i < |s.headers| ==> WellFormedHeader(s.headers[i]))
    && forall i :: 0 <= i < |s.hunks| ==> CountedHunk(s.hunks[i])
  }

  /** The hunks in front of the first unreadable one. */
  function IntactHunks(hunks: seq<Hunk>): (n: nat)
    ensures n <= |hunks| && (n < |hunks| ==> !ReadableHunk(hunks[n]))
    ensures forall i :: 0 <= i < n ==> ReadableHunk(hunks[i])
  {
    if hunks == [] || !ReadableHunk(hunks[0]) then 0 else 1 + IntactHunks(hunks[1..])
  }

  predicate Readable(s: Section)
  {
    forall i :: 0 <= i < |s.hunks| ==> ReadableHunk(s.hunks[i])
  }

  /** The section up to the header that cannot be read. */
  function Cut(s: Section): Section
  {
    s.(hunks := s.hunks[..IntactHunks(s.hunks)])
  }

  function HunkLines(hunks: seq<Hunk>): seq<Bytes>
  {
    if hunks == [] then [] else [hunks[0].header] + hunks[0].body + HunkLines(hunks[1..])
  }

  function SectionLines(s: Section): seq<Bytes>
  {
    [s.diff] + s.headers + [s.oldFile, s.newFile] + HunkLines(s.hunks)
  }

  function PatchLines(sections: seq<Section>): seq<Bytes>
  {
    if sections == [] then [] else PatchLines(sections[..|sections| - 1]) + SectionLines(sections[|sections| - 1])
  }

  // ---- The text that is hashed -------------------------------------------------------------

  /** All header lines but the `index` line. */
  function HeaderText(mode: Mode, headers: seq<Bytes>): Bytes
  {
    if headers == [] then []
    else (if INDEX <= headers[0] then [] else Normalize(mode, headers[0])) + HeaderText(mode, headers[1..])
  }

  function BodyText(mode: Mode, body: seq<Bytes>): Bytes
  {
    if body == [] then []
    else (if IsRemark(body[0]) then [] else Normalize(mode, body[0])) + BodyText(mode, body[1..])
  }

  /** Hunk headers are not hashed, so that moving a hunk does not matter. */
  function HunkText(mode: Mode, hunks: seq<Hunk>): Bytes
  {
    if hunks == [] then [] else BodyText(mode, hunks[0].body) + HunkText(mode, hunks[1..])
  }

  function SectionText(mode: Mode, s: Section): Bytes
  {
    Normalize(mode, s.diff) + HeaderText(mode, s.headers) + Normalize(mode, s.oldFile) + Normalize(mode, s.newFile)
    + HunkText(mode, s.hunks)
  }

  function PatchText(mode: Mode, sections: seq<Section>): Bytes
  {
    if sections == [] then []
    else PatchText(mode, sections[..|sections| - 1]) + SectionText(mode, sections[|sections| - 1])
  }

  /** The texts of the single sections. */
  function SectionTexts(sections: seq<Section>): seq<Bytes>
  {
    if sections == [] then []
    else SectionTexts(sections[..|sections| - 1]) + [SectionText(Stable, sections[|sections| - 1])]
  }

  /** The sum of the section digests modulo 2^160. */
  function SectionSum(digest: Digest, sections: seq<Section>): nat
  {
    SumOf(digest, SectionTexts(sections))
  }

  // ---- Runs without a stop -----------------------------------------------------------------

  /** The state after all `lines`, if none of them ends the patch. */
  function Run(mode: Mode, st: State, lines: seq<Bytes>): Option<State>
    decreases lines
  {
    if lines == [] then Some(st) else
    match ReadLine(mode, st, lines[0])
    case Stop(_) => None
    case Go(next) => Run(mode, next, lines[1..])
  }

  lemma {:induction false} RunAppend(mode: Mode, st: State, xs: seq<Bytes>, ys: seq<Bytes>, mid: State)
    requires Run(mode, st, xs) == Some(mid)
    ensures Run(mode, st, xs + ys) == Run(mode, mid, ys)
    decreases xs
  {
    hide ReadLine;
    if xs == [] {
      assert xs + ys == ys;
    } else {
      assert (xs + ys)[1..] == xs[1..] + ys;
      RunAppend(mode, ReadLine(mode, st, xs[0]).state, xs[1..], ys, mid);
    }
  }

  lemma {:induction false} ReadAfterRun(mode: Mode, st: State, xs: seq<Bytes>, ys: seq<Bytes>, mid: State)
    requires Run(mode, st, xs) == Some(mid)
    ensures var rest := ReadLines(mode, mid, ys);
            ReadLines(mode, st, xs + ys) == rest.(read := rest.read + |xs|)
    decreases xs
  {
    hide ReadLine;
    if xs == [] {
      assert xs + ys == ys;
    } else {
      assert (xs + ys)[1..] == xs[1..] + ys;
      ReadAfterRun(mode, ReadLine(mode, st, xs[0]).state, xs[1..], ys, mid);
    }
  }

  /** `text` has been hashed in addition. */
  function Hashed(st: State, text: Bytes): State
  {
    st.(patchLen := st.patchLen + |text|, hasher := st.hasher + text)
  }

  function Counting(st: State, before: int, after: int): State
  {
    st.(before := before, after := after)
  }

  lemma {:induction false} CountingHashed(st: State, text: Bytes, b: int, a: int, b': int, a': int)
    ensures Counting(Hashed(Counting(st, b, a), text), b', a') == Counting(Hashed(st, text), b', a')
    ensures Hashed(Counting(st, b, a), text) == Counting(Hashed(st, text), b, a)
    ensures Counting(Counting(st, b, a), b', a') == Counting(st, b', a')
  {
  }

  lemma {:induction false} CountingSame(st: State)
    ensures Counting(st, st.before, st.after) == st
  {
  }

  lemma {:induction false} RunStep(mode: Mode, st: State, lines: seq<Bytes>, next: State)
    requires lines != [] && ReadLine(mode, st, lines[0]) == Go(next)
    ensures Run(mode, st, lines) == Run(mode, next, lines[1..])
  {
    hide ReadLine;
  }

  lemma {:induction false} RunNothing(mode: Mode, st: State, lines: seq<Bytes>)
    requires lines == []
    ensures Run(mode, st, lines) == Some(st)
  {
  }

  lemma {:induction false} HashedTwice(st: State, x: Bytes, y: Bytes)
    ensures Hashed(Hashed(st, x), y) == Hashed(st, x + y)
  {
    ConcatAssoc(st.hasher, x, y);
  }

  lemma {:induction false} HashedNothing(st: State)
    ensures Hashed(st, []) == st
  {
  }

  /** Lines that start with a byte that is no hexadecimal digit name no commit, unless a header word does. */
  lemma {:induction false} PlainLine(line: Bytes)
    requires line != []
    requires line[0] == MINUS || line[0] == PLUS || line[0] == SPACE || line[0] == 64 || line[0] == 92
    ensures !NamesCommit(line) && !OidText(line).1
  {
  }

  lemma {:induction false} DiffLine(line: Bytes)
    requires DIFF <= line
    ensures !NamesCommit(line) && !OidText(line).1 && line[0] == 100 && line[1] == 105
  {
    assert line[1] == DIFF[1] && line[0] == DIFF[0] && line[4] == DIFF[4];
    assert HexNibble(line[1]).None?;
  }

  lemma {:induction false} NotBlank(mode: Mode, line: Bytes)
    requires line != [] && !IsSpace(line[0])
    ensures Normalize(mode, line) != []
  {
  }

  // ---- One section -------------------------------------------------------------------------

  lemma {:induction false} RunHeaders(mode: Mode, st: State, headers: seq<Bytes>)
    requires st.before == -1 && st.patchLen > 0
    requires forall i :: 0 <= i < |headers| ==> WellFormedHeader(headers[i])
    ensures Run(mode, st, headers) == Some(Hashed(st, HeaderText(mode, headers)))
    decreases headers
  {
    hide Run, ReadLine, Normalize, WellFormedHeader;
    if headers == [] {
      HashedNothing(st);
      RunNothing(mode, st, headers);
    } else {
      var text := if INDEX <= headers[0] then [] else Normalize(mode, headers[0]);
      HeaderStep(mode, st, headers[0]);
      RunStep(mode, st, headers, Hashed(st, text));
      RunHeaders(mode, Hashed(st, text), headers[1..]);
      HashedTwice(st, text, HeaderText(mode, headers[1..]));
    }
  }

  lemma {:induction false} HeaderStep(mode: Mode, st: State, line: Bytes)
    requires st.before == -1 && st.patchLen > 0 && WellFormedHeader(line)
    ensures ReadLine(mode, st, line) == Go(Hashed(st, if INDEX <= line then [] else Normalize(mode, line)))
  {
    hide Normalize, LeadingOid, OidText;
    assert line[0] != 92 && line[0] != MINUS && line[0] != SPACE && line[0] != PLUS;
    assert NO_NEWLINE[0] == 92 && OLD_FILE[0] == MINUS;
    HashedNothing(st);
  }

  /** Inside a hunk, with `before` and `after` lines still to come. */
  lemma {:induction false} RunBody(mode: Mode, st: State, body: seq<Bytes>)
    requires st.patchLen > 0 && st.before == OldLines(body) && st.after == NewLines(body)
    requires forall i :: 0 <= i < |body| ==> IsOld(body[i]) || IsNew(body[i]) || IsRemark(body[i])
    ensures Run(mode, st, body) == Some(Counting(Hashed(st, BodyText(mode, body)), 0, 0))
    decreases body
  {
    hide Run, ReadLine, Normalize, Hashed, IsRemark, IsOld, IsNew;
    if body == [] {
      HashedNothing(st);
      CountingSame(st);
      RunNothing(mode, st, body);
    } else {
      var text := if IsRemark(body[0]) then [] else Normalize(mode, body[0]);
      var hashed := Hashed(st, text);
      var next := Counting(hashed, OldLines(body[1..]), NewLines(body[1..]));
      BodyStep(mode, st, body);
      HashedLength(st, text);
      RunStep(mode, st, body, next);
      RunBody(mode, next, body[1..]);
      CountingHashed(hashed, BodyText(mode, body[1..]), OldLines(body[1..]), NewLines(body[1..]), 0, 0);
      HashedTwice(st, text, BodyText(mode, body[1..]));
    }
  }

  lemma {:induction false} HashedLength(st: State, text: Bytes)
    ensures Hashed(st, text).patchLen >= st.patchLen
    ensures Hashed(st, text).before == st.before && Hashed(st, text).after == st.after
  {
  }

  lemma {:induction false} BodyStep(mode: Mode, st: State, body: seq<Bytes>)
    requires body != [] && st.patchLen > 0 && st.before == OldLines(body) && st.after == NewLines(body)
    requires IsOld(body[0]) || IsNew(body[0]) || IsRemark(body[0])
    ensures ReadLine(mode, st, body[0])
            == Go(Counting(Hashed(st, if IsRemark(body[0]) then [] else Normalize(mode, body[0])),
                           OldLines(body[1..]), NewLines(body[1..])))
  {
    hide Normalize, LeadingOid, OidText;
    var line := body[0];
    assert NO_NEWLINE[0] == 92;
    assert IsRemark(line) ==> line[0] == 92;
    PlainLine(line);
    HashedNothing(st);
  }

  lemma {:induction false} RunHunks(mode: Mode, st: State, hunks: seq<Hunk>)
    requires st.patchLen > 0 && st.before == 0 && st.after == 0
    requires forall i :: 0 <= i < |hunks| ==> CountedHunk(hunks[i]) && ReadableHunk(hunks[i])
    ensures Run(mode, st, HunkLines(hunks)) == Some(Hashed(st, HunkText(mode, hunks)))
    decreases hunks
  {
    hide Run, ReadLine, BodyText, Hashed, CountedHunk, ReadableHunk, Counting;
    if hunks == [] {
      HashedNothing(st);
      RunNothing(mode, st, HunkLines(hunks));
    } else {
      var text := BodyText(mode, hunks[0].body);
      RunHunk(mode, st, hunks[0], HunkLines(hunks[1..]));
      HashedLength(st, text);
      RunHunks(mode, Hashed(st, text), hunks[1..]);
      HashedTwice(st, text, HunkText(mode, hunks[1..]));
    }
  }

  lemma {:induction false} RunHunk(mode: Mode, st: State, h: Hunk, rest: seq<Bytes>)
    requires st.patchLen > 0 && st.before == 0 && st.after == 0 && CountedHunk(h) && ReadableHunk(h)
    ensures Run(mode, st, [h.header] + h.body + rest) == Run(mode, Hashed(st, BodyText(mode, h.body)), rest)
  {
    hide Run, ReadLine, BodyText, Hashed, CountedHunk, ReadableHunk, Counting;
    var text := BodyText(mode, h.body);
    var inside := Counting(st, OldLines(h.body), NewLines(h.body));
    var lines := [h.header] + h.body + rest;
    HunkStep(mode, st, h);
    RunStep(mode, st, lines, inside);
    assert lines[1..] == h.body + rest;
    RunInside(mode, st, h);
    CountingHashed(st, text, OldLines(h.body), NewLines(h.body), 0, 0);
    HashedLength(st, text);
    CountingSame(Hashed(st, text));
    RunAppend(mode, inside, h.body, rest, Hashed(st, text));
  }

  lemma {:induction false} RunInside(mode: Mode, st: State, h: Hunk)
    requires st.patchLen > 0 && CountedHunk(h)
    ensures var inside := Counting(st, OldLines(h.body), NewLines(h.body));
            Run(mode, inside, h.body) == Some(Counting(Hashed(inside, BodyText(mode, h.body)), 0, 0))
  {
    hide Run, ReadLine, BodyText, Hashed, HeaderCounts, IsOld, IsNew, IsRemark;
    RunBody(mode, Counting(st, OldLines(h.body), NewLines(h.body)), h.body);
  }

  lemma {:induction false} HunkStep(mode: Mode, st: State, h: Hunk)
    requires st.patchLen > 0 && st.before == 0 && st.after == 0 && CountedHunk(h)
    ensures ReadLine(mode, st, h.header)
            == Go(if ValidUtf8(h.header) then Counting(st, OldLines(h.body), NewLines(h.body)) else st)
    ensures ReadableHunk(h) ==> ReadLine(mode, st, h.header) == Go(Counting(st, OldLines(h.body), NewLines(h.body)))
  {
    hide LeadingOid, OidText, HeaderCounts, ValidUtf8;
    assert h.header[0] == HUNK[0] == 64 && NO_NEWLINE[0] == 92;
    PlainLine(h.header);
    CountingSame(st);
  }

  /** Where no hunk is open, the first counted line ends the patch; remarks in front of it are passed over. */
  lemma {:induction false} BodyStops(mode: Mode, st: State, body: seq<Bytes>, rest: seq<Bytes>)
    requires st.patchLen > 0 && st.before == 0 && st.after == 0 && OldLines(body) + NewLines(body) > 0
    requires forall i :: 0 <= i < |body| ==> IsOld(body[i]) || IsNew(body[i]) || IsRemark(body[i])
    ensures Run(mode, st, body + rest) == None
    ensures var o := ReadLines(mode, st, body + rest); o.final == st && o.nextOid == None && 1 <= o.read <= |body|
    decreases body
  {
    hide ReadLine, IsOld, IsNew, IsRemark;
    LooseLine(mode, st, body[0]);
    var lines := body + rest;
    assert lines[0] == body[0] && lines[1..] == body[1..] + rest;
    if !IsOld(body[0]) && !IsNew(body[0]) { BodyStops(mode, st, body[1..], rest); }
  }

  lemma {:induction false} LooseLine(mode: Mode, st: State, line: Bytes)
    requires st.patchLen > 0 && st.before == 0 && st.after == 0 && (IsOld(line) || IsNew(line) || IsRemark(line))
    ensures ReadLine(mode, st, line) == if IsOld(line) || IsNew(line) then Stop(None) else Go(st)
  {
    hide LeadingOid, OidText;
    assert NO_NEWLINE[0] == 92 && HUNK[0] == 64 && DIFF[0] == 100;
    PlainLine(line);
  }

  /** The patch ends in the body of an unreadable hunk. */
  lemma {:induction false} HunkStops(mode: Mode, st: State, h: Hunk, rest: seq<Bytes>)
    requires st.patchLen > 0 && st.before == 0 && st.after == 0 && CountedHunk(h) && !ReadableHunk(h)
    ensures Run(mode, st, [h.header] + h.body + rest) == None
    ensures var o := ReadLines(mode, st, [h.header] + h.body + rest);
            o.final == st && o.nextOid == None && 1 < o.read <= 1 + |h.body|
  {
    hide ReadLine, HeaderCounts, IsOld, IsNew, IsRemark;
    var lines := [h.header] + h.body + rest;
    HunkStep(mode, st, h);
    assert lines[0] == h.header && lines[1..] == h.body + rest;
    BodyStops(mode, st, h.body, rest);
  }

  /** The `---` and `+++` lines use up a count of one each. */
  lemma {:induction false} RunFileNames(mode: Mode, st: State, oldFile: Bytes, newFile: Bytes)
    requires st.before == -1 && st.patchLen > 0 && OLD_FILE <= oldFile && NEW_FILE <= newFile
    ensures Run(mode, st, [oldFile, newFile])
            == Some(Counting(Hashed(st, Normalize(mode, oldFile) + Normalize(mode, newFile)), 0, 0))
  {
    hide Run, ReadLine, Normalize, Hashed;
    var x, y := Normalize(mode, oldFile), Normalize(mode, newFile);
    var mid := Counting(Hashed(st, x), 0, 1);
    var end := Counting(Hashed(mid, y), 0, 0);
    var lines: seq<Bytes> := [oldFile, newFile];
    OldFileStep(mode, st, oldFile);
    RunStep(mode, st, lines, mid);
    HashedLength(st, x);
    NewFileStep(mode, mid, newFile);
    RunStep(mode, mid, lines[1..], end);
    RunNothing(mode, end, lines[1..][1..]);
    CountingHashed(Hashed(st, x), y, 0, 1, 0, 0);
    HashedTwice(st, x, y);
  }

  lemma {:induction false} OldFileStep(mode: Mode, st: State, line: Bytes)
    requires st.before == -1 && st.patchLen > 0 && OLD_FILE <= line
    ensures ReadLine(mode, st, line) == Go(Counting(Hashed(st, Normalize(mode, line)), 0, 1))
  {
    hide Normalize, LeadingOid, OidText;
    assert line[0] == OLD_FILE[0] == MINUS && NO_NEWLINE[0] == 92 && INDEX[0] == 105;
    PlainLine(line);
  }

  lemma {:induction false} NewFileStep(mode: Mode, st: State, line: Bytes)
    requires st.before == 0 && st.after == 1 && st.patchLen > 0 && NEW_FILE <= line
    ensures ReadLine(mode, st, line) == Go(Counting(Hashed(st, Normalize(mode, line)), 0, 0))
  {
    hide Normalize, LeadingOid, OidText;
    assert line[0] == NEW_FILE[0] == PLUS && NO_NEWLINE[0] == 92;
    PlainLine(line);
  }

  /** Where a section may start: at the very beginning, or where the previous section is complete. */
  predicate AtBoundary(st: State)
  {
    st == START || (st.patchLen > 0 && st.before == 0 && st.after == 0)
  }

  /** The state in which the first line of a section is hashed. */
  function Opened(mode: Mode, st: State): State
  {
    if st == START then st else Counting(if mode == Stable then Flush(st) else st, -1, -1)
  }

  lemma {:induction false} DiffStep(mode: Mode, st: State, line: Bytes)
    requires AtBoundary(st) && DIFF <= line
    ensures ReadLine(mode, st, line) == Go(Hashed(Opened(mode, st), Normalize(mode, line)))
    ensures Normalize(mode, line) != []
  {
    hide Normalize, LeadingOid, OidText, Flush;
    DiffLine(line);
    NotBlank(mode, line);
    assert NO_NEWLINE[0] == 92 && INDEX[0] == 105 && OLD_FILE[0] == MINUS && HUNK[0] == 64;
  }

  /** The state after a section that has been read as a whole. */
  function Whole(mode: Mode, st: State, s: Section): State
  {
    Counting(Hashed(Opened(mode, st), SectionText(mode, s)), 0, 0)
  }

  /** A section is hashed as a whole and leaves the machine between hunks if and only if all its hunks are readable. */
  lemma {:induction false} RunSection(mode: Mode, st: State, s: Section)
    requires AtBoundary(st) && WellFormed(s)
    ensures Run(mode, st, SectionLines(s)) == Some(Whole(mode, st, s)) <==> Readable(s)
    ensures Run(mode, st, SectionLines(s)).Some? <==> Readable(s)
  {
    hide *;
    if Readable(s) {
      RunReadable(mode, st, s);
    } else {
      SectionStops(mode, st, s, []);
      assert SectionLines(s) + [] == SectionLines(s);
    }
  }

  /** Otherwise the patch ends there, with the section hashed up to the header that cannot be read. */
  lemma {:induction false} SectionStops(mode: Mode, st: State, s: Section, rest: seq<Bytes>)
    requires AtBoundary(st) && WellFormed(s) && !Readable(s)
    ensures Run(mode, st, SectionLines(s) + rest) == None
    ensures var o := ReadLines(mode, st, SectionLines(s) + rest);
            && o.final == Whole(mode, st, Cut(s)) && o.nextOid == None
            && |SectionLines(Cut(s))| + 1 < o.read <= |SectionLines(s)|
  {
    hide Run, ReadLines, ReadLine, SectionLines, SectionText, Hashed, Opened, AtBoundary, HunkLines, CountedHunk,
         ReadableHunk;
    var k := IntactHunks(s.hunks);
    var h, after := s.hunks[k], HunkLines(s.hunks[k + 1..]) + rest;
    CutParts(s);
    RunReadable(mode, st, Cut(s));
    var mid := Whole(mode, st, Cut(s));
    HunkStops(mode, mid, h, after);
    var tail := [h.header] + h.body + after;
    assert SectionLines(s) + rest == SectionLines(Cut(s)) + tail;
    RunAppend(mode, st, SectionLines(Cut(s)), tail, mid);
    ReadAfterRun(mode, st, SectionLines(Cut(s)), tail, mid);
  }

  lemma {:induction false} CutParts(s: Section)
    requires WellFormed(s) && !Readable(s)
    ensures WellFormed(Cut(s)) && Readable(Cut(s)) && IntactHunks(s.hunks) < |s.hunks|
    ensures var k := IntactHunks(s.hunks);
            SectionLines(s)
                == SectionLines(Cut(s)) + ([s.hunks[k].header] + s.hunks[k].body + HunkLines(s.hunks[k + 1..]))
  {
    hide CountedHunk, ReadableHunk, WellFormedHeader, IntactHunks, SectionLines, HunkLines;
    CutLines(s, IntactHunks(s.hunks));
  }

  lemma {:induction false} CutLines(s: Section, k: nat)
    requires k < |s.hunks|
    ensures SectionLines(s)
            == SectionLines(s.(hunks := s.hunks[..k]))
               + ([s.hunks[k].header] + s.hunks[k].body + HunkLines(s.hunks[k + 1..]))
  {
    HunkLinesSplit(s.hunks, k);
    assert s.hunks[k..][1..] == s.hunks[k + 1..];
    ConcatAssoc([s.diff] + s.headers + [s.oldFile, s.newFile], HunkLines(s.hunks[..k]), HunkLines(s.hunks[k..]));
  }

  lemma {:induction false} HunkLinesSplit(hunks: seq<Hunk>, k: nat)
    requires k <= |hunks|
    ensures HunkLines(hunks) == HunkLines(hunks[..k]) + HunkLines(hunks[k..])
  {
    if k == 0 {
      assert hunks[0..] == hunks && HunkLines(hunks[..0]) == [];
    } else {
      HunkLinesSplit(hunks[1..], k - 1);
      assert hunks[..k][1..] == hunks[1..][..k - 1] && hunks[k..] == hunks[1..][k - 1..];
      ConcatAssoc([hunks[0].header] + hunks[0].body, HunkLines(hunks[..k][1..]), HunkLines(hunks[k..]));
    }
  }

  lemma {:induction false} RunReadable(mode: Mode, st: State, s: Section)
    requires AtBoundary(st) && WellFormed(s) && Readable(s)
    ensures SectionText(mode, s) != []
    ensures Run(mode, st, SectionLines(s)) == Some(Whole(mode, st, s))
    ensures var end := Whole(mode, st, s); end.patchLen > 0 && end.before == 0 && end.after == 0
  {
    hide *;
    var start, n := Opened(mode, st), Normalize(mode, s.diff);
    var lines := SectionLines(s);
    DiffOf(s);
    DiffStep(mode, st, s.diff);
    RunStep(mode, st, lines, Hashed(start, n));
    OpenedCounts(mode, st, n);
    RunAfterDiff(mode, Hashed(start, n), s);
    SectionTextParts(mode, s);
    HashedTwice(start, n, AfterDiffText(mode, s));
    WholeEnds(mode, st, s);
  }

  lemma {:induction false} WholeEnds(mode: Mode, st: State, s: Section)
    ensures Whole(mode, st, s) == Counting(Hashed(Opened(mode, st), SectionText(mode, s)), 0, 0)
    ensures var end := Whole(mode, st, s); end.before == 0 && end.after == 0
    ensures SectionText(mode, s) != [] ==> Whole(mode, st, s).patchLen > 0
  {
    hide SectionText, Opened;
  }

  lemma {:induction false} DiffOf(s: Section)
    requires WellFormed(s)
    ensures DIFF <= s.diff
    ensures SectionLines(s) != [] && SectionLines(s)[0] == s.diff && SectionLines(s)[1..] == AfterDiffLines(s)
  {
    hide HunkLines;
  }

  function AfterDiffLines(s: Section): seq<Bytes>
  {
    s.headers + ([s.oldFile, s.newFile] + HunkLines(s.hunks))
  }

  function AfterDiffText(mode: Mode, s: Section): Bytes
  {
    HeaderText(mode, s.headers) + (Normalize(mode, s.oldFile) + Normalize(mode, s.newFile)) + HunkText(mode, s.hunks)
  }

  lemma {:induction false} SectionTextParts(mode: Mode, s: Section)
    ensures SectionText(mode, s) == Normalize(mode, s.diff) + AfterDiffText(mode, s)
  {
    hide Normalize, HeaderText, HunkText;
  }

  lemma {:induction false} RunAfterDiff(mode: Mode, st: State, s: Section)
    requires st.before == -1 && st.patchLen > 0 && WellFormed(s) && Readable(s)
    ensures Run(mode, st, AfterDiffLines(s)) == Some(Counting(Hashed(st, AfterDiffText(mode, s)), 0, 0))
  {
    hide Run, ReadLine, Normalize, HeaderText, HunkText, HunkLines, Hashed, WellFormedHeader, CountedHunk,
         ReadableHunk;
    var h, k := HeaderText(mode, s.headers), HunkText(mode, s.hunks);
    var f := Normalize(mode, s.oldFile) + Normalize(mode, s.newFile);
    var names: seq<Bytes> := [s.oldFile, s.newFile];
    var b := Hashed(st, h);
    var c := Counting(Hashed(b, f), 0, 0);
    RunHeaders(mode, st, s.headers);
    HashedLength(st, h);
    RunFileNames(mode, b, s.oldFile, s.newFile);
    HashedLength(b, f);
    RunHunks(mode, c, s.hunks);
    RunAppend(mode, b, names, HunkLines(s.hunks), c);
    RunAppend(mode, st, s.headers, names + HunkLines(s.hunks), b);
    HashedTwice(st, h, f);
    HashedTwice(st, h + f, k);
    CountingHashed(Hashed(st, h + f), k, 0, 0, 0, 0);
  }

  lemma {:induction false} OpenedCounts(mode: Mode, st: State, text: Bytes)
    requires AtBoundary(st) && text != []
    ensures var next := Hashed(Opened(mode, st), text);
            next.before == -1 && next.patchLen > 0
  {
  }

  // ---- Whole patches -----------------------------------------------------------------------

  predicate AllWellFormed(sections: seq<Section>)
  {
    forall i :: 0 <= i < |sections| ==> WellFormed(sections[i])
  }

  predicate AllReadable(sections: seq<Section>)
  {
    forall i :: 0 <= i < |sections| ==> Readable(sections[i])
  }

  /** The sections in front of the first unreadable one. */
  function IntactSections(sections: seq<Section>): (n: nat)
    ensures n <= |sections| && (n < |sections| ==> !Readable(sections[n]))
    ensures forall i :: 0 <= i < n ==> Readable(sections[i])
  {
    if sections == [] || !Readable(sections[0]) then 0 else 1 + IntactSections(sections[1..])
  }

  /** What is hashed of a patch: everything up to the first hunk header that cannot be read. */
  function Taken(sections: seq<Section>): seq<Section>
  {
    var k := IntactSections(sections);
    if k == |sections| then sections else sections[..k] + [Cut(sections[k])]
  }

  /** A patch is taken in as a whole if and only if all its sections are readable. */
  lemma {:induction false} TakenWhole(sections: seq<Section>)
    ensures Taken(sections) == sections <==> AllReadable(sections)
    ensures IntactSections(sections) == |sections| <==> AllReadable(sections)
  {
    hide Readable, ReadableHunk;
    var k := IntactSections(sections);
    if k < |sections| {
      assert Taken(sections)[k] == Cut(sections[k]);
      CutIsShorter(sections[k]);
    }
  }

  lemma {:induction false} CutIsShorter(s: Section)
    requires !Readable(s)
    ensures Cut(s) != s
  {
    hide ReadableHunk;
    assert IntactHunks(s.hunks) < |s.hunks|;
    assert |Cut(s).hunks| < |s.hunks|;
  }

  /** The last section is still in the hasher; in stable mode the ones before it have been flushed one by one. */
  ghost predicate Collected(mode: Mode, sections: seq<Section>, st: State)
    requires sections != []
  {
    && AtBoundary(st) && st != START && st.patchLen == |PatchText(mode, sections)|
    && if mode == Stable
       then st.hasher == SectionText(mode, sections[|sections| - 1])
           && st.flushed == SectionTexts(sections[..|sections| - 1])
       else st.hasher == PatchText(mode, sections) && st.flushed == []
  }

  lemma {:induction false} RunSections(mode: Mode, sections: seq<Section>)
    requires AllWellFormed(sections) && AllReadable(sections) && sections != []
    ensures Run(mode, START, PatchLines(sections)).Some?
    ensures Collected(mode, sections, Run(mode, START, PatchLines(sections)).value)
    decreases |sections|, 1
  {
    hide Run, SectionText, SectionLines, WellFormed, Readable, Collected, Whole;
    var n := |sections| - 1;
    var init, last := sections[..n], sections[n];
    var st := RunUpTo(mode, sections, n);
    RunAppend(mode, START, PatchLines(init), SectionLines(last), st);
    RunReadable(mode, st, last);
    CollectNext(mode, sections, st);
  }

  /** The state in front of one of the sections. */
  lemma {:induction false} RunUpTo(mode: Mode, sections: seq<Section>, n: nat) returns (st: State)
    requires n < |sections| && AllWellFormed(sections[..n]) && AllReadable(sections[..n])
    ensures Run(mode, START, PatchLines(sections[..n])) == Some(st) && AtBoundary(st)
    ensures if n == 0 then st == START else Collected(mode, sections[..n], st)
    decreases n, 2
  {
    hide Run, SectionText, SectionLines, WellFormed, Readable, Collected;
    st := START;
    var init := sections[..n];
    if n == 0 {
      RunNothing(mode, START, PatchLines(init));
    } else {
      RunSections(mode, init);
      st := Run(mode, START, PatchLines(init)).value;
      CollectedBoundary(mode, init, st);
    }
  }

  lemma {:induction false} CollectedBoundary(mode: Mode, sections: seq<Section>, st: State)
    requires sections != [] && Collected(mode, sections, st)
    ensures AtBoundary(st)
  {
  }

  lemma {:induction false} CollectNext(mode: Mode, sections: seq<Section>, st: State)
    requires sections != []
    requires var n := |sections| - 1; if n == 0 then st == START else Collected(mode, sections[..n], st)
    requires SectionText(mode, sections[|sections| - 1]) != []
    ensures Collected(mode, sections, Whole(mode, st, sections[|sections| - 1]))
  {
    hide SectionText;
    var n := |sections| - 1;
    assert sections[..n] == [] || sections[..n][..n - 1] == sections[..n - 1];
    assert [] + SectionText(mode, sections[n]) == SectionText(mode, sections[n]);
  }

  /** `st` is the state in which a patch of these sections ends. */
  lemma {:induction false} FinalTexts(mode: Mode, sections: seq<Section>, st: State)
    requires sections != [] && Collected(mode, sections, st)
    ensures Flush(st).flushed == if mode == Stable then SectionTexts(sections) else [PatchText(mode, sections)]
    ensures st.patchLen == |PatchText(mode, sections)|
  {
    hide SectionText, PatchText, AtBoundary;
  }

  /** Lines in front of the first file section, such as a commit message, that name no commit. */
  predicate IsPrologue(lines: seq<Bytes>)
  {
    forall i :: 0 <= i < |lines| ==> !(DIFF <= lines[i]) && !NamesCommit(lines[i])
  }

  lemma {:induction false} RunPrologue(mode: Mode, lines: seq<Bytes>)
    requires IsPrologue(lines)
    ensures Run(mode, START, lines) == Some(START)
    decreases lines
  {
    hide Run, LeadingOid, OidText;
    if lines == [] {
      RunNothing(mode, START, lines);
    } else {
      RunStep(mode, START, lines, START);
      RunPrologue(mode, lines[1..]);
    }
  }

  /** The patch ends with the input or with a line that names the next commit. */
  predicate EndsPatch(rest: seq<Bytes>)
  {
    rest != [] ==> NamesCommit(rest[0])
  }

  lemma {:induction false} ReadEnd(mode: Mode, st: State, rest: seq<Bytes>)
    requires EndsPatch(rest)
    ensures var o := ReadLines(mode, st, rest);
            && o.final == st && o.read == (if rest == [] then 0 else 1)
            && o.nextOid == if rest == [] then None else LeadingOid(OidText(rest[0]).0)
  {
    hide ReadLine, LeadingOid, OidText;
    if rest != [] { StopsHere(mode, st, rest[0]); }
  }

  lemma {:induction false} StopsHere(mode: Mode, st: State, line: Bytes)
    requires NamesCommit(line)
    ensures ReadLine(mode, st, line) == Stop(LeadingOid(OidText(line).0))
  {
    hide LeadingOid, OidText;
    if !OidText(line).1 { NamingLine(line); }
  }

  lemma {:induction false} NamingLine(line: Bytes)
    requires NamesCommit(line) && !OidText(line).1
    ensures !(NO_NEWLINE <= line)
  {
    assert NO_NEWLINE[0] == 92 && HexNibble(92).None?;
  }

  lemma {:induction false} PatchLinesSplit(xs: seq<Section>, ys: seq<Section>)
    ensures PatchLines(xs + ys) == PatchLines(xs) + PatchLines(ys)
    decreases ys
  {
    hide SectionLines;
    if ys == [] {
      assert xs + ys == xs;
    } else {
      var n := |ys| - 1;
      PatchLinesSplit(xs, ys[..n]);
      assert (xs + ys)[..|xs| + n] == xs + ys[..n];
    }
  }

  /** Where a patch with an unreadable section ends. */
  lemma {:induction false} PatchStops(mode: Mode, sections: seq<Section>, rest: seq<Bytes>)
    requires AllWellFormed(sections) && !AllReadable(sections)
    ensures var o, taken := ReadLines(mode, START, PatchLines(sections) + rest), Taken(sections);
            && taken != [] && Collected(mode, taken, o.final) && o.nextOid == None
            && |PatchLines(taken)| + 1 < o.read <= |PatchLines(sections)|
  {
    hide Run, ReadLines, SectionText, SectionLines, WellFormed, Readable, Collected, Whole, PatchLines, Cut, AtBoundary;
    var k := IntactSections(sections);
    TakenWhole(sections);
    var init, s := sections[..k], sections[k];
    var st := RunUpTo(mode, sections, k);
    SplitAt(sections, k);
    var tail := PatchLines(sections[k + 1..]) + rest;
    assert PatchLines(sections) + rest == PatchLines(init) + (SectionLines(s) + tail);
    ReadAfterRun(mode, START, PatchLines(init), SectionLines(s) + tail, st);
    SectionStops(mode, st, s, tail);
    CutParts(s);
    RunReadable(mode, st, Cut(s));
    var taken := init + [Cut(s)];
    assert taken[..k] == init && taken[k] == Cut(s);
    PatchLinesSnoc(init, Cut(s));
    CollectNext(mode, taken, st);
  }

  lemma {:induction false} PatchLinesSnoc(init: seq<Section>, s: Section)
    ensures PatchLines(init + [s]) == PatchLines(init) + SectionLines(s)
  {
    assert (init + [s])[..|init|] == init;
  }

  lemma {:induction false} SplitAt(sections: seq<Section>, k: nat)
    requires k < |sections|
    ensures PatchLines(sections)
            == PatchLines(sections[..k]) + SectionLines(sections[k]) + PatchLines(sections[k + 1..])
  {
    hide SectionLines, PatchLines;
    assert sections == sections[..k] + [sections[k]] + sections[k + 1..];
    PatchLinesSplit(sections[..k] + [sections[k]], sections[k + 1..]);
    PatchLinesSnoc(sections[..k], sections[k]);
  }

  /**
   * The stable id of a patch adds up one digest for each section that is taken in, the other ids take one digest of all
   * of them. A patch of readable sections is read to its end.
   */
  lemma {:induction false} PatchIdMeaning(mode: Mode, prologue: seq<Bytes>, sections: seq<Section>, rest: seq<Bytes>)
    requires IsPrologue(prologue) && AllWellFormed(sections) && sections != [] && EndsPatch(rest)
    ensures var o, taken := ReadLines(mode, START, prologue + PatchLines(sections) + rest), Taken(sections);
            && Flush(o.final).flushed == (if mode == Stable then SectionTexts(taken) else [PatchText(mode, taken)])
            && o.final.patchLen == |PatchText(mode, taken)|
            && if AllReadable(sections) then
                 && o.read == |prologue| + |PatchLines(sections)| + (if rest == [] then 0 else 1)
                 && o.nextOid == if rest == [] then None else LeadingOid(OidText(rest[0]).0)
               else
                 && |prologue| + |PatchLines(taken)| + 1 < o.read <= |prologue| + |PatchLines(sections)|
                 && o.nextOid == None
  {
    hide *;
    var lines := PatchLines(sections);
    RunPrologue(mode, prologue);
    ConcatAssoc(prologue, lines, rest);
    ReadAfterRun(mode, START, prologue, lines + rest, START);
    TakenWhole(sections);
    var o := ReadLines(mode, START, lines + rest);
    if AllReadable(sections) {
      RunSections(mode, sections);
      var st := Run(mode, START, lines).value;
      ReadAfterRun(mode, START, lines, rest, st);
      ReadEnd(mode, st, rest);
    } else {
      PatchStops(mode, sections, rest);
    }
    FinalTexts(mode, Taken(sections), o.final);
  }

  // ---- A header that is not UTF-8 ----------------------------------------------------------

  /** `@@ -1 +1 @@ ` and a function name in Latin-1 that starts with an accented letter. */
  const LATIN_HEADER: Bytes := [64, 64, 32, 45, 49, 32, 43, 49, 32, 64, 64, 32, 233, 10]

  /** One line is replaced below that header. */
  const LATIN_HUNK := Hunk(LATIN_HEADER, [[MINUS, 120, LF], [PLUS, 121, LF]])

  const LATIN_SECTION := Section(DIFF + [102], [], OLD_FILE + [102], NEW_FILE + [102], [LATIN_HUNK])

  /** The section is well-formed but not readable: it ends the patch, and nothing is hashed of its hunk. */
  lemma {:induction false} LatinSectionStops(mode: Mode)
    ensures WellFormed(LATIN_SECTION) && !Readable(LATIN_SECTION)
    ensures Run(mode, START, SectionLines(LATIN_SECTION)) == None
    ensures Cut(LATIN_SECTION).hunks == []
  {
    hide *;
    LatinHunk();
    LatinSection();
    StartIsBoundary();
    RunSection(mode, START, LATIN_SECTION);
  }

  lemma {:induction false} StartIsBoundary()
    ensures AtBoundary(START)
  {
  }

  lemma {:induction false} LatinSection()
    requires CountedHunk(LATIN_HUNK) && !ReadableHunk(LATIN_HUNK)
    ensures WellFormed(LATIN_SECTION) && !Readable(LATIN_SECTION)
    ensures Cut(LATIN_SECTION).hunks == []
  {
    hide CountedHunk, ReadableHunk;
    assert LATIN_SECTION.hunks[0] == LATIN_HUNK;
    assert IntactHunks(LATIN_SECTION.hunks) == 0;
  }

  lemma {:induction false} LatinHunk()
    ensures CountedHunk(LATIN_HUNK) && !ReadableHunk(LATIN_HUNK)
  {
    hide ValidUtf8, HeaderCounts;
    LatinCounts();
    LatinIsNotUtf8();
    var body := LATIN_HUNK.body;
    assert OldLines(body[1..][1..]) == 0 && NewLines(body[1..][1..]) == 0;
    assert OldLines(body[1..]) == 0 && NewLines(body[1..]) == 1;
  }

  lemma {:induction false} LatinCounts()
    ensures HeaderCounts(LATIN_HEADER) == Some((1, 1))
  {
    hide FirstWord, IndexOf;
    var rest := LATIN_HEADER[4..];
    var after: Bytes := [43, 49, 32, 64, 64, 32, 233, 10];
    IndexOfFirst([49], SPACE, after);
    assert rest == [49] + [SPACE] + after;
    assert rest[..1] == [49] && rest[2..] == after;
    assert after[1..] == [49, SPACE] + [64, 64, 32, 233, 10];
    WordAndSpace(49, [64, 64, 32, 233, 10]);
    OneDigitCount();
  }

  lemma {:induction false} OneDigitCount()
    ensures HunkCount([49]) == Some(1)
  {
    assert IndexOf([49][1..], COMMA) == 0;
  }

  lemma {:induction false} WordAndSpace(b: byte, rest: Bytes)
    requires 33 <= b < 127
    ensures FirstWord([b, SPACE] + rest) == [b]
  {
    hide UntilWhiteSpace;
    var s := [b, SPACE] + rest;
    assert DecodeScalar(s) == Some((b, 1));
    assert SkipWhiteSpace(s) == s;
    UntilSpace(b, s[1..]);
    assert s == [b] + s[1..];
  }

  lemma {:induction false} UntilSpace(b: byte, rest: Bytes)
    requires 33 <= b < 127 && rest != [] && rest[0] == SPACE
    ensures UntilWhiteSpace([b] + rest) == [b]
  {
    var s := [b] + rest;
    assert DecodeScalar(s) == Some((b, 1)) && DecodeScalar(rest) == Some((SPACE, 1));
    assert s[1..] == rest && UntilWhiteSpace(rest) == [] && s[..1] == [b];
  }

  lemma {:induction false} LatinIsNotUtf8()
    ensures !ValidUtf8(LATIN_HEADER)
  {
    hide ValidUtf8;
    var front: Bytes := LATIN_HEADER[..12];
    assert AllAscii(front);
    AsciiIsValid(front);
    assert LATIN_HEADER == front + [233, 10];
    ConcatValid(front, [233, 10]);
    NoScalar();
  }

  lemma {:induction false} NoScalar()
    ensures !ValidUtf8([233, 10])
  {
    assert LeadLength(233) == 3;
  }
}
