/** File sections without `---` and `+++` lines, such as renames and mode changes without hunks (`patch_id.rs`). */
module PatchFileless {
  import opened Common
  import opened PatchId
  import opened PatchSections
  import opened PatchOrder

  datatype Fileless = Fileless(diff: Bytes, headers: seq<Bytes>)

  predicate WellFormedFileless(f: Fileless)
  {
    DIFF <= f.diff && forall i :: 0 <= i < |f.headers| ==> WellFormedHeader(f.headers[i])
  }

  function FilelessLines(f: Fileless): seq<Bytes>
  {
    [f.diff] + f.headers
  }

  function FilelessText(mode: Mode, f: Fileless): Bytes
  {
    Normalize(mode, f.diff) + HeaderText(mode, f.headers)
  }

  // ---- In front of another section ---------------------------------------------------------

  /** What the line machine takes the two for: one section, with the `diff` line of the second among its headers. */
  function Joined(f: Fileless, s: Section): Section
  {
    s.(diff := f.diff, headers := f.headers + [s.diff] + s.headers)
  }

  /** The lines are those of the joined section, and one digest is taken of both texts. */
  lemma {:induction false} FilelessJoins(mode: Mode, f: Fileless, s: Section)
    requires WellFormedFileless(f) && WellFormed(s)
    ensures FilelessLines(f) + SectionLines(s) == SectionLines(Joined(f, s))
    ensures WellFormed(Joined(f, s)) && (Readable(Joined(f, s)) <==> Readable(s))
    ensures SectionText(mode, Joined(f, s)) == FilelessText(mode, f) + SectionText(mode, s)
  {
    hide *;
    DiffOf(s);
    JoinedForm(f, s);
    JoinedLines(f, s);
    JoinedText(mode, f, s);
  }

  lemma {:induction false} JoinedForm(f: Fileless, s: Section)
    requires WellFormedFileless(f) && WellFormed(s)
    ensures WellFormed(Joined(f, s)) && (Readable(Joined(f, s)) <==> Readable(s))
  {
    hide CountedHunk, ReadableHunk, NamesCommit;
    DiffLine(s.diff);
    var headers := f.headers + [s.diff] + s.headers;
    forall i | 0 <= i < |headers| ensures WellFormedHeader(headers[i]) {
      assert i < |f.headers| ==> headers[i] == f.headers[i];
      assert i > |f.headers| ==> headers[i] == s.headers[i - |f.headers| - 1];
    }
  }

  lemma {:induction false} JoinedLines(f: Fileless, s: Section)
    ensures FilelessLines(f) + SectionLines(s) == SectionLines(Joined(f, s))
  {
    hide HunkLines;
    var files := [s.oldFile, s.newFile] + HunkLines(s.hunks);
    assert [s.diff] + s.headers + [s.oldFile, s.newFile] + HunkLines(s.hunks) == [s.diff] + s.headers + files;
    assert FilelessLines(f) + ([s.diff] + s.headers) == [f.diff] + (f.headers + [s.diff] + s.headers);
  }

  lemma {:induction false} JoinedText(mode: Mode, f: Fileless, s: Section)
    requires DIFF <= s.diff
    ensures SectionText(mode, Joined(f, s)) == FilelessText(mode, f) + SectionText(mode, s)
  {
    hide Normalize, HunkText, HeaderText;
    HeaderTextAppend(mode, f.headers, [s.diff] + s.headers);
    assert f.headers + ([s.diff] + s.headers) == f.headers + [s.diff] + s.headers;
    DiffHeader(mode, s.diff, s.headers);
    SectionTextParts(mode, s);
    var h, d, t := HeaderText(mode, f.headers), Normalize(mode, s.diff), HeaderText(mode, s.headers);
    var files := Normalize(mode, s.oldFile) + Normalize(mode, s.newFile);
    SectionTextParts(mode, Joined(f, s));
    assert h + (d + t) + files + HunkText(mode, s.hunks) == h + (d + (t + files + HunkText(mode, s.hunks)));
    ConcatAssoc(Normalize(mode, f.diff), h, d + (t + files + HunkText(mode, s.hunks)));
  }

  lemma {:induction false} DiffHeader(mode: Mode, diff: Bytes, headers: seq<Bytes>)
    requires DIFF <= diff
    ensures HeaderText(mode, [diff] + headers) == Normalize(mode, diff) + HeaderText(mode, headers)
  {
    hide Normalize;
    assert ([diff] + headers)[1..] == headers;
    assert DIFF[0] == diff[0] && INDEX[0] == 105;
  }

  lemma {:induction false} HeaderTextAppend(mode: Mode, xs: seq<Bytes>, ys: seq<Bytes>)
    ensures HeaderText(mode, xs + ys) == HeaderText(mode, xs) + HeaderText(mode, ys)
  {
    hide Normalize;
    if xs == [] {
      assert xs + ys == ys;
    } else {
      assert (xs + ys)[1..] == xs[1..] + ys;
      HeaderTextAppend(mode, xs[1..], ys);
    }
  }

  // ---- At the end of a patch ---------------------------------------------------------------

  lemma {:induction false} RunFileless(mode: Mode, st: State, f: Fileless)
    requires AtBoundary(st) && WellFormedFileless(f)
    ensures Run(mode, st, FilelessLines(f)) == Some(Hashed(Opened(mode, st), FilelessText(mode, f)))
  {
    hide Run, ReadLine, Normalize, HeaderText, Hashed, Opened, WellFormedHeader, AtBoundary;
    var lines, text := FilelessLines(f), Normalize(mode, f.diff);
    DiffStep(mode, st, f.diff);
    var next := Hashed(Opened(mode, st), text);
    OpenedCounts(mode, st, text);
    RunStep(mode, st, lines, next);
    assert lines[1..] == f.headers;
    RunHeaders(mode, next, f.headers);
    HashedTwice(Opened(mode, st), text, HeaderText(mode, f.headers));
  }

  /** Behind readable sections it is a section of its own: in stable mode one more digest is added. */
  lemma {:induction false} FilelessEnds(mode: Mode, prologue: seq<Bytes>, sections: seq<Section>, f: Fileless,
                                        rest: seq<Bytes>)
    requires IsPrologue(prologue) && AllWellFormed(sections) && AllReadable(sections) && WellFormedFileless(f)
    requires EndsPatch(rest)
    ensures var o := ReadLines(mode, START, prologue + PatchLines(sections) + FilelessLines(f) + rest);
            && Flush(o.final).flushed
               == (if mode == Stable then SectionTexts(sections) + [FilelessText(mode, f)]
                   else [PatchText(mode, sections) + FilelessText(mode, f)])
            && o.read == |prologue| + |PatchLines(sections)| + |FilelessLines(f)| + (if rest == [] then 0 else 1)
  {
    hide *;
    var lines, more := PatchLines(sections), FilelessLines(f);
    assert prologue + lines + more + rest == prologue + (lines + (more + rest));
    RunPrologue(mode, prologue);
    ReadAfterRun(mode, START, prologue, lines + (more + rest), START);
    var st := START;
    if sections == [] {
      NoSections(mode, sections);
    } else {
      RunSections(mode, sections);
      st := Run(mode, START, lines).value;
      CollectedBoundary(mode, sections, st);
    }
    StartsAtBoundary();
    ReadAfterRun(mode, START, lines, more + rest, st);
    RunFileless(mode, st, f);
    var end := Hashed(Opened(mode, st), FilelessText(mode, f));
    ReadAfterRun(mode, st, more, rest, end);
    ReadEnd(mode, end, rest);
    FilelessFlushed(mode, sections, st, FilelessText(mode, f));
  }

  lemma {:induction false} StartsAtBoundary()
    ensures AtBoundary(START)
  {
  }

  lemma {:induction false} NoSections(mode: Mode, sections: seq<Section>)
    requires sections == []
    ensures Run(mode, START, PatchLines(sections)) == Some(START)
  {
  }

  lemma {:induction false} FilelessFlushed(mode: Mode, sections: seq<Section>, st: State, text: Bytes)
    requires if sections == [] then st == START else Collected(mode, sections, st)
    ensures Flush(Hashed(Opened(mode, st), text)).flushed
            == if mode == Stable then SectionTexts(sections) + [text] else [PatchText(mode, sections) + text]
  {
    hide SectionText, PatchText, SectionTexts;
    if sections != [] {
      FinalTexts(mode, sections, st);
      LaterFlushed(mode, st, text);
    } else {
      NoTexts(mode, sections);
      assert [] + text == text;
    }
  }

  lemma {:induction false} LaterFlushed(mode: Mode, st: State, text: Bytes)
    requires st != START
    ensures mode == Stable ==> Flush(Hashed(Opened(mode, st), text)).flushed == Flush(st).flushed + [text]
    ensures mode != Stable ==>
              Flush(Hashed(Opened(mode, st), text)).flushed == st.flushed + [st.hasher + text]
              && Flush(st).flushed == st.flushed + [st.hasher]
  {
    assert [] + text == text;
  }

  lemma {:induction false} NoTexts(mode: Mode, sections: seq<Section>)
    requires sections == []
    ensures SectionTexts(sections) == [] && PatchText(mode, sections) == []
  {
  }

  // ---- The order matters -------------------------------------------------------------------

  /**
   * So the stable id depends on the order: with the first section one digest is taken of both, behind the last one it
   * gets a digest of its own. For every patch there is a digest for which the sums are different.
   */
  lemma {:induction false} FilelessOrderMatters(f: Fileless, sections: seq<Section>)
    requires WellFormedFileless(f) && AllWellFormed(sections) && AllReadable(sections) && sections != []
    ensures var front, back := FilelessLines(f) + PatchLines(sections), PatchLines(sections) + FilelessLines(f);
            exists digest: Digest ::
              SumOf(digest, Flush(ReadLines(Stable, START, front).final).flushed)
              != SumOf(digest, Flush(ReadLines(Stable, START, back).final).flushed)
  {
    hide *;
    var text, s, more := FilelessText(Stable, f), sections[0], sections[1..];
    assert sections == [s] + more;
    FirstOf(sections);
    FilelessJoins(Stable, f, s);
    var joined := [Joined(f, s)] + more;
    AllOf(Joined(f, s), more);
    NothingAround();
    PatchIdMeaning(Stable, [], joined, []);
    TakenWhole(joined);
    FilelessEnds(Stable, [], sections, f, []);
    FirstLines(Joined(f, s), more);
    FirstLines(s, more);
    ConcatAssoc(FilelessLines(f), SectionLines(s), PatchLines(more));
    var front, back := FilelessLines(f) + PatchLines(sections), PatchLines(sections) + FilelessLines(f);
    assert [] + PatchLines(joined) + [] == front;
    assert [] + PatchLines(sections) + FilelessLines(f) + [] == back;
    FirstText(Joined(f, s), more);
    FirstText(s, more);
    SectionNotBlank(s);
    SumsDiffer(text, SectionText(Stable, s), SectionTexts(more));
  }

  lemma {:induction false} FirstOf(sections: seq<Section>)
    requires AllWellFormed(sections) && AllReadable(sections) && sections != []
    ensures WellFormed(sections[0]) && Readable(sections[0])
    ensures AllWellFormed(sections[1..]) && AllReadable(sections[1..])
  {
    hide WellFormed, Readable;
  }

  lemma {:induction false} AllOf(s: Section, more: seq<Section>)
    requires WellFormed(s) && Readable(s) && AllWellFormed(more) && AllReadable(more)
    ensures AllWellFormed([s] + more) && AllReadable([s] + more)
  {
    hide WellFormed, Readable;
  }

  lemma {:induction false} NothingAround()
    ensures IsPrologue([]) && EndsPatch([])
  {
  }

  lemma {:induction false} FirstLines(s: Section, more: seq<Section>)
    ensures PatchLines([s] + more) == SectionLines(s) + PatchLines(more)
  {
    hide SectionLines;
    PatchLinesSplit([s], more);
    PatchLinesSnoc([], s);
    assert [] + [s] == [s] && PatchLines([]) + SectionLines(s) == SectionLines(s);
  }

  lemma {:induction false} FirstText(s: Section, more: seq<Section>)
    ensures SectionTexts([s] + more) == [SectionText(Stable, s)] + SectionTexts(more)
    decreases more
  {
    hide SectionText;
    if more == [] {
      assert [s] + more == [s] && SectionTexts([s][..0]) == [];
    } else {
      var n := |more| - 1;
      FirstText(s, more[..n]);
      assert ([s] + more)[..n + 1] == [s] + more[..n];
    }
  }

  lemma {:induction false} SectionNotBlank(s: Section)
    requires WellFormed(s)
    ensures SectionText(Stable, s) != []
  {
    hide HeaderText, HunkText, Normalize, CountedHunk, NamesCommit;
    DiffLine(s.diff);
    NotBlank(Stable, s.diff);
  }

  /** The first digest may as well be added last. */
  lemma {:induction false} SumOfFirst(digest: Digest, first: Bytes, more: seq<Bytes>)
    ensures SumOf(digest, [first] + more) == AddModulo(Number(digest(first)), SumOf(digest, more))
    decreases more
  {
    hide Number, AddModulo;
    if more == [] {
      assert [first] + more == [] + [first];
      SumSnoc(digest, [], first);
      NothingAdded(Number(digest(first)));
    } else {
      var n := |more| - 1;
      SumOfFirst(digest, first, more[..n]);
      SumSnoc(digest, [first] + more[..n], more[n]);
      assert [first] + more[..n] + [more[n]] == [first] + more;
      AddedLast(Number(digest(first)), SumOf(digest, more[..n]), Number(digest(more[n])));
    }
  }

  lemma {:induction false} NothingAdded(x: nat)
    ensures AddModulo(0, x) == AddModulo(x, 0)
  {
  }

  lemma {:induction false} AddedLast(x: nat, y: nat, z: nat)
    ensures AddModulo(AddModulo(x, y), z) == AddModulo(x, AddModulo(y, z))
  {
  }

  lemma {:induction false} SumsDiffer(text: Bytes, own: Bytes, more: seq<Bytes>)
    requires own != []
    ensures SumOf(Marking(text), [text + own] + more) != SumOf(Marking(text), [own] + more + [text])
  {
    hide Number, SumOf, Marking;
    MarkedNumbers(text, text + own);
    MarkedNumbers(text, own);
    MarkedNumbers(text, text);
    assert |text + own| != |text|;
    SumsOfBoth(Marking(text), text + own, own, text, more);
  }

  lemma {:induction false} SumsOfBoth(digest: Digest, both: Bytes, own: Bytes, text: Bytes, more: seq<Bytes>)
    requires Number(digest(both)) == 0 && Number(digest(own)) <= 1 && Number(digest(text)) == 1
    ensures SumOf(digest, [both] + more) != SumOf(digest, [own] + more + [text])
  {
    hide Number, SumOf, AddModulo;
    SumOfFirst(digest, both, more);
    SumOfFirst(digest, own, more);
    SumSnoc(digest, [own] + more, text);
    SumBelow(digest, more);
    OneOrTwoMore(SumOf(digest, more), Number(digest(own)));
  }

  lemma {:induction false} SumBelow(digest: Digest, texts: seq<Bytes>)
    ensures SumOf(digest, texts) < TWO_TO_160
  {
    hide Number;
  }

  lemma {:induction false} OneOrTwoMore(x: nat, w: nat)
    requires x < TWO_TO_160 && w <= 1
    ensures AddModulo(0, x) != AddModulo(AddModulo(w, x), 1)
  {
  }
}
