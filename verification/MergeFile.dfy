/** The three-way file merge (`merge_file.rs`). */
module MergeFile {
  import opened Common

  datatype Labels = Labels(current: Bytes, ancestor: Bytes, other: Bytes)

  datatype MergeResult = MergeResult(content: Bytes, conflicts: nat)

  type Lines = seq<Bytes>

  function Concat(lines: Lines): Bytes
  {
    if lines == [] then [] else lines[0] + Concat(lines[1..])
  }

  /** The lines of a text, each with its line feed. */
  function LinesOf(s: Bytes): (lines: Lines)
    ensures Concat(lines) == s
    decreases |s|
  {
    if s == [] then [] else
    var k := IndexOf(s, LF);
    if k == |s| then
      assert [s][1..] == [] && s + [] == s;
      [s]
    else
      var rest := LinesOf(s[k + 1..]);
      assert ([s[..k + 1]] + rest)[1..] == rest && s == s[..k + 1] + s[k + 1..];
      [s[..k + 1]] + rest
  }

  predicate OneLine(line: Bytes)
  {
    line != [] && 10 !in line[..|line| - 1]
  }

  predicate EndsLine(line: Bytes)
  {
    line != [] && line[|line| - 1] == 10
  }

  /** Lines of a text: all but the last one end in a line feed, and there is no other line feed in any of them. */
  ghost predicate AreLines(lines: Lines)
  {
    && (forall i :: 0 <= i < |lines| ==> OneLine(lines[i]))
    && (forall i :: 0 <= i < |lines| - 1 ==> EndsLine(lines[i]))
  }

  lemma {:induction false} LineInFront(line: Bytes, lines: Lines)
    requires OneLine(line) && EndsLine(line) && AreLines(lines)
    ensures AreLines([line] + lines)
  {
    hide OneLine, EndsLine;
    var all := [line] + lines;
    assert forall i :: 0 < i < |all| ==> all[i] == lines[i - 1];
  }

  /** A text is split behind its line feeds. */
  lemma {:induction false} LinesMean(s: Bytes)
    ensures AreLines(LinesOf(s))
    decreases |s|
  {
    hide AreLines;
    if s == [] {
      OneIsLines([]);
    } else {
      var k := IndexOf(s, LF);
      LineMeans(s, k);
      if k == |s| {
        OneIsLines([s]);
      } else {
        LinesMean(s[k + 1..]);
        LineInFront(s[..k + 1], LinesOf(s[k + 1..]));
      }
    }
  }

  lemma {:induction false} OneIsLines(lines: Lines)
    requires |lines| <= 1 && forall i :: 0 <= i < |lines| ==> OneLine(lines[i])
    ensures AreLines(lines)
  {
  }

  lemma {:induction false} LineMeans(s: Bytes, k: nat)
    requires s != [] && k == IndexOf(s, LF)
    ensures k == |s| ==> OneLine(s)
    ensures k < |s| ==> OneLine(s[..k + 1]) && EndsLine(s[..k + 1])
  {
    if k < |s| { assert s[..k + 1][..k] == s[..k]; } else { assert s[..k] == s; }
  }

  lemma {:induction false} ConcatAppend(xs: Lines, ys: Lines)
    ensures Concat(xs + ys) == Concat(xs) + Concat(ys)
  {
    if xs == [] {
      assert xs + ys == ys;
    } else {
      ConcatAppend(xs[1..], ys);
      ConcatAssoc(xs[0], Concat(xs[1..]), Concat(ys));
      assert (xs + ys)[1..] == xs[1..] + ys && (xs + ys)[0] == xs[0];
    }
  }

  /** `split_lines`. */
  method SplitLines(s: Bytes) returns (lines: Lines)
    ensures lines == LinesOf(s)
  {
    hide LinesOf, Concat;
    if s == [] {
      NoLines(s);
      return [];
    }
    lines := [];
    var start := 0;
    assert s[0..] == s && lines + LinesOf(s) == LinesOf(s);
    for idx := 0 to |s|
      invariant start <= idx && LF !in s[start..idx]
      invariant lines + LinesOf(s[start..]) == LinesOf(s)
    {
      assert s[start..idx + 1] == s[start..idx] + [s[idx]];
      if s[idx] == LF {
        NextLine(s, start, idx, lines);
        lines := lines + [s[start..idx + 1]];
        start := idx + 1;
      }
    }
    LastLine(s, start);
    if start < |s| {
      lines := lines + [s[start..]];
    }
  }

  lemma {:induction false} NoLines(s: Bytes)
    requires s == []
    ensures LinesOf(s) == []
  {
  }

  lemma {:induction false} ConcatLines(a: Lines, b: Lines, c: Lines)
    ensures a + (b + c) == a + b + c
  {
  }

  lemma {:induction false} NextLine(s: Bytes, start: nat, idx: nat, lines: Lines)
    requires start <= idx < |s| && s[idx] == LF && LF !in s[start..idx]
    ensures lines + LinesOf(s[start..]) == lines + [s[start..idx + 1]] + LinesOf(s[idx + 1..])
  {
    var rest := s[start..];
    assert rest[..idx - start] == s[start..idx];
    assert rest[..idx - start + 1] == s[start..idx + 1] && rest[idx - start + 1..] == s[idx + 1..];
    ConcatLines(lines, [s[start..idx + 1]], LinesOf(s[idx + 1..]));
  }

  lemma {:induction false} LastLine(s: Bytes, start: nat)
    requires start <= |s| && LF !in s[start..|s|]
    ensures LinesOf(s[start..]) == if start < |s| then [s[start..]] else []
  {
    var rest := s[start..];
    assert rest[..|rest|] == s[start..|s|];
  }

  // ---- Common ends -------------------------------------------------------------------------

  predicate CommonPrefix(c: Lines, a: Lines, o: Lines, p: nat)
  {
    p <= |c| && p <= |a| && p <= |o| && c[..p] == a[..p] == o[..p]
  }

  predicate CommonSuffix(c: Lines, a: Lines, o: Lines, s: nat)
  {
    s <= |c| && s <= |a| && s <= |o| && c[|c| - s..] == a[|a| - s..] == o[|o| - s..]
  }

  /** The longest common prefix, and the longest common suffix that does not reach into it. */
  ghost predicate CommonEnds(c: Lines, a: Lines, o: Lines, p: nat, s: nat)
  {
    && CommonPrefix(c, a, o, p) && (forall n: nat :: CommonPrefix(c, a, o, n) ==> n <= p)
    && CommonSuffix(c, a, o, s) && p + s <= |c| && p + s <= |a| && p + s <= |o|
    && (forall n: nat :: CommonSuffix(c, a, o, n) && p + n <= |c| && p + n <= |a| && p + n <= |o| ==> n <= s)
  }

  function Middle(lines: Lines, p: nat, s: nat): Lines
    requires p + s <= |lines|
  {
    lines[p..|lines| - s]
  }

  lemma {:induction false} Rebuild(lines: Lines, p: nat, s: nat)
    requires p + s <= |lines|
    ensures lines == lines[..p] + Middle(lines, p, s) + lines[|lines| - s..]
    ensures Concat(lines) == Concat(lines[..p]) + Concat(Middle(lines, p, s)) + Concat(lines[|lines| - s..])
  {
    hide Concat;
    ConcatAppend(lines[..p] + Middle(lines, p, s), lines[|lines| - s..]);
    ConcatAppend(lines[..p], Middle(lines, p, s));
    assert lines == lines[..p] + Middle(lines, p, s) + lines[|lines| - s..];
  }

  /** Texts that agree in prefix, middle and suffix are equal; so the middles of three different texts all differ. */
  lemma {:induction false} MiddleDecides(x: Bytes, y: Bytes, p: nat, s: nat)
    requires var xs, ys := LinesOf(x), LinesOf(y);
             && p + s <= |xs| && p + s <= |ys|
             && xs[..p] == ys[..p] && xs[|xs| - s..] == ys[|ys| - s..]
             && Middle(xs, p, s) == Middle(ys, p, s)
    ensures x == y
  {
    hide LinesOf, Concat, Middle;
    Rebuild(LinesOf(x), p, s);
    Rebuild(LinesOf(y), p, s);
  }

  // ---- The merge ---------------------------------------------------------------------------

  /** Seven marker characters and a space, or the line between the two sides. */
  const START_MARKER: Bytes := [60, 60, 60, 60, 60, 60, 60, 32]
  const MIDDLE_MARKER: Bytes := [61, 61, 61, 61, 61, 61, 61, 10]
  const END_MARKER: Bytes := [62, 62, 62, 62, 62, 62, 62, 32]

  /** Two of the three inputs are equal, so that nothing has to be decided. */
  predicate Trivial(current: Bytes, ancestor: Bytes, other: Bytes)
  {
    current == other || current == ancestor || other == ancestor
  }

  function ConflictText(current: Lines, other: Lines, labels: Labels): Bytes
  {
    START_MARKER + labels.current + [LF] + Concat(current) + MIDDLE_MARKER + Concat(other) + END_MARKER + labels.other
        + [LF]
  }

  /** The one conflict that a merge reports, between the common ends of the three inputs. */
  ghost predicate IsConflict(current: Bytes, ancestor: Bytes, other: Bytes, labels: Labels, content: Bytes)
  {
    var c, a, o := LinesOf(current), LinesOf(ancestor), LinesOf(other);
    exists p: nat, s: nat ::
      && CommonEnds(c, a, o, p, s)
      && content == Concat(c[..p])
                    + [60, 60, 60, 60, 60, 60, 60, 32] + labels.current + [10] + Concat(Middle(c, p, s))
                    + [61, 61, 61, 61, 61, 61, 61, 10] + Concat(Middle(o, p, s))
                    + [62, 62, 62, 62, 62, 62, 62, 32] + labels.other + [10] + Concat(c[|c| - s..])
  }

  method AppendLines(out: Bytes, lines: Lines) returns (out': Bytes)
    ensures out' == out + Concat(lines)
  {
    out' := out;
    assert lines[0..] == lines;
    for i := 0 to |lines|
      invariant out' + Concat(lines[i..]) == out + Concat(lines)
    {
      assert lines[i..][1..] == lines[i + 1..];
      ConcatAssoc(out', lines[i], Concat(lines[i + 1..]));
      out' := out' + lines[i];
    }
    assert out' + [] == out';
  }

  method AppendConflict(out: Bytes, current: Lines, other: Lines, labels: Labels) returns (out': Bytes)
    ensures out' == out + ConflictText(current, other, labels)
  {
    hide Concat;
    out' := out + START_MARKER + labels.current + [LF];
    out' := AppendLines(out', current);
    out' := out' + MIDDLE_MARKER;
    out' := AppendLines(out', other);
    out' := out' + END_MARKER + labels.other + [LF];
    assert out' == out + ConflictText(current, other, labels);
  }

  /** The two counting loops. */
  method FindCommonEnds(c: Lines, a: Lines, o: Lines) returns (p: nat, s: nat)
    ensures CommonEnds(c, a, o, p, s)
  {
    hide CommonPrefix, CommonSuffix;
    p := 0;
    NoCommonLines(c, a, o);
    while p < |c| && p < |a| && p < |o| && c[p] == a[p] && a[p] == o[p]
      invariant CommonPrefix(c, a, o, p) && p <= |c| && p <= |a| && p <= |o|
    {
      NextCommonFirst(c, a, o, p);
      p := p + 1;
    }
    s := 0;
    while p + s < |c| && p + s < |a| && p + s < |o|
          && c[|c| - s - 1] == a[|a| - s - 1] && a[|a| - s - 1] == o[|o| - s - 1]
      invariant CommonSuffix(c, a, o, s) && p + s <= |c| && p + s <= |a| && p + s <= |o|
    {
      NextCommonLast(c, a, o, s);
      s := s + 1;
    }
    NoMoreCommon(c, a, o, p, s);
  }

  lemma {:induction false} NoCommonLines(c: Lines, a: Lines, o: Lines)
    ensures CommonPrefix(c, a, o, 0) && CommonSuffix(c, a, o, 0)
  {
    assert c[|c|..] == a[|a|..] == o[|o|..];
  }

  lemma {:induction false} NextCommonFirst(c: Lines, a: Lines, o: Lines, p: nat)
    requires CommonPrefix(c, a, o, p) && p < |c| && p < |a| && p < |o| && c[p] == a[p] == o[p]
    ensures CommonPrefix(c, a, o, p + 1)
  {
    assert c[..p + 1] == c[..p] + [c[p]] && a[..p + 1] == a[..p] + [a[p]] && o[..p + 1] == o[..p] + [o[p]];
  }

  lemma {:induction false} NextCommonLast(c: Lines, a: Lines, o: Lines, s: nat)
    requires CommonSuffix(c, a, o, s) && s < |c| && s < |a| && s < |o|
    requires c[|c| - s - 1] == a[|a| - s - 1] == o[|o| - s - 1]
    ensures CommonSuffix(c, a, o, s + 1)
  {
    assert c[|c| - s - 1..] == [c[|c| - s - 1]] + c[|c| - s..];
    assert a[|a| - s - 1..] == [a[|a| - s - 1]] + a[|a| - s..];
    assert o[|o| - s - 1..] == [o[|o| - s - 1]] + o[|o| - s..];
  }

  /** Where the loops stop, nothing longer is common. */
  lemma {:induction false} NoMoreCommon(c: Lines, a: Lines, o: Lines, p: nat, s: nat)
    requires p + s <= |c| && p + s <= |a| && p + s <= |o|
    requires p < |c| && p < |a| && p < |o| ==> c[p] != a[p] || a[p] != o[p]
    requires p + s < |c| && p + s < |a| && p + s < |o| ==>
               c[|c| - s - 1] != a[|a| - s - 1] || a[|a| - s - 1] != o[|o| - s - 1]
    ensures forall n: nat :: CommonPrefix(c, a, o, n) ==> n <= p
    ensures forall n: nat :: CommonSuffix(c, a, o, n) && p + n <= |c| && p + n <= |a| && p + n <= |o| ==> n <= s
  {
    forall n: nat | CommonPrefix(c, a, o, n) ensures n <= p {
      if p < n { CommonAt(c, a, o, n, p); }
    }
    forall n: nat | CommonSuffix(c, a, o, n) && p + n <= |c| && p + n <= |a| && p + n <= |o| ensures n <= s {
      if s < n { CommonFromEnd(c, a, o, n, s); }
    }
  }

  lemma {:induction false} CommonAt(c: Lines, a: Lines, o: Lines, n: nat, p: nat)
    requires CommonPrefix(c, a, o, n) && p < n
    ensures c[p] == a[p] == o[p]
  {
    assert c[..n][p] == a[..n][p] == o[..n][p];
  }

  lemma {:induction false} CommonFromEnd(c: Lines, a: Lines, o: Lines, n: nat, s: nat)
    requires CommonSuffix(c, a, o, n) && s < n
    ensures c[|c| - s - 1] == a[|a| - s - 1] == o[|o| - s - 1]
  {
    assert c[|c| - n..][n - s - 1] == a[|a| - n..][n - s - 1] == o[|o| - n..][n - s - 1];
  }

  /**
   * `merge_file`. When no two inputs are equal there is always a conflict: the branches for equal middles are never
   * taken.
   */
  method Merge(current: Bytes, ancestor: Bytes, other: Bytes, labels: Labels) returns (r: MergeResult)
    ensures r.conflicts == if Trivial(current, ancestor, other) then 0 else 1
    ensures current == other ==> r.content == current
    ensures current == ancestor ==> r.content == other
    ensures other == ancestor ==> r.content == current
    ensures !Trivial(current, ancestor, other) ==> IsConflict(current, ancestor, other, labels, r.content)
  {
    hide LinesOf, Concat, CommonPrefix, CommonSuffix, Middle, ConflictText;
    if current == other {
      return MergeResult(current, 0);
    }
    if current == ancestor {
      return MergeResult(other, 0);
    }
    if other == ancestor {
      return MergeResult(current, 0);
    }
    var c := SplitLines(current);
    var a := SplitLines(ancestor);
    var o := SplitLines(other);
    var p, s := FindCommonEnds(c, a, o);
    EndsShared(c, a, o, p, s);
    var currentMid, ancestorMid, otherMid := Middle(c, p, s), Middle(a, p, s), Middle(o, p, s);
    if currentMid == ancestorMid {
      MiddleDecides(current, ancestor, p, s);
      assert false;
    }
    if otherMid == ancestorMid {
      MiddleDecides(other, ancestor, p, s);
      assert false;
    }
    if currentMid == otherMid {
      MiddleDecides(current, other, p, s);
      assert false;
    }
    var out := AppendLines([], c[..p]);
    assert [] + Concat(c[..p]) == Concat(c[..p]);
    out := AppendConflict(out, currentMid, otherMid, labels);
    out := AppendLines(out, c[|c| - s..]);
    ConflictParts(Concat(c[..p]), currentMid, otherMid, labels, Concat(c[|c| - s..]));
    return MergeResult(out, 1);
  }

  lemma {:induction false} EndsShared(c: Lines, a: Lines, o: Lines, p: nat, s: nat)
    requires CommonEnds(c, a, o, p, s)
    ensures p + s <= |c| && p + s <= |a| && p + s <= |o|
    ensures c[..p] == a[..p] == o[..p] && c[|c| - s..] == a[|a| - s..] == o[|o| - s..]
  {
  }

  lemma {:induction false} ConflictParts(before: Bytes, current: Lines, other: Lines, labels: Labels, after: Bytes)
    ensures before + ConflictText(current, other, labels) + after
            == before + [60, 60, 60, 60, 60, 60, 60, 32] + labels.current + [10] + Concat(current)
               + [61, 61, 61, 61, 61, 61, 61, 10] + Concat(other)
               + [62, 62, 62, 62, 62, 62, 62, 32] + labels.other + [10] + after
  {
    hide Concat;
  }

  /** The common ends are unique, so the text of the conflict is determined by the inputs. */
  lemma {:induction false} ConflictUnique(current: Bytes, ancestor: Bytes, other: Bytes, labels: Labels, x: Bytes,
                                          y: Bytes)
    requires IsConflict(current, ancestor, other, labels, x) && IsConflict(current, ancestor, other, labels, y)
    ensures x == y
  {
    hide LinesOf, Concat, CommonPrefix, CommonSuffix, ConflictText;
    var c, a, o := LinesOf(current), LinesOf(ancestor), LinesOf(other);
    var p: nat, s: nat :| CommonEnds(c, a, o, p, s)
      && x == Concat(c[..p])
              + [60, 60, 60, 60, 60, 60, 60, 32] + labels.current + [10] + Concat(Middle(c, p, s))
              + [61, 61, 61, 61, 61, 61, 61, 10] + Concat(Middle(o, p, s))
              + [62, 62, 62, 62, 62, 62, 62, 32] + labels.other + [10] + Concat(c[|c| - s..]);
    var q: nat, t: nat :| CommonEnds(c, a, o, q, t)
      && y == Concat(c[..q])
              + [60, 60, 60, 60, 60, 60, 60, 32] + labels.current + [10] + Concat(Middle(c, q, t))
              + [61, 61, 61, 61, 61, 61, 61, 10] + Concat(Middle(o, q, t))
              + [62, 62, 62, 62, 62, 62, 62, 32] + labels.other + [10] + Concat(c[|c| - t..]);
    assert p == q;
    assert s == t;
  }
}
