/** The patch id of a diff (`patch_id.rs`). */
module PatchId {
  import opened Common
  import opened ObjectText
  import opened Utf8

  datatype Mode = Stable | Unstable | Verbatim

  /** The hash of one file section, left abstract but for its length. */
  type Digest = f: Bytes -> Bytes | forall s :: |f(s)| == 20 witness s => seq(20, _ => 0)

  // ---- Addition modulo 2^160 ---------------------------------------------------------------

  const TWO_TO_160: nat := 0x1_0000_0000_0000_0000_0000_0000_0000_0000_0000_0000

  /** A byte string read as a little-endian number. */
  function Number(s: Bytes): nat
  {
    if s == [] then 0 else Number(s[..|s| - 1]) + s[|s| - 1] as int * Pow256(|s| - 1)
  }

  function Pow256(k: nat): (p: nat)
    ensures p >= 1
  {
    if k == 0 then 1 else 256 * Pow256(k - 1)
  }

  lemma {:induction false} Pow256Of20()
    ensures Pow256(20) == TWO_TO_160
  {
    assert Pow256(4) == 0x1_0000_0000;
    assert Pow256(8) == 0x1_0000_0000_0000_0000;
    assert Pow256(12) == 0x1_0000_0000_0000_0000_0000_0000;
    assert Pow256(16) == 0x1_0000_0000_0000_0000_0000_0000_0000_0000;
  }

  lemma {:induction false} NumberBound(s: Bytes)
    ensures Number(s) < Pow256(|s|)
  {
    if s != [] {
      var n := |s| - 1;
      NumberBound(s[..n]);
      DigitBound(s[n], Pow256(n));
    }
  }

  lemma {:induction false} DigitBound(b: byte, p: nat)
    ensures b as int * p <= 255 * p
  {
  }

  /** Twenty bytes are determined by their number. */
  lemma {:induction false} NumberInjective(s: Bytes, t: Bytes)
    requires |s| == |t| && Number(s) == Number(t)
    ensures s == t
  {
    if s != [] {
      var n := |s| - 1;
      NumberBound(s[..n]);
      NumberBound(t[..n]);
      SameDigit(Number(s[..n]), s[n], Number(t[..n]), t[n], Pow256(n));
      NumberInjective(s[..n], t[..n]);
      assert s == s[..n] + [s[n]] && t == t[..n] + [t[n]];
    }
  }

  lemma {:induction false} SameDigit(x: nat, a: byte, y: nat, b: byte, p: nat)
    requires x < p && y < p && x + a as int * p == y + b as int * p
    ensures a == b && x == y
  {
    if a < b {
      LowerDigit(x, a, y, b, p);
    } else if b < a {
      LowerDigit(y, b, x, a, p);
    }
  }

  lemma {:induction false} LowerDigit(x: nat, a: byte, y: nat, b: byte, p: nat)
    requires x < p && a < b
    ensures x + a as int * p < y + b as int * p
  {
    var less: nat, more: nat := a, b;
    Distribute(less, more - less, p);
    AtLeastOne(more - less, p);
  }

  lemma {:induction false} Distribute(x: nat, y: nat, p: nat)
    ensures (x + y) * p == x * p + y * p
  {
  }

  lemma {:induction false} AtLeastOne(x: nat, p: nat)
    requires x >= 1
    ensures x * p >= p
  {
    Distribute(x - 1, 1, p);
  }

  lemma {:induction false} NumberSnoc(s: Bytes, b: byte)
    ensures Number(s + [b]) == Number(s) + b as int * Pow256(|s|)
  {
    assert (s + [b])[..|s|] == s;
  }

  lemma {:induction false} CarryStep(p: nat, low: nat, x: nat, y: nat, carry: nat, a: byte, b: byte)
    requires low + carry * p == x + y
    ensures var total := carry + a as int + b as int;
            low + total % 256 * p + total / 256 * (256 * p) == (x + a as int * p) + (y + b as int * p)
  {
    var total := carry + a as int + b as int;
    assert total == total / 256 * 256 + total % 256;
    calc {
      total % 256 * p + total / 256 * (256 * p);
    ==
      (total % 256 + total / 256 * 256) * p;
    ==
      total * p;
    ==
      carry * p + a as int * p + b as int * p;
    }
  }

  /** The truncating cast to a byte. */
  function LowByte(total: nat): byte
  {
    total % 256
  }

  /** The low digits of the sum are done and `carry` goes into the next one. */
  ghost predicate Adding(before: Bytes, d: Bytes, low: Bytes, carry: nat)
  {
    && |low| <= |before| && |low| <= |d| && carry <= 1
    && Number(low) + carry * Pow256(|low|) == Number(before[..|low|]) + Number(d[..|low|])
  }

  lemma {:induction false} FlushStarts(before: Bytes, d: Bytes, low: Bytes)
    requires low == []
    ensures Adding(before, d, low, 0)
  {
    hide Number;
    NumberOfNothing(before[..0]);
    NumberOfNothing(d[..0]);
    NumberOfNothing(low);
  }

  lemma {:induction false} FlushStep(before: Bytes, d: Bytes, low: Bytes, carry: nat)
    requires Adding(before, d, low, carry) && |low| < |before| && |low| < |d|
    ensures var total := carry + before[|low|] as int + d[|low|] as int;
            Adding(before, d, low + [LowByte(total)], total / 256)
  {
    hide Number, Pow256;
    var i := |low|;
    CarryStep(Pow256(i), Number(low), Number(before[..i]), Number(d[..i]), carry, before[i], d[i]);
    assert before[..i + 1] == before[..i] + [before[i]] && d[..i + 1] == d[..i] + [d[i]];
    NumberSnoc(before[..i], before[i]);
    NumberSnoc(d[..i], d[i]);
    NumberSnoc(low, (carry + before[i] as int + d[i] as int) % 256);
    NextPower(i);
  }

  function AddModulo(x: nat, y: nat): (z: nat)
    ensures z < TWO_TO_160
  {
    (x + y) % TWO_TO_160
  }

  lemma {:induction false} FlushEnds(before: Bytes, d: Bytes, low: Bytes, carry: nat)
    requires Adding(before, d, low, carry) && |before| == |d| == |low| == 20
    ensures Number(low) == AddModulo(Number(before), Number(d))
  {
    hide Number, Pow256;
    assert before[..20] == before && d[..20] == d;
    NumberBound(low);
    Pow256Of20();
  }

  /** `patch_id_flush`: adds the digest of what has been hashed, and starts hashing afresh. */
  method PatchIdFlush(digest: Digest, result: array<byte>, hasher: Bytes) returns (hasher': Bytes)
    requires result.Length == 20
    modifies result
    ensures hasher' == []
    ensures Number(result[..]) == AddModulo(Number(old(result[..])), Number(digest(hasher)))
  {
    hide Number, Adding, AddModulo, LowByte;
    var d := digest(hasher);
    ghost var before := result[..];
    var carry: nat := 0;
    FlushStarts(before, d, result[..0]);
    for i := 0 to 20
      invariant Adding(before, d, result[..i], carry)
      invariant forall k :: i <= k < 20 ==> result[k] == before[k]
    {
      ghost var low := result[..i];
      FlushStep(before, d, low, carry);
      var total := carry + result[i] as int + d[i] as int;
      result[i] := LowByte(total);
      Extend(result, low, i);
      carry := total / 256;
    }
    assert result[..20] == result[..];
    FlushEnds(before, d, result[..], carry);
    return [];
  }

  lemma {:induction false} Extend(result: array<byte>, low: Bytes, i: nat)
    requires i < result.Length && |low| == i && forall k :: 0 <= k < i ==> result[k] == low[k]
    ensures result[..i + 1] == low + [result[i]]
  {
  }

  lemma {:induction false} NumberOfNothing(s: Bytes)
    requires s == []
    ensures Number(s) == 0
  {
  }

  lemma {:induction false} NextPower(k: nat)
    ensures Pow256(k + 1) == 256 * Pow256(k)
  {
  }

  // ---- Reading a patch line by line --------------------------------------------------------

  /** `diff `, `diff-tree `, `commit `, `From `, `index `, `--- `, `+++ `, `@@ -` and `\\ `. */
  const DIFF: Bytes := [100, 105, 102, 102, 32]
  const DIFF_TREE: Bytes := [100, 105, 102, 102, 45, 116, 114, 101, 101, 32]
  const COMMIT: Bytes := [99, 111, 109, 109, 105, 116, 32]
  const FROM: Bytes := [70, 114, 111, 109, 32]
  const INDEX: Bytes := [105, 110, 100, 101, 120, 32]
  const OLD_FILE: Bytes := [45, 45, 45, 32]
  const NEW_FILE: Bytes := [43, 43, 43, 32]
  const HUNK: Bytes := [64, 64, 32, 45]
  const NO_NEWLINE: Bytes := [92, 32]
  const COMMA: byte := 44

  predicate IsLetter(b: byte)
  {
    65 <= b <= 90 || 97 <= b <= 122
  }

  function WithoutSpaces(s: Bytes): Bytes
  {
    if s == [] then [] else if IsSpace(s[0]) then WithoutSpaces(s[1..]) else [s[0]] + WithoutSpaces(s[1..])
  }

  /** `patch_id_normalize_line`. */
  function Normalize(mode: Mode, line: Bytes): Bytes
  {
    if mode == Verbatim then line else WithoutSpaces(line)
  }

  /** The text in which an object id is looked for, and whether a header announced it. */
  function OidText(line: Bytes): (Bytes, bool)
  {
    if DIFF_TREE <= line then (line[|DIFF_TREE|..], true)
    else if COMMIT <= line then (line[|COMMIT|..], true)
    else if FROM <= line then (line[|FROM|..], true)
    else (line, false)
  }

  /** `parse_patch_id_hex`. */
  function LeadingOid(text: Bytes): Option<Bytes>
  {
    if |text| >= 40 && forall i :: 0 <= i < 40 ==> HexNibble(text[i]).Some? then Some(text[..40]) else None
  }

  /** `parse_patch_hunk_count`: what follows the first comma, or one. */
  function HunkCount(text: Bytes): Option<int>
  {
    var k := IndexOf(text, COMMA);
    var count := if k == |text| then Some(1) else ParseI64(text[k + 1..]);
    if count.None? then None else Some(count.value)
  }

  /** The two counts of a hunk header, before its bytes have been looked at as UTF-8. */
  function HeaderCounts(line: Bytes): Option<(int, int)>
  {
    if !(HUNK <= line) then None else
    var rest := line[|HUNK|..];
    var k := IndexOf(rest, SPACE);
    if k == |rest| then None else
    var olds, afterSpace := rest[..k], rest[k + 1..];
    if !([PLUS] <= afterSpace) then None else
    var news := FirstWord(afterSpace[1..]);
    if news == [] then None else
    var before, after := HunkCount(olds), HunkCount(news);
    if before.None? || after.None? then None else Some((before.value, after.value))
  }

  /** `scan_patch_hunk_header`: a header that is not UTF-8 as a whole has no counts. */
  function ScanHunkHeader(line: Bytes): Option<(int, int)>
  {
    if ValidUtf8(line) then HeaderCounts(line) else None
  }

  /** The variables of the loop, with the texts whose digests have been added to the result array. */
  datatype State = State(patchLen: nat, before: int, after: int, hasher: Bytes, flushed: seq<Bytes>)

  const START := State(0, -1, -1, [], [])

  /** The sum of the digests modulo 2^160. */
  function SumOf(digest: Digest, texts: seq<Bytes>): nat
  {
    if texts == [] then 0 else AddModulo(SumOf(digest, texts[..|texts| - 1]), Number(digest(texts[|texts| - 1])))
  }

  lemma {:induction false} SumSnoc(digest: Digest, texts: seq<Bytes>, text: Bytes)
    ensures SumOf(digest, texts + [text]) == AddModulo(SumOf(digest, texts), Number(digest(text)))
  {
    hide Number, AddModulo;
    assert (texts + [text])[..|texts|] == texts;
  }

  /** A line is skipped or taken in, or it ends the patch, possibly by naming the next commit. */
  datatype Step = Go(state: State) | Stop(nextOid: Option<Bytes>)

  /** One less in 64 bits; as in a release build, the least count wraps around. */
  function OneLess(count: int): int
  {
    if count == I64_MIN then I64_MAX else count - 1
  }

  /** The tail of the loop body: a line that is hashed. */
  function HashLine(mode: Mode, st: State, line: Bytes): State
  {
    var counted := st.(
      before := if line != [] && (line[0] == MINUS || line[0] == SPACE) then OneLess(st.before) else st.before,
      after := if line != [] && (line[0] == PLUS || line[0] == SPACE) then OneLess(st.after) else st.after);
    var text := Normalize(mode, line);
    counted.(patchLen := st.patchLen + |text|, hasher := st.hasher + text)
  }

  function Flush(st: State): State
  {
    st.(hasher := [], flushed := st.flushed + [st.hasher])
  }

  /** A line between two hunks or two files: both counts have run out. */
  function BetweenHunks(mode: Mode, st: State, line: Bytes): Step
  {
    if HUNK <= line then
      var counts := ScanHunkHeader(line);
      Go(if counts.None? then st else st.(before := counts.value.0, after := counts.value.1))
    else if !(DIFF <= line) then Stop(None)
    else
      var flushed := if mode == Stable then Flush(st) else st;
      Go(HashLine(mode, flushed.(before := -1, after := -1), line))
  }

  function ReadLine(mode: Mode, st: State, line: Bytes): Step
  {
    var (text, announced) := OidText(line);
    if !announced && NO_NEWLINE <= line && |line| > 12 then Go(st)
    else if LeadingOid(text).Some? then Stop(LeadingOid(text))
    else if st.patchLen == 0 && !(DIFF <= line) then Go(st)
    else if st.before == -1 then
      if INDEX <= line then Go(st)
      else if OLD_FILE <= line then Go(HashLine(mode, st.(before := 1, after := 1), line))
      else if line == [] || !IsLetter(line[0]) then Stop(None)
      else Go(HashLine(mode, st, line))
    else if st.before == 0 && st.after == 0 then BetweenHunks(mode, st, line)
    else Go(HashLine(mode, st, line))
  }

  datatype Outcome = Outcome(final: State, nextOid: Option<Bytes>, read: nat)

  /** All lines up to the one that ends the patch; that line is consumed as well. */
  function ReadLines(mode: Mode, st: State, lines: seq<Bytes>): (o: Outcome)
    ensures o.read <= |lines|
    decreases lines
  {
    if lines == [] then Outcome(st, None, 0) else
    match ReadLine(mode, st, lines[0])
    case Stop(oid) => Outcome(st, oid, 1)
    case Go(next) =>
      var rest := ReadLines(mode, next, lines[1..]);
      rest.(read := rest.read + 1)
  }

  /** The loop body of `patch_id_one`. */
  method TakeLine(digest: Digest, mode: Mode, sum: array<byte>, patchLen: nat, before: int, after: int, hasher: Bytes,
                  line: Bytes,
                  ghost flushed: seq<Bytes>)
    returns (stop: bool, nextOid: Option<Bytes>, patchLen': nat, before': int, after': int, hasher': Bytes,
             ghost flushed': seq<Bytes>)
    requires sum.Length == 20 && Number(sum[..]) == SumOf(digest, flushed)
    modifies sum
    ensures Number(sum[..]) == SumOf(digest, flushed')
    ensures match ReadLine(mode, State(patchLen, before, after, hasher, flushed), line)
            case Stop(oid) => stop && nextOid == oid
            case Go(next) => !stop && next == State(patchLen', before', after', hasher', flushed')
    ensures stop ==>
            patchLen' == patchLen && before' == before && after' == after && hasher' == hasher && flushed' == flushed
  {
    hide Number, AddModulo, SumOf, ScanHunkHeader, OidText, LeadingOid, Normalize, IsLetter;
    stop, nextOid, patchLen', before', after', hasher' := false, None, patchLen, before, after, hasher;
    flushed' := flushed;
    var (text, announced) := OidText(line);
    if !announced && NO_NEWLINE <= line && |line| > 12 {
      return;
    }
    if LeadingOid(text).Some? {
      stop, nextOid := true, LeadingOid(text);
      return;
    }
    if patchLen == 0 && !(DIFF <= line) {
      return;
    }
    if before == -1 {
      if INDEX <= line {
        return;
      } else if OLD_FILE <= line {
        before', after' := 1, 1;
      } else if line == [] || !IsLetter(line[0]) {
        stop := true;
        return;
      }
    }
    if before' == 0 && after' == 0 {
      if HUNK <= line {
        var counts := ScanHunkHeader(line);
        if counts.Some? {
          before', after' := counts.value.0, counts.value.1;
        }
        return;
      }
      if !(DIFF <= line) {
        stop := true;
        return;
      }
      if mode == Stable {
        SumSnoc(digest, flushed, hasher);
        hasher' := PatchIdFlush(digest, sum, hasher);
        flushed' := flushed + [hasher];
      }
      before', after' := -1, -1;
    }
    if line != [] && (line[0] == MINUS || line[0] == SPACE) {
      before' := OneLess(before');
    }
    if line != [] && (line[0] == PLUS || line[0] == SPACE) {
      after' := OneLess(after');
    }
    var normalized := Normalize(mode, line);
    patchLen' := patchLen + |normalized|;
    hasher' := hasher' + normalized;
  }

  /** `patch_id_one`. */
  method PatchIdOne(digest: Digest, lines: seq<Bytes>, start: nat, mode: Mode)
    returns (patchLen: nat, nextOid: Option<Bytes>, result: Bytes, cursor: nat)
    requires start <= |lines|
    ensures |result| == 20
    ensures var o := ReadLines(mode, START, lines[start..]);
            && patchLen == o.final.patchLen && nextOid == o.nextOid && cursor == start + o.read
            && Number(result) == SumOf(digest, Flush(o.final).flushed)
  {
    hide Number, AddModulo, SumOf, ReadLines, ReadLine;
    ghost var all := ReadLines(mode, START, lines[start..]);
    var sum := new byte[20](_ => 0);
    ZeroNumber(sum[..]);
    var before, after: int := -1, -1;
    var hasher: Bytes := [];
    patchLen := 0;
    cursor := start;
    ghost var flushed: seq<Bytes> := [];
    NothingSummed(digest);
    while cursor < |lines|
      invariant start <= cursor <= |lines| && Number(sum[..]) == SumOf(digest, flushed)
      invariant var rest := ReadLines(mode, State(patchLen, before, after, hasher, flushed), lines[cursor..]);
                all == rest.(read := rest.read + (cursor - start))
    {
      NextLine(mode, State(patchLen, before, after, hasher, flushed), lines, cursor);
      cursor := cursor + 1;
      var stop;
      stop, nextOid, patchLen, before, after, hasher, flushed :=
        TakeLine(digest, mode, sum, patchLen, before, after, hasher, lines[cursor - 1], flushed);
      if stop {
        SumSnoc(digest, flushed, hasher);
        hasher := PatchIdFlush(digest, sum, hasher);
        return patchLen, nextOid, sum[..], cursor;
      }
    }
    NoLines(mode, State(patchLen, before, after, hasher, flushed), lines[cursor..]);
    SumSnoc(digest, flushed, hasher);
    hasher := PatchIdFlush(digest, sum, hasher);
    return patchLen, None, sum[..], cursor;
  }

  lemma {:induction false} NextLine(mode: Mode, st: State, lines: seq<Bytes>, cursor: nat)
    requires cursor < |lines|
    ensures var here := ReadLines(mode, st, lines[cursor..]);
            match ReadLine(mode, st, lines[cursor])
            case Stop(oid) => here == Outcome(st, oid, 1)
            case Go(next) =>
              var rest := ReadLines(mode, next, lines[cursor + 1..]);
              here == rest.(read := rest.read + 1)
  {
    hide ReadLine;
    assert lines[cursor..][1..] == lines[cursor + 1..];
  }

  lemma {:induction false} NoLines(mode: Mode, st: State, lines: seq<Bytes>)
    requires lines == []
    ensures ReadLines(mode, st, lines) == Outcome(st, None, 0)
  {
  }

  lemma {:induction false} NothingSummed(digest: Digest)
    ensures SumOf(digest, []) == 0
  {
  }

  lemma {:induction false} ZeroNumber(s: Bytes)
    requires forall i :: 0 <= i < |s| ==> s[i] == 0
    ensures Number(s) == 0
  {
    if s != [] { ZeroNumber(s[..|s| - 1]); }
  }
}
