/** The header block that commits and tags share: lines up to the first blank line, then the message. */
module Headers {
  import opened Common

  predicate NoBlankLine(s: Bytes)
  {
    forall j :: 0 <= j < |s| - 1 ==> !(s[j] == LF && s[j + 1] == LF)
  }

  /** `windows(2).position(|w| w == b"\n\n")`. */
  function HeaderEnd(s: Bytes): (k: Option<nat>)
    ensures k.Some? ==> k.value + 2 <= |s| && s[k.value] == LF && s[k.value + 1] == LF
    ensures k.Some? ==> forall j :: 0 <= j < k.value ==> !(s[j] == LF && s[j + 1] == LF)
    ensures k.None? ==> NoBlankLine(s)
  {
    if |s| < 2 then None
    else if s[0] == LF && s[1] == LF then Some(0)
    else
      var rest := HeaderEnd(s[1..]);
      assert forall j :: 0 <= j < |s| - 1 ==> s[j + 1] == s[1..][j];
      if rest.None? then None else Some(rest.value + 1)
  }

  /** A line a header block can hold without breaking it. */
  predicate HeaderLine(line: Bytes)
  {
    line != [] && LF !in line
  }

  predicate HeaderLines(lines: seq<Bytes>)
  {
    lines != [] && forall i :: 0 <= i < |lines| ==> HeaderLine(lines[i])
  }

  function Message(lines: seq<Bytes>, body: Bytes): Bytes
  {
    Join(lines, LF) + [LF, LF] + body
  }

  lemma {:induction false} JoinHasNoBlankLine(lines: seq<Bytes>)
    requires HeaderLines(lines)
    ensures var s := Join(lines, LF);
            s != [] && s[0] != LF && s[|s| - 1] != LF && NoBlankLine(s)
  {
    if |lines| > 1 {
      JoinHasNoBlankLine(lines[1..]);
      var rest := Join(lines[1..], LF);
      var s := Join(lines, LF);
      var n := |lines[0]|;
      assert forall j :: 0 <= j < n ==> s[j] == lines[0][j] && lines[0][j] in lines[0];
      assert forall j :: n < j < |s| ==> s[j] == rest[j - n - 1];
    }
  }

  /** The header block ends where the body was attached, and splits into its lines again. */
  lemma {:induction false} HeadersSplit(lines: seq<Bytes>, body: Bytes)
    requires HeaderLines(lines)
    ensures var s, n := Message(lines, body), |Join(lines, LF)|;
            && HeaderEnd(s) == Some(n)
            && Split(s[..n], LF) == lines
            && s[n + 2..] == body
  {
    hide HeaderEnd, Join, Split;
    var head := Join(lines, LF);
    var s := Message(lines, body);
    JoinHasNoBlankLine(lines);
    SplitJoin(lines, LF);
    assert s[..|head|] == head;
    EndIsUnique(s, |head|);
  }

  lemma {:induction false} EndIsUnique(s: Bytes, n: nat)
    requires n + 2 <= |s| && s[n] == LF && s[n + 1] == LF
    requires forall j :: 0 <= j < n ==> !(s[j] == LF && s[j + 1] == LF)
    ensures HeaderEnd(s) == Some(n)
  {
    hide HeaderEnd;
    assert HeaderEnd(s).Some? ==> !(HeaderEnd(s).value < n || n < HeaderEnd(s).value);
  }

  /** What stands behind a header word in the lines that begin with it. */
  function Values(lines: seq<Bytes>, word: Bytes): seq<Bytes>
  {
    if lines == [] then []
    else (if word <= lines[0] then [lines[0][|word|..]] else []) + Values(lines[1..], word)
  }

  lemma {:induction false} OneValue(line: Bytes, word: Bytes)
    ensures Values([line], word) == if word <= line then [line[|word|..]] else []
  {
    assert [line][1..] == [];
    assert Values([line][1..], word) == [];
  }

  lemma {:induction false} ValuesAppend(xs: seq<Bytes>, ys: seq<Bytes>, word: Bytes)
    ensures Values(xs + ys, word) == Values(xs, word) + Values(ys, word)
  {
    if xs == [] {
      assert xs + ys == ys;
    } else {
      assert (xs + ys)[1..] == xs[1..] + ys;
      ValuesAppend(xs[1..], ys, word);
    }
  }

  /** No line begins with the word. */
  predicate Without(lines: seq<Bytes>, word: Bytes)
  {
    forall i :: 0 <= i < |lines| ==> !(word <= lines[i])
  }

  lemma {:induction false} NoValues(lines: seq<Bytes>, word: Bytes)
    requires Without(lines, word)
    ensures Values(lines, word) == []
  {
    if lines != [] { NoValues(lines[1..], word); }
  }

  /** Lines without the word may be put in anywhere. */
  lemma {:induction false} ValuesInserted(lines: seq<Bytes>, i: nat, block: seq<Bytes>, word: Bytes)
    requires i <= |lines| && Without(block, word)
    ensures Values(lines[..i] + block + lines[i..], word) == Values(lines, word)
  {
    ValuesAppend(lines[..i] + block, lines[i..], word);
    ValuesAppend(lines[..i], block, word);
    ValuesAppend(lines[..i], lines[i..], word);
    NoValues(block, word);
    assert lines == lines[..i] + lines[i..] && Values(lines[..i], word) + [] == Values(lines[..i], word);
  }

  lemma {:induction false} HeaderLinesInserted(lines: seq<Bytes>, i: nat, block: seq<Bytes>)
    requires HeaderLines(lines) && i <= |lines| && (block == [] || HeaderLines(block))
    ensures HeaderLines(lines[..i] + block + lines[i..])
  {
    hide HeaderLine;
    var all := lines[..i] + block + lines[i..];
    forall k | 0 <= k < |all| ensures HeaderLine(all[k]) {
      assert all[k] == if k < i then lines[k] else if k < i + |block| then block[k - i] else lines[k - |block|];
    }
  }
}
