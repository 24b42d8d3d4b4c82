/** The commit object format (`commit.rs`). */
module CommitCodec {
  import opened Common
  import opened Objects
  import opened ObjectText
  import opened Headers
  import opened Signatures

  datatype CommitObject = CommitObject(
    tree: ObjectId, parents: seq<ObjectId>, author: Bytes, committer: Bytes, message: Bytes)

  datatype CommitLinks = CommitLinks(tree: ObjectId, parents: seq<ObjectId>)

  /** `tree `, `parent `, `author ` and `committer `. */
  const TREE: Bytes := [116, 114, 101, 101, 32]
  const PARENT: Bytes := [112, 97, 114, 101, 110, 116, 32]
  const AUTHOR: Bytes := [97, 117, 116, 104, 111, 114, 32]
  const COMMITTER: Bytes := [99, 111, 109, 109, 105, 116, 116, 101, 114, 32]

  // ---- Encoding ----------------------------------------------------------------------------

  function ParentLines(parents: seq<ObjectId>): (lines: seq<Bytes>)
    ensures forall i :: 0 <= i < |lines| ==> HeaderLine(lines[i])
  {
    if parents == [] then [] else [PARENT + Hex(parents[0].digest)] + ParentLines(parents[1..])
  }

  function SignatureLines(author: Signature, committer: Signature): seq<Bytes>
  {
    [AUTHOR + SignatureText(author), COMMITTER + SignatureText(committer)]
  }

  function CommitLines(tree: ObjectId, parents: seq<ObjectId>, author: Signature, committer: Signature): seq<Bytes>
  {
    [TREE + Hex(tree.digest)] + (ParentLines(parents) + SignatureLines(author, committer))
  }

  predicate Encodable(tree: ObjectId, parents: seq<ObjectId>, message: Bytes)
  {
    NUL !in message && forall i :: 0 <= i < |parents| ==> parents[i].algorithm == tree.algorithm
  }

  lemma {:induction false} JoinNext(line: Bytes, lines: seq<Bytes>)
    requires lines != []
    ensures Join([line] + lines, LF) == line + [LF] + Join(lines, LF)
  {
    assert ([line] + lines)[1..] == lines;
  }

  method EncodeCommit(tree: ObjectId, parents: seq<ObjectId>, author: Signature, committer: Signature, message: Bytes)
    returns (r: Result<Bytes>)
    ensures r == if Encodable(tree, parents, message)
                 then Ok(Message(CommitLines(tree, parents, author, committer), message)) else Err(InvalidInput)
    ensures r.Ok? <==> 0 !in message && forall p :: p in parents ==> p.algorithm == tree.algorithm
    ensures r.Ok? ==> r.value == [116, 114, 101, 101, 32] + Hex(tree.digest) + [10] + ParentText(parents)
                                 + [97, 117, 116, 104, 111, 114, 32] + SignatureText(author) + [10]
                                 + [99, 111, 109, 109, 105, 116, 116, 101, 114, 32] + SignatureText(committer)
                                 + [10, 10] + message
  {
    hide SignatureText, Hex, Join, ParentLines;
    ParentLinesText(parents, SignatureLines(author, committer));
    SignatureLinesText(author, committer);
    if NUL in message {
      return Err(InvalidInput);
    }
    if exists i :: 0 <= i < |parents| && parents[i].algorithm != tree.algorithm {
      return Err(InvalidInput);
    }
    var out := TREE + Hex(tree.digest) + [LF];
    ghost var tail := SignatureLines(author, committer);
    ghost var lines := CommitLines(tree, parents, author, committer);
    JoinNext(lines[0], ParentLines(parents) + tail);
    assert parents[0..] == parents;
    for i := 0 to |parents|
      invariant out + Join(ParentLines(parents[i..]) + tail, LF) == Join(lines, LF)
    {
      NextParent(parents[i..], tail, out);
      assert parents[i..][1..] == parents[i + 1..];
      out := out + PARENT + Hex(parents[i].digest) + [LF];
    }
    NoParents(parents[|parents|..], author, committer, out);
    out := out + AUTHOR;
    out := WriteTo(author, out);
    out := out + [LF] + COMMITTER;
    out := WriteTo(committer, out);
    assert out == Join(lines, LF);
    return Ok(out + [LF, LF] + message);
  }

  lemma {:induction false} NextParent(parents: seq<ObjectId>, tail: seq<Bytes>, out: Bytes)
    requires parents != [] && tail != []
    ensures out + Join(ParentLines(parents) + tail, LF)
            == out + PARENT + Hex(parents[0].digest) + [LF] + Join(ParentLines(parents[1..]) + tail, LF)
  {
    hide Hex, Join;
    var line, rest := PARENT + Hex(parents[0].digest), ParentLines(parents[1..]) + tail;
    assert ParentLines(parents) + tail == [line] + rest;
    JoinNext(line, rest);
  }

  lemma {:induction false} NoParents(parents: seq<ObjectId>, author: Signature, committer: Signature, out: Bytes)
    requires parents == []
    ensures out + Join(ParentLines(parents) + SignatureLines(author, committer), LF)
            == out + AUTHOR + SignatureText(author) + [LF] + COMMITTER + SignatureText(committer)
  {
    hide SignatureText, Join;
    var a, c := AUTHOR + SignatureText(author), COMMITTER + SignatureText(committer);
    assert ParentLines(parents) + SignatureLines(author, committer) == [a] + [c];
    JoinNext(a, [c]);
    JoinOne(c);
  }

  /** One line `parent <id>` for each parent. */
  function ParentText(parents: seq<ObjectId>): Bytes
  {
    if parents == [] then []
    else [112, 97, 114, 101, 110, 116, 32] + Hex(parents[0].digest) + [10] + ParentText(parents[1..])
  }

  lemma {:induction false} ParentLinesText(parents: seq<ObjectId>, tail: seq<Bytes>)
    requires tail != []
    ensures Join(ParentLines(parents) + tail, LF) == ParentText(parents) + Join(tail, LF)
  {
    hide Hex, Join;
    if parents == [] {
      assert ParentLines(parents) + tail == tail;
    } else {
      var line, rest := PARENT + Hex(parents[0].digest), ParentLines(parents[1..]) + tail;
      assert ParentLines(parents) + tail == [line] + rest;
      JoinNext(line, rest);
      ParentLinesText(parents[1..], tail);
      ConcatAssoc(line + [LF], ParentText(parents[1..]), Join(tail, LF));
    }
  }

  lemma {:induction false} SignatureLinesText(author: Signature, committer: Signature)
    ensures Join(SignatureLines(author, committer), LF)
            == [97, 117, 116, 104, 111, 114, 32] + SignatureText(author) + [10]
               + [99, 111, 109, 109, 105, 116, 116, 101, 114, 32] + SignatureText(committer)
  {
    hide SignatureText, Join;
    var a, c := AUTHOR + SignatureText(author), COMMITTER + SignatureText(committer);
    assert SignatureLines(author, committer) == [a] + [c];
    JoinNext(a, [c]);
    JoinOne(c);
  }

  lemma {:induction false} JoinOne(line: Bytes)
    ensures Join([line], LF) == line
  {
  }

  // ---- Decoding ----------------------------------------------------------------------------

  /** What the header loop has found so far. */
  datatype Found = Found(tree: Option<ObjectId>, parents: seq<ObjectId>, author: Option<Bytes>,
                         committer: Option<Bytes>)

  const NOTHING := Found(None, [], None, None)

  /** `parse_commit_id`. */
  function ParseId(algorithm: HashAlgorithm, value: Bytes): Result<ObjectId>
  {
    var id := FromHex(algorithm, value);
    if id.Err? then Err(InvalidData) else id
  }

  /** One header line. Continuation lines and unknown headers are skipped; only `tree` must not repeat. */
  function ReadLine(algorithm: HashAlgorithm, found: Found, line: Bytes): (r: Result<Found>)
    ensures r.Err? ==> r.error == InvalidData
  {
    if [SPACE] <= line then Ok(found)
    else if TREE <= line then
      if found.tree.Some? then Err(InvalidData) else
      var id := ParseId(algorithm, line[|TREE|..]);
      if id.Err? then Err(id.error) else Ok(found.(tree := Some(id.value)))
    else if PARENT <= line then
      var id := ParseId(algorithm, line[|PARENT|..]);
      if id.Err? then Err(id.error) else Ok(found.(parents := found.parents + [id.value]))
    else if AUTHOR <= line then Ok(found.(author := Some(line[|AUTHOR|..])))
    else if COMMITTER <= line then Ok(found.(committer := Some(line[|COMMITTER|..])))
    else Ok(found)
  }

  function ReadLines(algorithm: HashAlgorithm, found: Found, lines: seq<Bytes>): (r: Result<Found>)
    ensures r.Err? ==> r.error == InvalidData
    decreases lines
  {
    if lines == [] then Ok(found) else
    var next := ReadLine(algorithm, found, lines[0]);
    if next.Err? then next else ReadLines(algorithm, next.value, lines[1..])
  }

  function Finish(found: Found, message: Bytes): Result<CommitObject>
  {
    if found.tree.None? || found.author.None? || found.committer.None? then Err(InvalidData)
    else Ok(CommitObject(found.tree.value, found.parents, found.author.value, found.committer.value, message))
  }

  /** The commit that `bytes` stands for. */
  function CommitOf(algorithm: HashAlgorithm, bytes: Bytes): (r: Result<CommitObject>)
    ensures r.Err? ==> r.error == InvalidData
  {
    var end := HeaderEnd(bytes);
    if end.None? then Err(InvalidData) else
    var found := ReadLines(algorithm, NOTHING, Split(bytes[..end.value], LF));
    if found.Err? then Err(found.error) else Finish(found.value, bytes[end.value + 2..])
  }

  method DecodeCommit(algorithm: HashAlgorithm, bytes: Bytes) returns (r: Result<CommitObject>)
    ensures r == CommitOf(algorithm, bytes)
  {
    hide ParseId, HeaderEnd, Split;
    var end := HeaderEnd(bytes);
    if end.None? {
      return Err(InvalidData);
    }
    var lines := Split(bytes[..end.value], LF);
    var tree, parents, author, committer := None, [], None, None;
    assert lines[0..] == lines;
    for i := 0 to |lines|
      invariant ReadLines(algorithm, NOTHING, lines)
                == ReadLines(algorithm, Found(tree, parents, author, committer), lines[i..])
    {
      var line := lines[i];
      assert lines[i..][1..] == lines[i + 1..];
      if [SPACE] <= line {
        continue;
      }
      if TREE <= line {
        if tree.Some? {
          return Err(InvalidData);
        }
        var id := ParseId(algorithm, line[|TREE|..]);
        if id.Err? {
          return Err(id.error);
        }
        tree := Some(id.value);
      } else if PARENT <= line {
        var id := ParseId(algorithm, line[|PARENT|..]);
        if id.Err? {
          return Err(id.error);
        }
        parents := parents + [id.value];
      } else if AUTHOR <= line {
        author := Some(line[|AUTHOR|..]);
      } else if COMMITTER <= line {
        committer := Some(line[|COMMITTER|..]);
      }
    }
    if tree.None? || author.None? || committer.None? {
      return Err(InvalidData);
    }
    return Ok(CommitObject(tree.value, parents, author.value, committer.value, bytes[end.value + 2..]));
  }

  function Links(commit: Result<CommitObject>): Result<CommitLinks>
  {
    if commit.Err? then Err(commit.error) else Ok(CommitLinks(commit.value.tree, commit.value.parents))
  }

  /** The cheap decoder accepts exactly the commits the full one accepts, and agrees with it. */
  method DecodeCommitLinks(algorithm: HashAlgorithm, bytes: Bytes) returns (r: Result<CommitLinks>)
    ensures r == Links(CommitOf(algorithm, bytes))
  {
    hide ParseId, HeaderEnd, Split;
    var end := HeaderEnd(bytes);
    if end.None? {
      return Err(InvalidData);
    }
    var lines := Split(bytes[..end.value], LF);
    var tree, parents, author, committer := None, [], false, false;
    ghost var found := NOTHING;
    assert lines[0..] == lines;
    for i := 0 to |lines|
      invariant ReadLines(algorithm, NOTHING, lines) == ReadLines(algorithm, found, lines[i..])
      invariant found.tree == tree && found.parents == parents
      invariant found.author.Some? == author && found.committer.Some? == committer
    {
      var line := lines[i];
      assert lines[i..][1..] == lines[i + 1..];
      ghost var next := ReadLine(algorithm, found, line);
      if [SPACE] <= line {
        continue;
      }
      if TREE <= line {
        if tree.Some? {
          return Err(InvalidData);
        }
        var id := ParseId(algorithm, line[|TREE|..]);
        if id.Err? {
          return Err(id.error);
        }
        tree := Some(id.value);
      } else if PARENT <= line {
        var id := ParseId(algorithm, line[|PARENT|..]);
        if id.Err? {
          return Err(id.error);
        }
        parents := parents + [id.value];
      } else if AUTHOR <= line {
        author := true;
      } else if COMMITTER <= line {
        committer := true;
      }
      found := next.value;
    }
    if !author {
      return Err(InvalidData);
    }
    if !committer {
      return Err(InvalidData);
    }
    if tree.None? {
      return Err(InvalidData);
    }
    return Ok(CommitLinks(tree.value, parents));
  }

  // ---- Round trip --------------------------------------------------------------------------

  lemma {:induction false} ReadIdLine(algorithm: HashAlgorithm, found: Found, id: ObjectId)
    requires id.algorithm == algorithm
    ensures found.tree.None? ==>
              ReadLine(algorithm, found, TREE + Hex(id.digest)) == Ok(found.(tree := Some(id)))
    ensures ReadLine(algorithm, found, PARENT + Hex(id.digest)) == Ok(found.(parents := found.parents + [id]))
  {
    hide FromHex, Hex;
    HexRoundTrip(id);
    assert (TREE + Hex(id.digest))[|TREE|..] == Hex(id.digest);
    assert (PARENT + Hex(id.digest))[|PARENT|..] == Hex(id.digest);
    assert TREE[0] == 116 && PARENT[0] == 112;
  }

  lemma {:induction false} ReadSignatureLines(algorithm: HashAlgorithm, found: Found, author: Signature,
                                              committer: Signature)
    ensures ReadLines(algorithm, found, SignatureLines(author, committer))
            == Ok(found.(author := Some(SignatureText(author)), committer := Some(SignatureText(committer))))
  {
    hide SignatureText, ReadLine;
    var lines := SignatureLines(author, committer);
    var next := found.(author := Some(SignatureText(author)));
    ReadTextLine(algorithm, found, SignatureText(author));
    ReadTextLine(algorithm, next, SignatureText(committer));
    assert lines[1..][0] == lines[1] && |lines[1..]| == 1;
    assert ReadLines(algorithm, found, lines) == ReadLines(algorithm, next, lines[1..]);
    assert ReadLines(algorithm, next, lines[1..])
           == ReadLines(algorithm, next.(committer := Some(SignatureText(committer))), lines[1..][1..]);
  }

  lemma {:induction false} ReadTextLine(algorithm: HashAlgorithm, found: Found, text: Bytes)
    ensures ReadLine(algorithm, found, AUTHOR + text) == Ok(found.(author := Some(text)))
    ensures ReadLine(algorithm, found, COMMITTER + text) == Ok(found.(committer := Some(text)))
  {
    assert (AUTHOR + text)[|AUTHOR|..] == text && (COMMITTER + text)[|COMMITTER|..] == text;
    assert (AUTHOR + text)[0] == 97 && (COMMITTER + text)[0] == 99;
  }

  lemma {:induction false} ReadParentLines(algorithm: HashAlgorithm, found: Found, parents: seq<ObjectId>,
                                           tail: seq<Bytes>)
    requires forall i :: 0 <= i < |parents| ==> parents[i].algorithm == algorithm
    ensures ReadLines(algorithm, found, ParentLines(parents) + tail)
            == ReadLines(algorithm, found.(parents := found.parents + parents), tail)
    decreases parents
  {
    hide ReadLine, Hex;
    if parents == [] {
      assert ParentLines(parents) + tail == tail && found.parents + parents == found.parents;
    } else {
      ReadIdLine(algorithm, found, parents[0]);
      var next := found.(parents := found.parents + [parents[0]]);
      ReadParentLines(algorithm, next, parents[1..], tail);
      assert (ParentLines(parents) + tail)[1..] == ParentLines(parents[1..]) + tail;
      assert next.parents + parents[1..] == found.parents + parents;
    }
  }

  lemma {:induction false} CommitLinesAreHeaders(tree: ObjectId, parents: seq<ObjectId>, author: Signature,
                                                 committer: Signature)
    requires ValidSignature(author) && ValidSignature(committer)
    ensures HeaderLines(CommitLines(tree, parents, author, committer))
  {
    hide SignatureText, ValidSignature, ParentLines, Hex;
    SignatureIsOneLine(author);
    SignatureIsOneLine(committer);
    var lines := CommitLines(tree, parents, author, committer);
    var n := |ParentLines(parents)|;
    forall i | 0 <= i < |lines| ensures HeaderLine(lines[i]) {
      if 0 < i <= n { assert lines[i] == ParentLines(parents)[i - 1]; }
    }
  }

  /** Decoding an encoded commit gives back its tree, parents, printed signatures and message. */
  lemma {:induction false} CommitRoundTrip(tree: ObjectId, parents: seq<ObjectId>, author: Signature,
                                           committer: Signature, message: Bytes)
    requires ValidSignature(author) && ValidSignature(committer) && Encodable(tree, parents, message)
    ensures CommitOf(tree.algorithm, Message(CommitLines(tree, parents, author, committer), message))
            == Ok(CommitObject(tree, parents, SignatureText(author), SignatureText(committer), message))
  {
    hide SignatureText, Message, ReadLine, ParentLines, Hex, HeaderEnd, Split;
    var lines := CommitLines(tree, parents, author, committer);
    CommitLinesAreHeaders(tree, parents, author, committer);
    HeadersSplit(lines, message);
    ReadIdLine(tree.algorithm, NOTHING, tree);
    assert lines[1..] == ParentLines(parents) + SignatureLines(author, committer);
    var found := NOTHING.(tree := Some(tree));
    ReadParentLines(tree.algorithm, found, parents, SignatureLines(author, committer));
    assert [] + parents == parents;
    ReadSignatureLines(tree.algorithm, found.(parents := parents), author, committer);
  }

  /** The signatures of an encoded commit can be read back as well, so nothing of it is lost. */
  lemma {:induction false} CommitSignaturesReadable(tree: ObjectId, parents: seq<ObjectId>, author: Signature,
                                                    committer: Signature, message: Bytes)
    requires ValidSignature(author) && ValidSignature(committer) && Encodable(tree, parents, message)
    ensures var commit := CommitOf(tree.algorithm, Message(CommitLines(tree, parents, author, committer), message));
            commit.Ok? && ParseSignature(commit.value.author) == Ok(author)
                && ParseSignature(commit.value.committer) == Ok(committer)
  {
    hide *;
    CommitRoundTrip(tree, parents, author, committer, message);
    SignatureRoundTrip(author);
    SignatureRoundTrip(committer);
  }

  // ---- What the decoder makes of any header lines ------------------------------------------

  /** `tree `, `parent `, `author ` and `committer `. */
  const TREE_WORD: Bytes := [116, 114, 101, 101, 32]
  const PARENT_WORD: Bytes := [112, 97, 114, 101, 110, 116, 32]
  const AUTHOR_WORD: Bytes := [97, 117, 116, 104, 111, 114, 32]
  const COMMITTER_WORD: Bytes := [99, 111, 109, 109, 105, 116, 116, 101, 114, 32]

  function Ids(algorithm: HashAlgorithm, values: seq<Bytes>): (ids: seq<ObjectId>)
    requires AllIds(algorithm, values)
    ensures |ids| == |values| && forall i :: 0 <= i < |ids| ==> Ok(ids[i]) == FromHex(algorithm, values[i])
  {
    if values == [] then []
    else [FromHex(algorithm, values[0]).value] + Ids(algorithm, values[1..])
  }

  /**
   * The commit of these header lines: the one `tree`, all `parent`s in their order, and the last `author` and
   * `committer`. All other lines are passed over.
   */
  function CommitOfLines(algorithm: HashAlgorithm, lines: seq<Bytes>, message: Bytes): Result<CommitObject>
  {
    var trees, parents := Values(lines, TREE_WORD), Values(lines, PARENT_WORD);
    var authors, committers := Values(lines, AUTHOR_WORD), Values(lines, COMMITTER_WORD);
    if |trees| != 1 || !AllIds(algorithm, trees) || !AllIds(algorithm, parents) || authors == [] || committers == []
    then Err(InvalidData)
    else Ok(CommitObject(Ids(algorithm, trees)[0], Ids(algorithm, parents),
                         authors[|authors| - 1], committers[|committers| - 1], message))
  }

  function LastOr(values: seq<Bytes>, default: Option<Bytes>): Option<Bytes>
  {
    if values == [] then default else Some(values[|values| - 1])
  }

  /** What the loop has found when it started from `found`. */
  function FoundIn(algorithm: HashAlgorithm, found: Found, lines: seq<Bytes>): Result<Found>
  {
    var trees, parents := Values(lines, TREE_WORD), Values(lines, PARENT_WORD);
    if |trees| + (if found.tree.Some? then 1 else 0) > 1 || !AllIds(algorithm, trees) || !AllIds(algorithm, parents)
    then Err(InvalidData)
    else Ok(Found(if trees == [] then found.tree else Some(Ids(algorithm, trees)[0]),
                  found.parents + Ids(algorithm, parents),
                  LastOr(Values(lines, AUTHOR_WORD), found.author),
                  LastOr(Values(lines, COMMITTER_WORD), found.committer)))
  }

  lemma {:induction false} OneWord(line: Bytes)
    ensures TREE_WORD <= line ==>
              !([SPACE] <= line) && !(PARENT_WORD <= line) && !(AUTHOR_WORD <= line) && !(COMMITTER_WORD <= line)
    ensures PARENT_WORD <= line ==> !([SPACE] <= line) && !(AUTHOR_WORD <= line) && !(COMMITTER_WORD <= line)
    ensures AUTHOR_WORD <= line ==> !([SPACE] <= line) && !(COMMITTER_WORD <= line)
    ensures COMMITTER_WORD <= line ==> !([SPACE] <= line)
  {
    assert TREE_WORD[0] == 116 && PARENT_WORD[0] == 112 && AUTHOR_WORD[0] == 97 && COMMITTER_WORD[0] == 99;
    assert TREE_WORD <= line ==> line[0] == 116;
    assert PARENT_WORD <= line ==> line[0] == 112;
    assert AUTHOR_WORD <= line ==> line[0] == 97;
    assert COMMITTER_WORD <= line ==> line[0] == 99;
    assert [SPACE] <= line ==> line[0] == [SPACE][0];
  }

  /** One line of each kind. */
  lemma {:induction false} ReadLineMeans(algorithm: HashAlgorithm, found: Found, line: Bytes)
    ensures ReadLine(algorithm, found, line) == FoundIn(algorithm, found, [line])
  {
    hide FromHex, AllIds, Ids, Values;
    OneWord(line);
    OneValue(line, TREE_WORD);
    OneValue(line, PARENT_WORD);
    OneValue(line, AUTHOR_WORD);
    OneValue(line, COMMITTER_WORD);
    NoIds(algorithm);
    if TREE_WORD <= line { OneId(algorithm, line[|TREE_WORD|..]); }
    if PARENT_WORD <= line { OneId(algorithm, line[|PARENT_WORD|..]); }
    assert found.parents + [] == found.parents;
  }

  lemma {:induction false} NoIds(algorithm: HashAlgorithm)
    ensures AllIds(algorithm, []) && Ids(algorithm, []) == []
  {
  }

  lemma {:induction false} OneId(algorithm: HashAlgorithm, value: Bytes)
    ensures AllIds(algorithm, [value]) <==> FromHex(algorithm, value).Ok?
    ensures FromHex(algorithm, value).Ok? ==> Ids(algorithm, [value]) == [FromHex(algorithm, value).value]
  {
    hide FromHex;
    assert FromHex(algorithm, value) == FromHex(algorithm, [value][0]);
  }

  lemma {:induction false} FoundNothing(algorithm: HashAlgorithm, found: Found)
    ensures FoundIn(algorithm, found, []) == Ok(found)
  {
    assert found.parents + [] == found.parents;
  }

  lemma {:induction false} IdsAppend(algorithm: HashAlgorithm, xs: seq<Bytes>, ys: seq<Bytes>)
    ensures AllIds(algorithm, xs + ys) <==> AllIds(algorithm, xs) && AllIds(algorithm, ys)
    ensures AllIds(algorithm, xs + ys) ==> Ids(algorithm, xs + ys) == Ids(algorithm, xs) + Ids(algorithm, ys)
  {
    hide FromHex;
    assert forall i :: 0 <= i < |xs| ==> (xs + ys)[i] == xs[i];
    assert forall i :: 0 <= i < |ys| ==> (xs + ys)[|xs| + i] == ys[i];
    if AllIds(algorithm, xs + ys) {
      var all, parts := Ids(algorithm, xs + ys), Ids(algorithm, xs) + Ids(algorithm, ys);
      forall i | 0 <= i < |all| ensures all[i] == parts[i] {
        assert Ok(all[i]) == Ok(parts[i]);
      }
    }
  }

  /** Reading some lines and then some more. */
  lemma {:induction false} FoundAppend(algorithm: HashAlgorithm, found: Found, xs: seq<Bytes>, ys: seq<Bytes>)
    ensures var first := FoundIn(algorithm, found, xs);
            FoundIn(algorithm, found, xs + ys) == if first.Err? then first else FoundIn(algorithm, first.value, ys)
  {
    hide FromHex, Values, AllIds, Ids;
    ValuesAppend(xs, ys, TREE_WORD);
    ValuesAppend(xs, ys, PARENT_WORD);
    ValuesAppend(xs, ys, AUTHOR_WORD);
    ValuesAppend(xs, ys, COMMITTER_WORD);
    IdsAppend(algorithm, Values(xs, TREE_WORD), Values(ys, TREE_WORD));
    IdsAppend(algorithm, Values(xs, PARENT_WORD), Values(ys, PARENT_WORD));
    if AllIds(algorithm, Values(xs, PARENT_WORD)) && AllIds(algorithm, Values(ys, PARENT_WORD)) {
      ConcatAssoc(found.parents, Ids(algorithm, Values(xs, PARENT_WORD)), Ids(algorithm, Values(ys, PARENT_WORD)));
    }
  }

  lemma {:induction false} ReadLinesMean(algorithm: HashAlgorithm, found: Found, lines: seq<Bytes>)
    ensures ReadLines(algorithm, found, lines) == FoundIn(algorithm, found, lines)
    decreases lines
  {
    hide ReadLine, FoundIn;
    if lines == [] {
      FoundNothing(algorithm, found);
    } else {
      ReadLineMeans(algorithm, found, lines[0]);
      FoundAppend(algorithm, found, [lines[0]], lines[1..]);
      assert lines == [lines[0]] + lines[1..];
      var next := ReadLine(algorithm, found, lines[0]);
      if next.Ok? { ReadLinesMean(algorithm, next.value, lines[1..]); }
    }
  }

  /** Whatever the bytes are, the decoder gives the commit of their header lines, up to the first blank one. */
  lemma {:induction false} DecodedCommit(algorithm: HashAlgorithm, bytes: Bytes)
    ensures var end := HeaderEnd(bytes);
            CommitOf(algorithm, bytes)
            == if end.None? then Err(InvalidData)
               else CommitOfLines(algorithm, Split(bytes[..end.value], LF), bytes[end.value + 2..])
  {
    hide FromHex, Split, HeaderEnd, Values, AllIds, Ids, ReadLines;
    var end := HeaderEnd(bytes);
    if end.Some? {
      ReadLinesMean(algorithm, NOTHING, Split(bytes[..end.value], LF));
      NothingBefore(algorithm, Split(bytes[..end.value], LF), bytes[end.value + 2..]);
    }
  }

  lemma {:induction false} NothingBefore(algorithm: HashAlgorithm, lines: seq<Bytes>, message: Bytes)
    ensures var found := FoundIn(algorithm, NOTHING, lines);
            CommitOfLines(algorithm, lines, message)
            == if found.Err? then Err(found.error) else Finish(found.value, message)
  {
    hide FromHex, Values, AllIds, Ids;
    var parents := Values(lines, PARENT_WORD);
    if AllIds(algorithm, parents) { assert [] + Ids(algorithm, parents) == Ids(algorithm, parents); }
  }

  lemma {:induction false} CommitOfMessage(algorithm: HashAlgorithm, lines: seq<Bytes>, message: Bytes)
    requires HeaderLines(lines)
    ensures CommitOf(algorithm, Message(lines, message)) == CommitOfLines(algorithm, lines, message)
  {
    hide CommitOf, CommitOfLines, Message, Split, HeaderEnd;
    HeadersSplit(lines, message);
    DecodedCommit(algorithm, Message(lines, message));
  }

  /** Lines of other headers, such as a signature with its continuation lines. */
  predicate Foreign(lines: seq<Bytes>)
  {
    && Without(lines, TREE_WORD) && Without(lines, PARENT_WORD) && Without(lines, AUTHOR_WORD)
    && Without(lines, COMMITTER_WORD)
  }

  /** They may stand anywhere among the header lines, and change nothing. */
  lemma {:induction false} ForeignLinesIgnored(algorithm: HashAlgorithm, lines: seq<Bytes>, i: nat, block: seq<Bytes>,
                                               message: Bytes)
    requires HeaderLines(lines) && i <= |lines| && (block == [] || HeaderLines(block)) && Foreign(block)
    ensures CommitOf(algorithm, Message(lines[..i] + block + lines[i..], message))
            == CommitOf(algorithm, Message(lines, message))
  {
    hide CommitOf, Message, Values, Without, HeaderLines, AllIds, Ids;
    HeaderLinesInserted(lines, i, block);
    CommitOfMessage(algorithm, lines, message);
    CommitOfMessage(algorithm, lines[..i] + block + lines[i..], message);
    ValuesInserted(lines, i, block, TREE_WORD);
    ValuesInserted(lines, i, block, PARENT_WORD);
    ValuesInserted(lines, i, block, AUTHOR_WORD);
    ValuesInserted(lines, i, block, COMMITTER_WORD);
  }

  /** A signed commit is read like the unsigned one. */
  lemma {:induction false} SignedCommitRoundTrip(tree: ObjectId, parents: seq<ObjectId>, author: Signature,
                                                 committer: Signature, message: Bytes, i: nat, block: seq<Bytes>)
    requires ValidSignature(author) && ValidSignature(committer) && Encodable(tree, parents, message)
    requires i <= |CommitLines(tree, parents, author, committer)|
    requires (block == [] || HeaderLines(block)) && Foreign(block)
    ensures var lines := CommitLines(tree, parents, author, committer);
            CommitOf(tree.algorithm, Message(lines[..i] + block + lines[i..], message))
            == Ok(CommitObject(tree, parents, SignatureText(author), SignatureText(committer), message))
  {
    hide *;
    CommitLinesAreHeaders(tree, parents, author, committer);
    ForeignLinesIgnored(tree.algorithm, CommitLines(tree, parents, author, committer), i, block, message);
    CommitRoundTrip(tree, parents, author, committer, message);
  }

  /** `gpgsig ` with continuation lines. */
  lemma {:induction false} SignatureBlockIsForeign(first: Bytes, more: seq<Bytes>)
    requires forall k :: 0 <= k < |more| ==> more[k] != [] && more[k][0] == 32
    ensures Foreign([[103, 112, 103, 115, 105, 103, 32] + first] + more)
  {
    var head := [103, 112, 103, 115, 105, 103, 32] + first;
    var block := [head] + more;
    assert head[0] == 103;
    assert TREE_WORD[0] == 116 && PARENT_WORD[0] == 112 && AUTHOR_WORD[0] == 97 && COMMITTER_WORD[0] == 99;
    OtherFirst(block, TREE_WORD);
    OtherFirst(block, PARENT_WORD);
    OtherFirst(block, AUTHOR_WORD);
    OtherFirst(block, COMMITTER_WORD);
  }

  lemma {:induction false} OtherFirst(lines: seq<Bytes>, word: Bytes)
    requires word != [] && forall k :: 0 <= k < |lines| ==> lines[k] != [] && lines[k][0] != word[0]
    ensures Without(lines, word)
  {
  }
}
