/** The lines of the packed-refs file: reading, writing and deleting (`refs.rs`). */
module PackedRefs {
  import opened Common
  import opened Objects
  import opened ObjectText
  import opened ByteOrder
  import opened Utf8
  import opened RefFormat

  type Ids = map<RefName, ObjectId>

  /** `read_packed_ref`: the first line that names the ref. A broken line after it is not noticed. */
  function FindPacked(algorithm: HashAlgorithm, lines: seq<Bytes>, name: RefName): (r: Result<Option<ObjectId>>)
    ensures r.Err? ==> r.error != NotFound
    decreases lines
  {
    if lines == [] then Ok(None) else
    var line := ParsePackedLine(algorithm, lines[0]);
    if line.Err? then Err(line.error)
    else if line.value.Some? && line.value.value.1 == name then Ok(Some(line.value.value.0))
    else FindPacked(algorithm, lines[1..], name)
  }

  /** `read_packed_refs`: all lines into one map, so the last line of a name counts. */
  function ReadPacked(algorithm: HashAlgorithm, lines: seq<Bytes>): (r: Result<Ids>)
    ensures r.Err? ==> r.error != NotFound
    ensures r.Ok? ==> forall n :: n in r.value ==> ValidRefName(n) && r.value[n].algorithm == algorithm
  {
    if lines == [] then Ok(map[]) else
    var before := ReadPacked(algorithm, lines[..|lines| - 1]);
    if before.Err? then before else
    var line := ParsePackedLine(algorithm, lines[|lines| - 1]);
    if line.Err? then Err(line.error)
    else if line.value.None? then before
    else Ok(before.value[line.value.value.1 := line.value.value.0])
  }

  predicate IsRefLine(algorithm: HashAlgorithm, line: Bytes, name: RefName)
  {
    var parsed := ParsePackedLine(algorithm, line);
    parsed.Ok? && parsed.value.Some? && parsed.value.value.1 == name
  }

  lemma {:induction false} FindAppend(algorithm: HashAlgorithm, xs: seq<Bytes>, ys: seq<Bytes>, name: RefName)
    ensures var first := FindPacked(algorithm, xs, name);
            FindPacked(algorithm, xs + ys, name) == if first == Ok(None) then FindPacked(algorithm, ys, name) else first
    decreases xs
  {
    hide ParsePackedLine;
    if xs == [] {
      assert xs + ys == ys;
    } else {
      assert (xs + ys)[1..] == xs[1..] + ys;
      FindAppend(algorithm, xs[1..], ys, name);
    }
  }

  /** The id that a line gives to a name. */
  function IdAt(algorithm: HashAlgorithm, line: Bytes, name: RefName): seq<ObjectId>
  {
    if IsRefLine(algorithm, line, name) then [ParsePackedLine(algorithm, line).value.value.0] else []
  }

  /** The ids that the lines give to a name, in their order. */
  function IdsOf(algorithm: HashAlgorithm, lines: seq<Bytes>, name: RefName): seq<ObjectId>
    decreases lines
  {
    if lines == [] then [] else IdAt(algorithm, lines[0], name) + IdsOf(algorithm, lines[1..], name)
  }

  lemma {:induction false} IdsAppend(algorithm: HashAlgorithm, lines: seq<Bytes>, last: Bytes, name: RefName)
    ensures IdsOf(algorithm, lines + [last], name) == IdsOf(algorithm, lines, name) + IdAt(algorithm, last, name)
    decreases lines
  {
    hide IdAt;
    if lines == [] {
      var one := lines + [last];
      assert one == [last] && one[1..] == [];
    } else {
      assert (lines + [last])[1..] == lines[1..] + [last];
      IdsAppend(algorithm, lines[1..], last, name);
    }
  }

  /** When all lines can be read, one reader gets the first id of a name and the other one the last. */
  lemma {:induction false} ReadersSee(algorithm: HashAlgorithm, lines: seq<Bytes>, name: RefName)
    requires ReadPacked(algorithm, lines).Ok?
    ensures var ids, all := IdsOf(algorithm, lines, name), ReadPacked(algorithm, lines).value;
            && FindPacked(algorithm, lines, name) == Ok(if ids == [] then None else Some(ids[0]))
            && (name in all <==> ids != [])
            && (ids != [] ==> all[name] == ids[|ids| - 1])
  {
    hide ParsePackedLine, FindPacked, ValidRefName, IsRefLine, IdsOf;
    if lines == [] {
      FindNothing(algorithm, lines, name);
    } else {
      var init, last := lines[..|lines| - 1], lines[|lines| - 1];
      LastLine(algorithm, lines, name);
      ReadersSee(algorithm, init, name);
      FindAppend(algorithm, init, [last], name);
      assert lines == init + [last];
      FindOne(algorithm, last, name);
      IdsAppend(algorithm, init, last, name);
    }
  }

  lemma {:induction false} FindNothing(algorithm: HashAlgorithm, lines: seq<Bytes>, name: RefName)
    requires lines == []
    ensures FindPacked(algorithm, lines, name) == Ok(None) && IdsOf(algorithm, lines, name) == []
  {
  }

  lemma {:induction false} LastLine(algorithm: HashAlgorithm, lines: seq<Bytes>, name: RefName)
    requires lines != [] && ReadPacked(algorithm, lines).Ok?
    ensures var init, last := lines[..|lines| - 1], lines[|lines| - 1];
            && ReadPacked(algorithm, init).Ok? && ParsePackedLine(algorithm, last).Ok?
            && var before, all := ReadPacked(algorithm, init).value, ReadPacked(algorithm, lines).value;
            if IsRefLine(algorithm, last, name) then
              name in all && all[name] == ParsePackedLine(algorithm, last).value.value.0
            else (name in all <==> name in before) && (name in all ==> all[name] == before[name])
  {
    hide ParsePackedLine, ValidRefName;
  }

  lemma {:induction false} FindOne(algorithm: HashAlgorithm, line: Bytes, name: RefName)
    ensures FindPacked(algorithm, [line], name)
            == if ParsePackedLine(algorithm, line).Err? then Err(ParsePackedLine(algorithm, line).error)
               else if IsRefLine(algorithm, line, name) then Ok(Some(ParsePackedLine(algorithm, line).value.value.0))
               else Ok(None)
  {
    hide ParsePackedLine;
    var lines: seq<Bytes> := [line];
    assert FindPacked(algorithm, lines[1..], name) == Ok(None);
  }

  /** The first and the last line of the name agree; what packing has to assume of a name without a loose file. */
  predicate Unambiguous(algorithm: HashAlgorithm, lines: seq<Bytes>, name: RefName)
  {
    var ids := IdsOf(algorithm, lines, name);
    ids == [] || ids[0] == ids[|ids| - 1]
  }

  // ---- Writing packed-refs -----------------------------------------------------------------

  /** `# pack-refs with: peeled fully-peeled sorted `; only its first byte matters to the readers. */
  const HEADER: Bytes := PACK_REFS + WITH_PEELED + FULLY_PEELED + SORTED
  const PACK_REFS: Bytes := [35, 32, 112, 97, 99, 107, 45, 114, 101, 102, 115, 32]
  const WITH_PEELED: Bytes := [119, 105, 116, 104, 58, 32, 112, 101, 101, 108, 101, 100]
  const FULLY_PEELED: Bytes := [32, 102, 117, 108, 108, 121, 45, 112, 101, 101, 108, 101, 100]
  const SORTED: Bytes := [32, 115, 111, 114, 116, 101, 100, 32]

  /** The lines hold exactly these refs, each once. */
  ghost predicate Holds(algorithm: HashAlgorithm, lines: seq<Bytes>, ids: Ids)
  {
    forall n :: FindPacked(algorithm, lines, n) == Ok(if n in ids then Some(ids[n]) else None)
  }

  lemma {:induction false} HeaderHoldsNothing(algorithm: HashAlgorithm)
    ensures Holds(algorithm, [HEADER], map[])
  {
    hide FindPacked, ParsePackedLine, ValidUtf8;
    HeaderNamesNothing(algorithm);
    forall n ensures FindPacked(algorithm, [HEADER], n) == Ok(None) {
      FindOne(algorithm, HEADER, n);
    }
  }

  lemma {:induction false} HeaderNamesNothing(algorithm: HashAlgorithm)
    ensures ParsePackedLine(algorithm, HEADER) == Ok(None)
  {
    hide ParsePackedLine, ValidUtf8;
    AsciiIsValid(PACK_REFS);
    AsciiIsValid(WITH_PEELED);
    AsciiIsValid(FULLY_PEELED);
    AsciiIsValid(SORTED);
    ConcatValid(PACK_REFS, WITH_PEELED);
    ConcatValid(PACK_REFS + WITH_PEELED, FULLY_PEELED);
    ConcatValid(PACK_REFS + WITH_PEELED + FULLY_PEELED, SORTED);
    assert HEADER[0] == PACK_REFS[0];
    CommentNamesNothing(algorithm, HEADER);
  }

  lemma {:induction false} CommentNamesNothing(algorithm: HashAlgorithm, line: Bytes)
    requires line != [] && line[0] == HASH && ValidUtf8(line)
    ensures ParsePackedLine(algorithm, line) == Ok(None)
  {
    hide ValidUtf8;
  }

  lemma {:induction false} RefWritten(algorithm: HashAlgorithm, lines: seq<Bytes>, ids: Ids, name: RefName,
                                      id: ObjectId)
    requires Holds(algorithm, lines, ids) && name !in ids && ValidRefName(name) && id.algorithm == algorithm
    ensures Holds(algorithm, lines + [PackedLine(id, name)], ids[name := id])
  {
    hide ParsePackedLine, ValidRefName, PackedLine, FindPacked;
    PackedLineReadBack(id, name);
    forall n
      ensures FindPacked(algorithm, lines + [PackedLine(id, name)], n)
              == Ok(if n in ids[name := id] then Some(ids[name := id][n]) else None)
    {
      FindAppend(algorithm, lines, [PackedLine(id, name)], n);
      FindOne(algorithm, PackedLine(id, name), n);
    }
  }

  lemma {:induction false} PeeledWritten(algorithm: HashAlgorithm, lines: seq<Bytes>, ids: Ids, peeled: ObjectId)
    requires Holds(algorithm, lines, ids)
    ensures Holds(algorithm, lines + [PeeledLine(peeled)], ids)
  {
    hide FindPacked;
    PeeledLineKind(algorithm, peeled);
    forall n
      ensures FindPacked(algorithm, lines + [PeeledLine(peeled)], n) == Ok(if n in ids then Some(ids[n]) else None) {
      FindAppend(algorithm, lines, [PeeledLine(peeled)], n);
      FindOne(algorithm, PeeledLine(peeled), n);
    }
  }

  // ---- Deleting from packed-refs -----------------------------------------------------------

  predicate IsPeeled(line: Bytes)
  {
    line != [] && line[0] == CARET
  }

  /** `write_packed_refs_without_ref`, from a given `skip_peeled` on. */
  function Without(algorithm: HashAlgorithm, lines: seq<Bytes>, name: RefName, skipPeeled: bool): Result<seq<Bytes>>
    decreases lines
  {
    if lines == [] then Ok([])
    else if !ValidUtf8(lines[0]) then Err(InvalidData)
    else if skipPeeled && IsPeeled(lines[0]) then Without(algorithm, lines[1..], name, false)
    else
      var line := ParsePackedLine(algorithm, lines[0]);
      if line.Err? then Err(line.error)
      else if IsRefLine(algorithm, lines[0], name) then Without(algorithm, lines[1..], name, true)
      else Prepend([lines[0]], Without(algorithm, lines[1..], name, false))
  }

  /** No line of the name is left, and the first line of every other name is the same. */
  lemma {:induction false} WithoutFinds(algorithm: HashAlgorithm, lines: seq<Bytes>, name: RefName, skipPeeled: bool,
                                        other: RefName)
    requires Without(algorithm, lines, name, skipPeeled).Ok?
    ensures var rest := Without(algorithm, lines, name, skipPeeled).value;
            FindPacked(algorithm, rest, other)
            == if other == name then Ok(None) else FindPacked(algorithm, lines, other)
    decreases lines
  {
    hide ParsePackedLine;
    if lines != [] {
      var rest := lines[1..];
      if skipPeeled && IsPeeled(lines[0]) {
        PeeledNamesNothing(algorithm, lines[0]);
        WithoutFinds(algorithm, rest, name, false, other);
      } else if IsRefLine(algorithm, lines[0], name) {
        WithoutFinds(algorithm, rest, name, true, other);
      } else {
        WithoutFinds(algorithm, rest, name, false, other);
        var kept := Without(algorithm, rest, name, false).value;
        assert ([lines[0]] + kept)[1..] == kept;
      }
    }
  }

  lemma {:induction false} PeeledNamesNothing(algorithm: HashAlgorithm, line: Bytes)
    requires IsPeeled(line) && ValidUtf8(line)
    ensures ParsePackedLine(algorithm, line) == Ok(None)
  {
    hide ValidUtf8;
  }

  /** A ref line and the peeled id that follows it. */
  datatype Record = Record(id: ObjectId, name: RefName, peeled: Option<Bytes>)

  function Records(algorithm: HashAlgorithm, lines: seq<Bytes>): seq<Record>
    decreases lines
  {
    if lines == [] then [] else
    var line := ParsePackedLine(algorithm, lines[0]);
    if line.Err? || line.value.None? then Records(algorithm, lines[1..])
    else
      var peeled := if |lines| > 1 && IsPeeled(lines[1]) then Some(lines[1]) else None;
      [Record(line.value.value.0, line.value.value.1, peeled)] + Records(algorithm, lines[1..])
  }

  function RecordsWithout(records: seq<Record>, name: RefName): seq<Record>
  {
    if records == [] then []
    else if records[0].name == name then RecordsWithout(records[1..], name)
    else [records[0]] + RecordsWithout(records[1..], name)
  }

  /** Whether the first line that is kept is a peeled id. */
  predicate StartsPeeled(algorithm: HashAlgorithm, lines: seq<Bytes>, name: RefName, skipPeeled: bool)
    decreases lines
  {
    lines != []
    && if skipPeeled && IsPeeled(lines[0]) then StartsPeeled(algorithm, lines[1..], name, false)
       else if IsRefLine(algorithm, lines[0], name) then StartsPeeled(algorithm, lines[1..], name, true)
       else IsPeeled(lines[0])
  }

  /** No peeled id comes to stand right behind a ref line through the lines dropped between them. */
  predicate PeeledStay(algorithm: HashAlgorithm, lines: seq<Bytes>, name: RefName, skipPeeled: bool)
    decreases lines
  {
    if lines == [] then true
    else if skipPeeled && IsPeeled(lines[0]) then PeeledStay(algorithm, lines[1..], name, false)
    else if IsRefLine(algorithm, lines[0], name) then PeeledStay(algorithm, lines[1..], name, true)
    else
      && PeeledStay(algorithm, lines[1..], name, false)
      && (NamesRef(algorithm, lines[0]) && StartsPeeled(algorithm, lines[1..], name, false) ==> IsPeeled(lines[1]))
  }

  predicate NamesRef(algorithm: HashAlgorithm, line: Bytes)
  {
    var parsed := ParsePackedLine(algorithm, line);
    parsed.Ok? && parsed.value.Some?
  }

  lemma {:induction false} KeptStart(algorithm: HashAlgorithm, lines: seq<Bytes>, name: RefName, skipPeeled: bool)
    requires Without(algorithm, lines, name, skipPeeled).Ok?
    ensures var kept := Without(algorithm, lines, name, skipPeeled).value;
            && (StartsPeeled(algorithm, lines, name, skipPeeled) <==> kept != [] && IsPeeled(kept[0]))
            && (lines != [] && IsPeeled(lines[0]) && !skipPeeled ==> kept != [] && kept[0] == lines[0])
    decreases lines
  {
    hide ParsePackedLine;
    if lines != [] {
      if skipPeeled && IsPeeled(lines[0]) {
        KeptStart(algorithm, lines[1..], name, false);
      } else if IsRefLine(algorithm, lines[0], name) {
        NoRefIsPeeled(algorithm, lines[0], name);
        KeptStart(algorithm, lines[1..], name, true);
      }
    }
  }

  lemma {:induction false} NoRefIsPeeled(algorithm: HashAlgorithm, line: Bytes, name: RefName)
    requires IsRefLine(algorithm, line, name)
    ensures !IsPeeled(line)
  {
  }

  lemma {:induction false} RecordsCons(algorithm: HashAlgorithm, line: Bytes, rest: seq<Bytes>)
    ensures Records(algorithm, [line] + rest)
            == if NamesRef(algorithm, line) then
                 var parsed := ParsePackedLine(algorithm, line).value.value;
                 var peeled := if rest != [] && IsPeeled(rest[0]) then Some(rest[0]) else None;
                 [Record(parsed.0, parsed.1, peeled)] + Records(algorithm, rest)
               else Records(algorithm, rest)
  {
    hide ParsePackedLine;
    assert ([line] + rest)[1..] == rest;
    assert rest != [] ==> ([line] + rest)[1] == rest[0];
  }

  /**
   * Deleting a name leaves the records of all the others as they were if and only if no peeled id joins another line.
   */
  lemma {:induction false} WithoutRecords(algorithm: HashAlgorithm, lines: seq<Bytes>, name: RefName, skipPeeled: bool)
    requires Without(algorithm, lines, name, skipPeeled).Ok?
    ensures Records(algorithm, Without(algorithm, lines, name, skipPeeled).value)
            == RecordsWithout(Records(algorithm, lines), name)
            <==> PeeledStay(algorithm, lines, name, skipPeeled)
    decreases lines
  {
    hide ParsePackedLine, Records, StartsPeeled;
    if lines == [] {
      NoRecords(algorithm);
    } else {
      var rest := lines[1..];
      assert lines == [lines[0]] + rest;
      RecordsCons(algorithm, lines[0], rest);
      if skipPeeled && IsPeeled(lines[0]) {
        PeeledNamesNothing(algorithm, lines[0]);
        WithoutRecords(algorithm, rest, name, false);
      } else if IsRefLine(algorithm, lines[0], name) {
        WithoutRecords(algorithm, rest, name, true);
        assert Records(algorithm, lines)[1..] == Records(algorithm, rest);
      } else {
        WithoutRecords(algorithm, rest, name, false);
        KeptStart(algorithm, rest, name, false);
        var kept := Without(algorithm, rest, name, false).value;
        RecordsCons(algorithm, lines[0], kept);
        if NamesRef(algorithm, lines[0]) {
          var before, after := Records(algorithm, lines), Records(algorithm, [lines[0]] + kept);
          assert before[1..] == Records(algorithm, rest) && after[1..] == Records(algorithm, kept);
          SameHeads(before[0], RecordsWithout(before[1..], name), after[0], after[1..]);
          assert before[0].peeled == after[0].peeled
                 <==> (StartsPeeled(algorithm, rest, name, false) ==> IsPeeled(lines[1]));
        }
      }
    }
  }

  lemma {:induction false} NoRecords(algorithm: HashAlgorithm)
    ensures Records(algorithm, []) == []
  {
  }

  lemma {:induction false} SameHeads(a: Record, x: seq<Record>, b: Record, y: seq<Record>)
    ensures [a] + x == [b] + y <==> a == b && x == y
  {
    assert ([a] + x)[0] == a && ([b] + y)[0] == b && ([a] + x)[1..] == x && ([b] + y)[1..] == y;
  }

  /** No two peeled ids in a row: what every writer of the file keeps to. */
  predicate PeeledOnce(lines: seq<Bytes>)
  {
    forall i :: 0 < i < |lines| && IsPeeled(lines[i]) ==> !IsPeeled(lines[i - 1])
  }

  /** It is enough that no two peeled ids follow each other, as in every file that git or packing writes. */
  lemma {:induction false} PeeledOnceStays(algorithm: HashAlgorithm, lines: seq<Bytes>, name: RefName, skipPeeled: bool)
    requires PeeledOnce(lines)
    ensures PeeledStay(algorithm, lines, name, skipPeeled)
    ensures StartsPeeled(algorithm, lines, name, skipPeeled) ==> !skipPeeled && lines != [] && IsPeeled(lines[0])
    decreases lines
  {
    hide ParsePackedLine;
    if lines != [] {
      if skipPeeled && IsPeeled(lines[0]) {
        PeeledOnceStays(algorithm, lines[1..], name, false);
      } else if IsRefLine(algorithm, lines[0], name) {
        PeeledOnceStays(algorithm, lines[1..], name, true);
      } else {
        PeeledOnceStays(algorithm, lines[1..], name, false);
      }
    }
  }

  /** Two peeled ids behind a deleted line: the second one joins the record in front of it. */
  lemma {:induction false} PeeledMoves(a: ObjectId, nameA: RefName, b: ObjectId, nameB: RefName, p: ObjectId,
                                       q: ObjectId)
    requires ValidRefName(nameA) && ValidRefName(nameB) && nameA != nameB && a.algorithm == b.algorithm
    ensures var lines := [PackedLine(a, nameA), PackedLine(b, nameB), PeeledLine(p), PeeledLine(q)];
            && Without(a.algorithm, lines, nameB, false) == Ok([PackedLine(a, nameA), PeeledLine(q)])
            && Records(a.algorithm, lines) == [Record(a, nameA, None), Record(b, nameB, Some(PeeledLine(p)))]
            && Records(a.algorithm, [PackedLine(a, nameA), PeeledLine(q)]) == [Record(a, nameA, Some(PeeledLine(q)))]
            && !PeeledStay(a.algorithm, lines, nameB, false)
  {
    hide ParsePackedLine, PackedLine, PeeledLine, IsPeeled, ValidRefName, Records, Without, PeeledStay;
    var lineA, lineB, peeledP, peeledQ := PackedLine(a, nameA), PackedLine(b, nameB), PeeledLine(p), PeeledLine(q);
    PackedLineReadBack(a, nameA);
    PackedLineReadBack(b, nameB);
    PeeledLineKind(a.algorithm, p);
    PeeledLineKind(a.algorithm, q);
    NoRefIsPeeled(a.algorithm, lineA, nameA);
    NoRefIsPeeled(a.algorithm, lineB, nameB);
    NoRecords(a.algorithm);
    var one, two: seq<Bytes>, three: seq<Bytes> := [peeledQ], [peeledP, peeledQ], [lineB, peeledP, peeledQ];
    RecordsCons(a.algorithm, peeledQ, []);
    RecordsCons(a.algorithm, peeledP, one);
    RecordsCons(a.algorithm, lineB, two);
    RecordsCons(a.algorithm, lineA, three);
    RecordsCons(a.algorithm, lineA, one);
    var lines := [lineA] + three;
    assert [peeledP] + one == two && [lineB] + two == three && [peeledQ] + [] == one;
    WithoutStep(a.algorithm, peeledQ, [], nameB, false);
    WithoutStep(a.algorithm, peeledP, one, nameB, true);
    WithoutStep(a.algorithm, lineB, two, nameB, false);
    WithoutStep(a.algorithm, lineA, three, nameB, false);
    assert lines == [lineA, lineB, peeledP, peeledQ];
    assert [lineA] + one == [lineA, peeledQ];
    WithoutRecords(a.algorithm, lines, nameB, false);
    assert RecordsWithout(Records(a.algorithm, lines), nameB)[0].peeled.None?;
  }

  lemma {:induction false} PeeledLineKind(algorithm: HashAlgorithm, id: ObjectId)
    ensures IsPeeled(PeeledLine(id)) && ParsePackedLine(algorithm, PeeledLine(id)) == Ok(None)
  {
    hide ValidUtf8, Hex;
    HexBytes(id.digest);
    AsciiIsValid(PeeledLine(id));
  }

  lemma {:induction false} ReadLineIsUtf8(algorithm: HashAlgorithm, line: Bytes)
    ensures !ValidUtf8(line) ==> ParsePackedLine(algorithm, line) == Err(InvalidData)
  {
    hide ValidUtf8;
  }

  lemma {:induction false} WithoutStep(algorithm: HashAlgorithm, line: Bytes, rest: seq<Bytes>, name: RefName,
                                       skipPeeled: bool)
    requires ParsePackedLine(algorithm, line).Ok?
    ensures Without(algorithm, [line] + rest, name, skipPeeled)
            == if skipPeeled && IsPeeled(line) then Without(algorithm, rest, name, false)
               else if IsRefLine(algorithm, line, name) then Without(algorithm, rest, name, true)
               else Prepend([line], Without(algorithm, rest, name, false))
    ensures Without(algorithm, [], name, skipPeeled) == Ok([])
  {
    hide ParsePackedLine, Prepend, ValidUtf8;
    ReadLineIsUtf8(algorithm, line);
    assert ([line] + rest)[1..] == rest;
  }

  lemma {:induction false} PrependError<T>(done: seq<T>, error: Error)
    ensures Prepend(done, Err(error)) == Err(error)
  {
  }

  lemma {:induction false} BrokenLine(algorithm: HashAlgorithm, lines: seq<Bytes>, i: nat)
    requires i < |lines| && ReadPacked(algorithm, lines[..i]).Ok? && ParsePackedLine(algorithm, lines[i]).Err?
    ensures ReadPacked(algorithm, lines) == Err(ParsePackedLine(algorithm, lines[i]).error)
  {
    hide ParsePackedLine;
    var n := |lines| - 1;
    if i < n {
      assert lines[..n][..i] == lines[..i] && lines[..n][i] == lines[i];
      BrokenLine(algorithm, lines[..n], i);
    }
  }

  lemma {:induction false} NothingToDelete(algorithm: HashAlgorithm, lines: seq<Bytes>, name: RefName)
    requires FindPacked(algorithm, lines, name) == Ok(None)
    ensures RecordsWithout(Records(algorithm, lines), name) == Records(algorithm, lines)
    ensures PeeledStay(algorithm, lines, name, false)
    decreases lines
  {
    hide ParsePackedLine;
    if lines != [] {
      NothingToDelete(algorithm, lines[1..], name);
      var line := ParsePackedLine(algorithm, lines[0]);
      if line.value.Some? { assert Records(algorithm, lines)[1..] == Records(algorithm, lines[1..]); }
    }
  }

  lemma {:induction false} WithoutError(algorithm: HashAlgorithm, lines: seq<Bytes>, name: RefName, skipPeeled: bool)
    requires Without(algorithm, lines, name, skipPeeled).Err?
    ensures Without(algorithm, lines, name, skipPeeled).error != NotFound
    decreases lines
  {
    hide ParsePackedLine;
    if lines != [] {
      if Without(algorithm, lines[1..], name, false).Err? { WithoutError(algorithm, lines[1..], name, false); }
      if Without(algorithm, lines[1..], name, true).Err? { WithoutError(algorithm, lines[1..], name, true); }
    }
  }

  // ---- The records of a written file -------------------------------------------------------

  lemma {:induction false} RecordsAppend(algorithm: HashAlgorithm, xs: seq<Bytes>, ys: seq<Bytes>)
    requires ys != [] ==> !IsPeeled(ys[0])
    ensures Records(algorithm, xs + ys) == Records(algorithm, xs) + Records(algorithm, ys)
    decreases xs
  {
    hide ParsePackedLine, Records, IsPeeled, NamesRef;
    if xs == [] {
      assert xs + ys == ys;
      NoRecords(algorithm);
    } else {
      var first, rest := xs[0], xs[1..];
      RecordsAppend(algorithm, rest, ys);
      assert xs + ys == [first] + (rest + ys) && xs == [first] + rest;
      SameFirstRecord(algorithm, first, rest, ys);
    }
  }

  lemma {:induction false} SameFirstRecord(algorithm: HashAlgorithm, first: Bytes, rest: seq<Bytes>, ys: seq<Bytes>)
    requires ys != [] ==> !IsPeeled(ys[0])
    requires Records(algorithm, rest + ys) == Records(algorithm, rest) + Records(algorithm, ys)
    ensures Records(algorithm, [first] + (rest + ys)) == Records(algorithm, [first] + rest) + Records(algorithm, ys)
  {
    hide ParsePackedLine, Records, IsPeeled;
    RecordsCons(algorithm, first, rest + ys);
    RecordsCons(algorithm, first, rest);
    if rest == [] { assert rest + ys == ys; } else { assert (rest + ys)[0] == rest[0]; }
    if NamesRef(algorithm, first) {
      var head := [Records(algorithm, [first] + rest)[0]];
      ConcatAssoc(head, Records(algorithm, rest), Records(algorithm, ys));
    }
  }

  /** The line of a ref and the peeled id behind it, if there is one. */
  function RefLines(id: ObjectId, name: RefName, peeled: Option<ObjectId>): seq<Bytes>
  {
    [PackedLine(id, name)] + if peeled.None? then [] else [PeeledLine(peeled.value)]
  }

  lemma {:induction false} RefLinesRecord(id: ObjectId, name: RefName, peeled: Option<ObjectId>)
    requires ValidRefName(name)
    ensures Records(id.algorithm, RefLines(id, name, peeled))
            == [Record(id, name, if peeled.None? then None else Some([94] + Hex(peeled.value.digest)))]
    ensures RefLines(id, name, peeled) != [] && !IsPeeled(RefLines(id, name, peeled)[0])
  {
    hide ParsePackedLine, PackedLine, Records, ValidRefName, Hex, IsPeeled;
    PackedLineReadBack(id, name);
    NoRefIsPeeled(id.algorithm, PackedLine(id, name), name);
    NoRecords(id.algorithm);
    if peeled.None? {
      RecordsCons(id.algorithm, PackedLine(id, name), []);
      assert [PackedLine(id, name)] + [] == [PackedLine(id, name)];
    } else {
      PeeledLineKind(id.algorithm, peeled.value);
      var p := PeeledLine(peeled.value);
      RecordsCons(id.algorithm, p, []);
      assert [p] + [] == [p];
      RecordsCons(id.algorithm, PackedLine(id, name), [p]);
    }
  }

  /** The file says of each of these refs its id and its peeled id, in the order of their names, and of no others. */
  ghost predicate Says(algorithm: HashAlgorithm, lines: seq<Bytes>, ids: Ids, peels: map<RefName, Option<ObjectId>>)
  {
    var records := Records(algorithm, lines);
    && (forall i, j :: 0 <= i < j < |records| ==> Less(records[i].name, records[j].name))
    && (forall i :: 0 <= i < |records| ==>
          var r := records[i];
          && r.name in ids && r.name in peels && r.id == ids[r.name]
          && r.peeled == if peels[r.name].None? then None else Some([94] + Hex(peels[r.name].value.digest)))
    && (forall n :: n in ids ==> exists i :: 0 <= i < |records| && records[i].name == n)
  }

  lemma {:induction false} HeaderSaysNothing(algorithm: HashAlgorithm)
    ensures Says(algorithm, [HEADER], map[], map[])
  {
    hide ParsePackedLine, Records, IsPeeled;
    HeaderNamesNothing(algorithm);
    NoRecords(algorithm);
    RecordsCons(algorithm, HEADER, []);
    assert [HEADER] + [] == [HEADER];
  }

  lemma {:induction false} SaysMore(algorithm: HashAlgorithm, lines: seq<Bytes>, ids: Ids,
                                    peels: map<RefName, Option<ObjectId>>, name: RefName, id: ObjectId,
                                    peeled: Option<ObjectId>)
    requires Says(algorithm, lines, ids, peels) && ValidRefName(name) && id.algorithm == algorithm
    requires forall n :: n in ids ==> Less(n, name)
    ensures Says(algorithm, lines + RefLines(id, name, peeled), ids[name := id], peels[name := peeled])
  {
    hide ParsePackedLine, PackedLine, Records, ValidRefName, IsPeeled, Less, Hex, RefLines;
    RefLinesRecord(id, name, peeled);
    RecordsAppend(algorithm, lines, RefLines(id, name, peeled));
    LessIrreflexive(name);
    var before, after := Records(algorithm, lines), Records(algorithm, lines + RefLines(id, name, peeled));
    assert |after| == |before| + 1 && after[|before|].name == name;
    assert forall i :: 0 <= i < |before| ==> after[i] == before[i] && before[i].name != name;
    var more := ids[name := id];
    forall n | n in more ensures exists i :: 0 <= i < |after| && after[i].name == n {
      if n != name {
        var i :| 0 <= i < |before| && before[i].name == n;
        assert after[i].name == n;
      }
    }
  }

  /** A set of names has a least one. */
  lemma {:induction false} LeastName(names: set<RefName>) returns (least: RefName)
    requires names != {}
    ensures least in names && forall n :: n in names ==> n == least || Less(least, n)
    decreases |names|
  {
    hide Less;
    var name :| name in names;
    var rest := names - {name};
    least := name;
    if rest == {} {
      assert names == {name};
    } else {
      var other := LeastName(rest);
      LessTotal(name, other);
      if Less(other, name) { least := other; }
      forall n | n in names ensures n == least || Less(least, n) {
        if n != name && n != other && least == name { LessTransitive(name, other, n); }
      }
    }
  }
}
