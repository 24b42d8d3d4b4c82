/** Ref names, ref files and the lines of the packed-refs file (`refs.rs`). */
module RefFormat {
  import opened Common
  import opened Objects
  import opened ObjectText
  import opened Utf8

  type RefName = Bytes

  const HASH: byte := 35
  const CARET: byte := 94
  const AT: byte := 64

  /** `refs/`, `refs/tags/`, `ref: ` and `.lock`. */
  const REFS: Bytes := [114, 101, 102, 115, 47]
  const TAGS: Bytes := [114, 101, 102, 115, 47, 116, 97, 103, 115, 47]
  const REF: Bytes := [114, 101, 102, 58, 32]
  const LOCK: Bytes := [46, 108, 111, 99, 107]

  /** Two given bytes in a row. */
  predicate HasPair(s: Bytes, a: byte, b: byte)
  {
    exists i :: 0 <= i < |s| - 1 && s[i] == a && s[i + 1] == b
  }

  predicate EndsWith(s: Bytes, suffix: Bytes)
  {
    |suffix| <= |s| && s[|s| - |suffix|..] == suffix
  }

  predicate ValidComponent(part: Bytes)
  {
    part != [] && part[0] != DOT && !EndsWith(part, LOCK)
  }

  /** Space, tilde, caret, colon, question mark, star, bracket, backslash and the control characters. */
  predicate ForbiddenByte(b: byte)
  {
    b < 32 || b == 127 || b == 32 || b == 126 || b == CARET || b == 58 || b == 63 || b == 42 || b == 91 || b == 92
  }

  /** `validate_ref_format` without single-level names. */
  predicate ValidRefFormat(name: Bytes)
  {
    && name != [] && name != [AT] && name[|name| - 1] != SLASH && name[|name| - 1] != DOT
    && !HasPair(name, SLASH, SLASH) && SLASH in name
    && (var parts := Split(name, SLASH); forall i :: 0 <= i < |parts| ==> ValidComponent(parts[i]))
    && !HasPair(name, DOT, DOT) && !HasPair(name, AT, 123)
    && forall i :: 0 <= i < |name| ==> !ForbiddenByte(name[i])
  }

  /** `validate_ref_name`; as a string, a name is UTF-8. */
  predicate ValidRefName(name: Bytes)
  {
    REFS <= name && ValidUtf8(name) && ValidRefFormat(name)
  }

  function TrimSlashes(s: Bytes): (r: Bytes)
    ensures r == [] || r[|r| - 1] != SLASH
  {
    if s != [] && s[|s| - 1] == SLASH then TrimSlashes(s[..|s| - 1]) else s
  }

  /** Space, tilde, caret, colon, question mark, star and bracket. */
  predicate ForbiddenInPrefix(b: byte)
  {
    b == SPACE || b == 126 || b == CARET || b == 58 || b == 63 || b == 42 || b == 91
  }

  /** `validate_ref_prefix`. */
  predicate ValidRefPrefix(prefix: Bytes)
  {
    && REFS <= prefix && !HasPair(prefix, SLASH, SLASH)
    && (var parts := Split(TrimSlashes(prefix), SLASH);
        forall i :: 0 <= i < |parts| ==>
          parts[i] != [] && parts[i] != [DOT] && parts[i] != [DOT, DOT] && !EndsWith(parts[i], LOCK))
    && !HasPair(prefix, DOT, DOT) && 92 !in prefix && !HasPair(prefix, AT, 123)
    && forall i :: 0 <= i < |prefix| ==> !ForbiddenInPrefix(prefix[i])
  }

  /** The directory in which loose refs are looked for. */
  function DirectoryOf(prefix: Bytes): Bytes
  {
    TrimSlashes(prefix) + [SLASH]
  }

  /** A prefix that ends in a slash is its own directory; otherwise it is longer than the prefix by that slash. */
  lemma {:induction false} DirectoryExtends(prefix: Bytes)
    requires ValidRefPrefix(prefix)
    ensures DirectoryOf(prefix) == if prefix[|prefix| - 1] == SLASH then prefix else prefix + [SLASH]
  {
    var n := |prefix|;
    if prefix[n - 1] == SLASH {
      assert prefix[n - 2] != SLASH;
      assert prefix[..n - 1] + [SLASH] == prefix
             && TrimSlashes(prefix) == TrimSlashes(prefix[..n - 1]) == prefix[..n - 1];
    }
  }

  datatype RefTarget = Direct(id: ObjectId) | Symbolic(name: RefName)

  /** `trim_end_matches('\n')`. */
  function TrimEnd(raw: Bytes): Bytes
  {
    if raw != [] && raw[|raw| - 1] == LF then TrimEnd(raw[..|raw| - 1]) else raw
  }

  /** `read_to_string` and `parse_ref_target` on the contents of a ref file. */
  function ParseTarget(algorithm: HashAlgorithm, raw: Bytes): (r: Result<RefTarget>)
    ensures r.Ok? && r.value.Direct? ==> r.value.id.algorithm == algorithm
    ensures r.Err? ==> r.error != NotFound
  {
    if !ValidUtf8(raw) then Err(InvalidData) else
    var value := TrimEnd(raw);
    if REF <= value then
      if ValidRefName(value[|REF|..]) then Ok(Symbolic(value[|REF|..])) else Err(InvalidInput)
    else
      var id := FromHex(algorithm, value);
      if id.Err? then Err(id.error) else Ok(Direct(id.value))
  }

  /** What `write_ref` puts into the file. */
  function DirectText(id: ObjectId): Bytes
  {
    Hex(id.digest) + [LF]
  }

  lemma {:induction false} DirectReadBack(id: ObjectId)
    ensures ParseTarget(id.algorithm, DirectText(id)) == Ok(Direct(id))
  {
    hide FromHex, ValidUtf8;
    var hex := Hex(id.digest);
    HexRoundTrip(id);
    HexBytes(id.digest);
    AsciiIsValid(DirectText(id));
    assert DirectText(id)[..|hex|] == hex;
    TrimmedAlready(hex);
    assert REF[0] == 114;
  }

  lemma {:induction false} TrimmedAlready(s: Bytes)
    requires LF !in s
    ensures TrimEnd(s) == s
  {
  }

  // ---- Packed lines ------------------------------------------------------------------------

  /** `read_line` and `parse_packed_ref_line`: blank lines, comments and peeled ids name no ref. */
  function ParsePackedLine(algorithm: HashAlgorithm, line: Bytes): (r: Result<Option<(ObjectId, RefName)>>)
    ensures r.Ok? && r.value.Some? ==> r.value.value.0.algorithm == algorithm && ValidRefName(r.value.value.1)
    ensures r.Err? ==> r.error != NotFound
  {
    if !ValidUtf8(line) then Err(InvalidData) else
    if line == [] || line[0] == HASH || line[0] == CARET then Ok(None) else
    var parts := Split(line, SPACE);
    if |parts| != 2 then Err(InvalidData)
    else if !ValidRefName(parts[1]) then Err(InvalidInput)
    else
      var id := FromHex(algorithm, parts[0]);
      if id.Err? then Err(id.error) else Ok(Some((id.value, parts[1])))
  }

  function PackedLine(id: ObjectId, name: RefName): Bytes
  {
    Hex(id.digest) + [SPACE] + name
  }

  function PeeledLine(id: ObjectId): Bytes
  {
    [CARET] + Hex(id.digest)
  }

  /** A printed packed ref is read back. */
  lemma {:induction false} PackedLineReadBack(id: ObjectId, name: RefName)
    requires ValidRefName(name)
    ensures ParsePackedLine(id.algorithm, PackedLine(id, name)) == Ok(Some((id, name)))
  {
    hide FromHex, ValidComponent, Split, ValidUtf8;
    var hex := Hex(id.digest);
    HexRoundTrip(id);
    HexBytes(id.digest);
    AsciiIsValid(hex + [SPACE]);
    ConcatValid(hex + [SPACE], name);
    assert SPACE !in name by {
      assert ForbiddenByte(SPACE);
    }
    SplitFirst(hex, SPACE, name);
    SplitFirst(name, SPACE, []);
    assert id.digest != [] && PackedLine(id, name)[0] == hex[0];
  }

  // ---- What is accepted --------------------------------------------------------------------

  /** `ref: `, a valid name and a line feed are read as a symbolic ref to that name. */
  lemma {:induction false} SymbolicReadBack(algorithm: HashAlgorithm, name: RefName)
    requires ValidRefName(name)
    ensures ParseTarget(algorithm, [114, 101, 102, 58, 32] + name + [10]) == Ok(Symbolic(name))
  {
    hide ValidUtf8, ValidComponent, Split;
    var front: Bytes, raw := [114, 101, 102, 58, 32], [114, 101, 102, 58, 32] + name + [10];
    AsciiIsValid(front);
    ConcatValid(front, name);
    AsciiIsValid([10]);
    ConcatValid(front + name, [10]);
    assert raw[..|raw| - 1] == front + name;
    assert ForbiddenByte(LF) && name[|name| - 1] != LF;
    assert TrimEnd(raw) == TrimEnd(front + name) == front + name;
    assert (front + name)[..5] == REF && (front + name)[5..] == name;
  }

  /** What stands in a file is an id or the name of another ref, if it can be read at all. */
  lemma {:induction false} TargetMeans(algorithm: HashAlgorithm, raw: Bytes)
    ensures ParseTarget(algorithm, raw).Ok? ==>
              match ParseTarget(algorithm, raw).value
              case Symbolic(name) => [114, 101, 102, 58, 32] + name == TrimEnd(raw) && ValidRefName(name)
              case Direct(id) => FromHex(algorithm, TrimEnd(raw)) == Ok(id)
  {
    hide ValidUtf8, ValidRefName, FromHex;
    var value := TrimEnd(raw);
    if REF <= value { assert value == REF + value[5..]; }
  }

  /**
   * A packed line: nothing, a comment or a peeled id names no ref; any other one has an id, a space and a valid name.
   */
  lemma {:induction false} PackedLineMeans(algorithm: HashAlgorithm, line: Bytes, id: ObjectId, name: RefName)
    ensures ParsePackedLine(algorithm, line) == Ok(None) <==>
            ValidUtf8(line) && (line == [] || line[0] == 35 || line[0] == 94)
    ensures ParsePackedLine(algorithm, line) == Ok(Some((id, name))) <==>
            && ValidUtf8(line) && line != [] && line[0] != 35 && line[0] != 94 && ValidRefName(name)
            && exists hex: Bytes :: 32 !in hex && line == hex + [32] + name && FromHex(algorithm, hex) == Ok(id)
  {
    hide ValidUtf8, FromHex, ValidComponent, Split;
    var parts := Split(line, SPACE);
    if ParsePackedLine(algorithm, line) == Ok(Some((id, name))) {
      JoinTwo(parts);
      assert line == parts[0] + [32] + name;
    }
    if exists hex: Bytes :: 32 !in hex && line == hex + [32] + name && FromHex(algorithm, hex) == Ok(id) {
      if ValidRefName(name) {
        var hex: Bytes :| 32 !in hex && line == hex + [32] + name && FromHex(algorithm, hex) == Ok(id);
        assert SPACE !in name by { assert ForbiddenByte(SPACE); }
        SplitFirst(hex, SPACE, name);
        SplitFirst(name, SPACE, []);
      }
    }
  }

  lemma {:induction false} JoinTwo(parts: seq<Bytes>)
    ensures |parts| == 2 ==> Join(parts, SPACE) == parts[0] + [32] + parts[1]
  {
    if |parts| == 2 { assert Join(parts[1..], SPACE) == parts[1]; }
  }

  /** Some of the tests of a name never decide: its components alone say where slashes may stand. */
  lemma {:induction false} RefNameMeans(name: Bytes)
    ensures ValidRefName(name) <==>
            && [114, 101, 102, 115, 47] <= name && ValidUtf8(name) && name[|name| - 1] != 46
            && (var parts := Split(name, 47);
                forall i :: 0 <= i < |parts| ==>
                  parts[i] != [] && parts[i][0] != 46 && !EndsWith(parts[i], [46, 108, 111, 99, 107]))
            && !HasPair(name, 46, 46) && !HasPair(name, 64, 123)
            && forall i :: 0 <= i < |name| ==>
                 31 < name[i] && name[i] != 127
                 && name[i] !in {32, 126, 94, 58, 63, 42, 91, 92}
  {
    hide ValidUtf8, Split, EndsWith, HasPair;
    if [114, 101, 102, 115, 47] <= name {
      assert name[4] == 47 && name[0] == 114;
      if NoEmptyPart(Split(name, 47)) { WholeParts(name); }
    }
  }

  /** A prefix may end in slashes; its other components are not empty, `.` or `..`, and none ends in `.lock`. */
  lemma {:induction false} RefPrefixMeans(prefix: Bytes)
    ensures ValidRefPrefix(prefix) <==>
            && [114, 101, 102, 115, 47] <= prefix && !HasPair(prefix, 47, 47)
            && (var parts := Split(if prefix[|prefix| - 1] == 47 then prefix[..|prefix| - 1] else prefix, 47);
                forall i :: 0 <= i < |parts| ==>
                  && parts[i] != [] && parts[i] != [46] && parts[i] != [46, 46]
                  && !EndsWith(parts[i], [46, 108, 111, 99, 107]))
            && !HasPair(prefix, 46, 46) && !HasPair(prefix, 64, 123)
            && forall i :: 0 <= i < |prefix| ==> prefix[i] !in {32, 42, 58, 63, 91, 92, 94, 126}
  {
    hide Split, EndsWith, HasPair;
    if [114, 101, 102, 115, 47] <= prefix && !HasPair(prefix, 47, 47) {
      OneSlash(prefix);
      assert 92 in prefix ==> exists i :: 0 <= i < |prefix| && prefix[i] == 92;
    }
  }

  lemma {:induction false} OneSlash(s: Bytes)
    requires s != [] && !HasPair(s, 47, 47)
    ensures TrimSlashes(s) == if s[|s| - 1] == 47 then s[..|s| - 1] else s
  {
    var n := |s|;
    if s[n - 1] == 47 {
      assert TrimSlashes(s) == TrimSlashes(s[..n - 1]);
      if n >= 2 { assert s[n - 2] != 47; }
    }
  }

  predicate NoEmptyPart(parts: seq<Bytes>)
  {
    forall i :: 0 <= i < |parts| ==> parts[i] != []
  }

  lemma {:induction false} WholeParts(name: Bytes)
    requires NoEmptyPart(Split(name, 47))
    ensures name != [] && name[0] != 47 && name[|name| - 1] != 47 && !HasPair(name, 47, 47)
    decreases |name|
  {
    hide Split;
    var k := IndexOf(name, 47);
    if k == |name| {
      assert name[..k] == name;
      SplitFirst(name, 47, []);
      assert Split(name, 47)[0] == name;
    } else {
      var first, rest := name[..k], name[k + 1..];
      assert name == first + [47] + rest;
      SplitFirst(first, 47, rest);
      TailParts(first, Split(rest, 47));
      WholeParts(rest);
      assert forall i :: 0 <= i < k ==> name[i] == first[i] != 47;
      assert forall i :: k < i < |name| ==> name[i] == rest[i - k - 1];
      PairInRest(name, rest, k);
    }
  }

  lemma {:induction false} PairInRest(name: Bytes, rest: Bytes, k: nat)
    requires k < |name| && |rest| == |name| - k - 1 && rest != [] && rest[0] != 47
    requires forall i :: 0 <= i < k ==> name[i] != 47
    requires forall i :: k < i < |name| ==> name[i] == rest[i - k - 1]
    ensures HasPair(name, 47, 47) ==> HasPair(rest, 47, 47)
  {
    if i :| 0 <= i < |name| - 1 && name[i] == 47 && name[i + 1] == 47 {
      assert rest[i - k - 1] == 47 && rest[i - k] == 47;
    }
  }

  lemma {:induction false} TailParts(first: Bytes, rest: seq<Bytes>)
    requires NoEmptyPart([first] + rest)
    ensures first != [] && NoEmptyPart(rest)
  {
    var all := [first] + rest;
    assert all[0] == first && forall i :: 0 <= i < |rest| ==> rest[i] == all[i + 1];
  }
}
