/** The annotated tag format (`tag.rs`). */
module TagCodec {
  import opened Common
  import opened Objects
  import opened ObjectText
  import opened Headers
  import opened Signatures

  datatype TagObject = TagObject(target: ObjectId, targetKind: ObjectKind, name: Bytes, tagger: Bytes, message: Bytes)

  /** `object `, `type `, `tag ` and `tagger `. */
  const OBJECT: Bytes := [111, 98, 106, 101, 99, 116, 32]
  const TYPE: Bytes := [116, 121, 112, 101, 32]
  const TAG: Bytes := [116, 97, 103, 32]
  const TAGGER: Bytes := [116, 97, 103, 103, 101, 114, 32]

  /** `GitObjectKind::as_bytes`. */
  function KindText(kind: ObjectKind): (s: Bytes)
    ensures LF !in s
  {
    match kind
    case Blob => [98, 108, 111, 98]
    case Tree => [116, 114, 101, 101]
    case Commit => [99, 111, 109, 109, 105, 116]
    case Tag => [116, 97, 103]
  }

  /** `GitObjectKind::parse`, the inverse of `as_bytes`. */
  function ParseKind(s: Bytes): (kind: Option<ObjectKind>)
    ensures forall k :: kind == Some(k) <==> s == KindText(k)
  {
    if s == KindText(Blob) then Some(Blob)
    else if s == KindText(ObjectKind.Tree) then Some(ObjectKind.Tree)
    else if s == KindText(Commit) then Some(Commit)
    else if s == KindText(Tag) then Some(Tag)
    else None
  }

  /** `validate_tag_name`. */
  predicate ValidTagName(name: Bytes)
  {
    name != [] && NUL !in name && LF !in name
  }

  function TagLines(target: ObjectId, targetKind: ObjectKind, name: Bytes, tagger: Signature): seq<Bytes>
  {
    [OBJECT + Hex(target.digest), TYPE + KindText(targetKind), TAG + name, TAGGER + SignatureText(tagger)]
  }

  lemma {:induction false} JoinFour(a: Bytes, b: Bytes, c: Bytes, d: Bytes)
    ensures Join([a, b, c, d], LF) == a + [LF] + b + [LF] + c + [LF] + d
  {
    var abcd, bcd, cd: seq<Bytes>, last: seq<Bytes> := [a, b, c, d], [b, c, d], [c, d], [d];
    assert abcd[1..] == bcd && bcd[1..] == cd && cd[1..] == last;
    assert Join(last, LF) == d;
    assert Join(cd, LF) == c + [LF] + d;
    assert Join(bcd, LF) == b + [LF] + Join(cd, LF);
  }

  method EncodeTag(target: ObjectId, targetKind: ObjectKind, name: Bytes, tagger: Signature, message: Bytes)
    returns (r: Result<Bytes>)
    ensures r == if ValidTagName(name) && NUL !in message
                 then Ok(Message(TagLines(target, targetKind, name, tagger), message)) else Err(InvalidInput)
    ensures r.Ok? <==> name != [] && 0 !in name && 10 !in name && 0 !in message
    ensures r.Ok? ==> r.value == [111, 98, 106, 101, 99, 116, 32] + Hex(target.digest) + [10]
                                 + [116, 121, 112, 101, 32] + KindText(targetKind) + [10]
                                 + [116, 97, 103, 32] + name + [10]
                                 + [116, 97, 103, 103, 101, 114, 32] + SignatureText(tagger) + [10, 10] + message
  {
    hide Hex, SignatureText, KindText, Join;
    if !ValidTagName(name) {
      return Err(InvalidInput);
    }
    if NUL in message {
      return Err(InvalidInput);
    }
    var out := OBJECT + Hex(target.digest) + [LF] + TYPE + KindText(targetKind) + [LF] + TAG + name + [LF] + TAGGER;
    out := WriteTo(tagger, out);
    JoinFour(OBJECT + Hex(target.digest), TYPE + KindText(targetKind), TAG + name, TAGGER + SignatureText(tagger));
    assert out == Join(TagLines(target, targetKind, name, tagger), LF);
    return Ok(out + [LF, LF] + message);
  }

  // ---- Decoding ----------------------------------------------------------------------------

  datatype Found = Found(target: Option<ObjectId>, kind: Option<ObjectKind>, name: Option<Bytes>, tagger: Option<Bytes>)

  const NOTHING := Found(None, None, None, None)

  /** One header line. Any header may repeat, and then its last value counts. */
  function ReadLine(algorithm: HashAlgorithm, found: Found, line: Bytes): (r: Result<Found>)
    ensures r.Err? ==> r.error == InvalidData
  {
    if [SPACE] <= line then Ok(found)
    else if OBJECT <= line then
      var id := FromHex(algorithm, line[|OBJECT|..]);
      if id.Err? then Err(InvalidData) else Ok(found.(target := Some(id.value)))
    else if TYPE <= line then
      var kind := ParseKind(line[|TYPE|..]);
      if kind.None? then Err(InvalidData) else Ok(found.(kind := kind))
    else if TAG <= line then Ok(found.(name := Some(line[|TAG|..])))
    else if TAGGER <= line then Ok(found.(tagger := Some(line[|TAGGER|..])))
    else Ok(found)
  }

  function ReadLines(algorithm: HashAlgorithm, found: Found, lines: seq<Bytes>): (r: Result<Found>)
    ensures r.Err? ==> r.error == InvalidData
    decreases lines
  {
    if lines == [] then Ok(found) else
    var next := ReadLine(algorithm, found, lines[0]);
    if next.Err? then next else ReadLines(algorithm, next.value, lines[1..])
  }

  function Finish(found: Found, message: Bytes): Result<TagObject>
  {
    if found.target.None? || found.kind.None? || found.name.None? || found.tagger.None? then Err(InvalidData)
    else Ok(TagObject(found.target.value, found.kind.value, found.name.value, found.tagger.value, message))
  }

  /** The tag that `bytes` stands for. */
  function TagOf(algorithm: HashAlgorithm, bytes: Bytes): (r: Result<TagObject>)
    ensures r.Err? ==> r.error == InvalidData
  {
    var end := HeaderEnd(bytes);
    if end.None? then Err(InvalidData) else
    var found := ReadLines(algorithm, NOTHING, Split(bytes[..end.value], LF));
    if found.Err? then Err(found.error) else Finish(found.value, bytes[end.value + 2..])
  }

  method DecodeTag(algorithm: HashAlgorithm, bytes: Bytes) returns (r: Result<TagObject>)
    ensures r == TagOf(algorithm, bytes)
  {
    hide FromHex, ParseKind, HeaderEnd, Split;
    var end := HeaderEnd(bytes);
    if end.None? {
      return Err(InvalidData);
    }
    var lines := Split(bytes[..end.value], LF);
    var target, kind, name, tagger := None, None, None, None;
    assert lines[0..] == lines;
    for i := 0 to |lines|
      invariant ReadLines(algorithm, NOTHING, lines)
                == ReadLines(algorithm, Found(target, kind, name, tagger), lines[i..])
    {
      var line := lines[i];
      assert lines[i..][1..] == lines[i + 1..];
      if [SPACE] <= line {
        continue;
      }
      if OBJECT <= line {
        var id := FromHex(algorithm, line[|OBJECT|..]);
        if id.Err? {
          return Err(InvalidData);
        }
        target := Some(id.value);
      } else if TYPE <= line {
        kind := ParseKind(line[|TYPE|..]);
        if kind.None? {
          return Err(InvalidData);
        }
      } else if TAG <= line {
        name := Some(line[|TAG|..]);
      } else if TAGGER <= line {
        tagger := Some(line[|TAGGER|..]);
      }
    }
    if target.None? || kind.None? || name.None? || tagger.None? {
      return Err(InvalidData);
    }
    return Ok(TagObject(target.value, kind.value, name.value, tagger.value, bytes[end.value + 2..]));
  }

  // ---- Round trip --------------------------------------------------------------------------

  lemma {:induction false} ReadEachLine(algorithm: HashAlgorithm, found: Found, target: ObjectId, kind: ObjectKind,
                                        text: Bytes)
    requires target.algorithm == algorithm
    ensures ReadLine(algorithm, found, OBJECT + Hex(target.digest)) == Ok(found.(target := Some(target)))
    ensures ReadLine(algorithm, found, TYPE + KindText(kind)) == Ok(found.(kind := Some(kind)))
    ensures ReadLine(algorithm, found, TAG + text) == Ok(found.(name := Some(text)))
    ensures ReadLine(algorithm, found, TAGGER + text) == Ok(found.(tagger := Some(text)))
  {
    hide FromHex, Hex, KindText, ParseKind;
    HexRoundTrip(target);
    var o, k, n, t := OBJECT + Hex(target.digest), TYPE + KindText(kind), TAG + text, TAGGER + text;
    assert o[|OBJECT|..] == Hex(target.digest) && o[0] == 111;
    assert k[|TYPE|..] == KindText(kind) && k[0] == 116 && k[1] == 121;
    assert n[|TAG|..] == text && n[0] == 116 && n[1] == 97;
    assert t[|TAGGER|..] == text && t[0] == 116 && t[1] == 97 && t[3] == 103 && TAG[3] == 32;
  }

  lemma {:induction false} ReadFourLines(algorithm: HashAlgorithm, lines: seq<Bytes>, f0: Found, f1: Found, f2: Found,
                                         f3: Found, f4: Found)
    requires |lines| == 4
    requires ReadLine(algorithm, f0, lines[0]) == Ok(f1) && ReadLine(algorithm, f1, lines[1]) == Ok(f2)
    requires ReadLine(algorithm, f2, lines[2]) == Ok(f3) && ReadLine(algorithm, f3, lines[3]) == Ok(f4)
    ensures ReadLines(algorithm, f0, lines) == Ok(f4)
  {
    hide ReadLine;
    assert ReadLines(algorithm, f3, lines[1..][1..][1..]) == Ok(f4);
    assert ReadLines(algorithm, f2, lines[1..][1..]) == Ok(f4);
  }

  lemma {:induction false} TagLinesAreHeaders(target: ObjectId, targetKind: ObjectKind, name: Bytes, tagger: Signature)
    requires ValidTagName(name) && ValidSignature(tagger)
    ensures HeaderLines(TagLines(target, targetKind, name, tagger))
  {
    hide SignatureText, ValidSignature, Hex, KindText;
    SignatureIsOneLine(tagger);
  }

  /** Decoding an encoded tag gives back its target, kind, name, printed tagger and message. */
  lemma {:induction false} TagRoundTrip(target: ObjectId, targetKind: ObjectKind, name: Bytes, tagger: Signature,
                                        message: Bytes)
    requires ValidTagName(name) && ValidSignature(tagger)
    ensures TagOf(target.algorithm, Message(TagLines(target, targetKind, name, tagger), message))
            == Ok(TagObject(target, targetKind, name, SignatureText(tagger), message))
  {
    hide SignatureText, Message, ReadLine, ReadLines, Hex, KindText, HeaderEnd, Split;
    TagLinesAreHeaders(target, targetKind, name, tagger);
    HeadersSplit(TagLines(target, targetKind, name, tagger), message);
    var f1 := NOTHING.(target := Some(target));
    var f2 := f1.(kind := Some(targetKind));
    var f3 := f2.(name := Some(name));
    var f4 := f3.(tagger := Some(SignatureText(tagger)));
    ReadEachLine(target.algorithm, NOTHING, target, targetKind, name);
    ReadEachLine(target.algorithm, f1, target, targetKind, name);
    ReadEachLine(target.algorithm, f2, target, targetKind, name);
    ReadEachLine(target.algorithm, f3, target, targetKind, SignatureText(tagger));
    ReadFourLines(target.algorithm, TagLines(target, targetKind, name, tagger), NOTHING, f1, f2, f3, f4);
  }

  // ---- What the decoder makes of any header lines ------------------------------------------

  /** `object `, `type `, `tag ` and `tagger `. */
  const OBJECT_WORD: Bytes := [111, 98, 106, 101, 99, 116, 32]
  const TYPE_WORD: Bytes := [116, 121, 112, 101, 32]
  const TAG_WORD: Bytes := [116, 97, 103, 32]
  const TAGGER_WORD: Bytes := [116, 97, 103, 103, 101, 114, 32]

  /** `blob`, `tree`, `commit` and `tag`. */
  function KindOfWord(word: Bytes): Option<ObjectKind>
  {
    if word == [98, 108, 111, 98] then Some(Blob)
    else if word == [116, 114, 101, 101] then Some(ObjectKind.Tree)
    else if word == [99, 111, 109, 109, 105, 116] then Some(Commit)
    else if word == [116, 97, 103] then Some(Tag)
    else None
  }

  predicate AllKinds(values: seq<Bytes>)
  {
    forall i :: 0 <= i < |values| ==> KindOfWord(values[i]).Some?
  }

  /** The tag of these header lines: the last value of each of the four headers. All other lines are passed over. */
  function TagOfLines(algorithm: HashAlgorithm, lines: seq<Bytes>, message: Bytes): Result<TagObject>
  {
    var objects, types := Values(lines, OBJECT_WORD), Values(lines, TYPE_WORD);
    var names, taggers := Values(lines, TAG_WORD), Values(lines, TAGGER_WORD);
    if objects == [] || types == [] || names == [] || taggers == [] || !AllIds(algorithm, objects) || !AllKinds(types)
    then Err(InvalidData)
    else Ok(TagObject(FromHex(algorithm, objects[|objects| - 1]).value, KindOfWord(types[|types| - 1]).value,
                      names[|names| - 1], taggers[|taggers| - 1], message))
  }

  /** What the loop has found when it started from `found`. */
  function FoundIn(algorithm: HashAlgorithm, found: Found, lines: seq<Bytes>): Result<Found>
  {
    var objects, types := Values(lines, OBJECT_WORD), Values(lines, TYPE_WORD);
    var names, taggers := Values(lines, TAG_WORD), Values(lines, TAGGER_WORD);
    if !AllIds(algorithm, objects) || !AllKinds(types) then Err(InvalidData)
    else Ok(Found(if objects == [] then found.target else Some(FromHex(algorithm, objects[|objects| - 1]).value),
                  if types == [] then found.kind else KindOfWord(types[|types| - 1]),
                  if names == [] then found.name else Some(names[|names| - 1]),
                  if taggers == [] then found.tagger else Some(taggers[|taggers| - 1])))
  }

  lemma {:induction false} OneWord(line: Bytes)
    ensures OBJECT_WORD <= line ==>
              !([SPACE] <= line) && !(TYPE_WORD <= line) && !(TAG_WORD <= line) && !(TAGGER_WORD <= line)
    ensures TYPE_WORD <= line ==> !([SPACE] <= line) && !(TAG_WORD <= line) && !(TAGGER_WORD <= line)
    ensures TAG_WORD <= line ==> !([SPACE] <= line) && !(TAGGER_WORD <= line)
    ensures TAGGER_WORD <= line ==> !([SPACE] <= line)
  {
    assert OBJECT_WORD <= line ==> line[0] == OBJECT_WORD[0] == 111;
    assert TYPE_WORD <= line ==> line[0] == TYPE_WORD[0] == 116 && line[1] == TYPE_WORD[1] == 121;
    assert TAG_WORD <= line ==>
        line[0] == TAG_WORD[0] == 116 && line[1] == TAG_WORD[1] == 97 && line[3] == TAG_WORD[3] == 32;
    assert TAGGER_WORD <= line ==>
        line[0] == TAGGER_WORD[0] == 116 && line[1] == TAGGER_WORD[1] == 97 && line[3] == TAGGER_WORD[3] == 103;
    assert [SPACE] <= line ==> line[0] == [SPACE][0];
  }

  lemma {:induction false} KindMeans(word: Bytes)
    ensures ParseKind(word) == KindOfWord(word)
    ensures forall kind :: KindOfWord(KindText(kind)) == Some(kind)
  {
  }

  lemma {:induction false} ReadLineMeans(algorithm: HashAlgorithm, found: Found, line: Bytes)
    ensures ReadLine(algorithm, found, line) == FoundIn(algorithm, found, [line])
  {
    hide FromHex, Values, ParseKind, KindOfWord;
    OneWord(line);
    OneValue(line, OBJECT_WORD);
    OneValue(line, TYPE_WORD);
    OneValue(line, TAG_WORD);
    OneValue(line, TAGGER_WORD);
    if OBJECT_WORD <= line { OneId(algorithm, line[|OBJECT_WORD|..]); }
    if TYPE_WORD <= line {
      KindMeans(line[|TYPE_WORD|..]);
      OneKind(line[|TYPE_WORD|..]);
    }
  }

  lemma {:induction false} OneId(algorithm: HashAlgorithm, value: Bytes)
    ensures AllIds(algorithm, [value]) <==> FromHex(algorithm, value).Ok?
  {
    hide FromHex;
    assert FromHex(algorithm, value) == FromHex(algorithm, [value][0]);
  }

  lemma {:induction false} OneKind(value: Bytes)
    ensures AllKinds([value]) <==> KindOfWord(value).Some?
  {
    hide KindOfWord;
    assert KindOfWord(value) == KindOfWord([value][0]);
  }

  lemma {:induction false} AllAppend(algorithm: HashAlgorithm, xs: seq<Bytes>, ys: seq<Bytes>)
    ensures AllIds(algorithm, xs + ys) <==> AllIds(algorithm, xs) && AllIds(algorithm, ys)
    ensures AllKinds(xs + ys) <==> AllKinds(xs) && AllKinds(ys)
  {
    hide FromHex, KindOfWord;
    assert forall i :: 0 <= i < |xs| ==> (xs + ys)[i] == xs[i];
    assert forall i :: 0 <= i < |ys| ==> (xs + ys)[|xs| + i] == ys[i];
  }

  /** Reading some lines and then some more. */
  lemma {:induction false} FoundAppend(algorithm: HashAlgorithm, found: Found, xs: seq<Bytes>, ys: seq<Bytes>)
    ensures var first := FoundIn(algorithm, found, xs);
            FoundIn(algorithm, found, xs + ys) == if first.Err? then first else FoundIn(algorithm, first.value, ys)
  {
    hide FromHex, KindOfWord, Values, AllIds, AllKinds;
    ValuesAppend(xs, ys, OBJECT_WORD);
    ValuesAppend(xs, ys, TYPE_WORD);
    ValuesAppend(xs, ys, TAG_WORD);
    ValuesAppend(xs, ys, TAGGER_WORD);
    AllAppend(algorithm, Values(xs, OBJECT_WORD), Values(ys, OBJECT_WORD));
    AllAppend(algorithm, Values(xs, TYPE_WORD), Values(ys, TYPE_WORD));
  }

  lemma {:induction false} ReadLinesMean(algorithm: HashAlgorithm, found: Found, lines: seq<Bytes>)
    ensures ReadLines(algorithm, found, lines) == FoundIn(algorithm, found, lines)
    decreases lines
  {
    hide ReadLine, FoundIn;
    if lines == [] {
      FoundNothing(algorithm, found);
    } else {
      ReadLineMeans(algorithm, found, lines[0]);
      FoundAppend(algorithm, found, [lines[0]], lines[1..]);
      assert lines == [lines[0]] + lines[1..];
      var next := ReadLine(algorithm, found, lines[0]);
      if next.Ok? { ReadLinesMean(algorithm, next.value, lines[1..]); }
    }
  }

  lemma {:induction false} FoundNothing(algorithm: HashAlgorithm, found: Found)
    ensures FoundIn(algorithm, found, []) == Ok(found)
  {
  }

  /** Whatever the bytes are, the decoder gives the tag of their header lines, up to the first blank one. */
  lemma {:induction false} DecodedTag(algorithm: HashAlgorithm, bytes: Bytes)
    ensures var end := HeaderEnd(bytes);
            TagOf(algorithm, bytes)
            == if end.None? then Err(InvalidData)
               else TagOfLines(algorithm, Split(bytes[..end.value], LF), bytes[end.value + 2..])
  {
    hide FromHex, KindOfWord, Split, HeaderEnd, Values, AllIds, AllKinds, ReadLines;
    var end := HeaderEnd(bytes);
    if end.Some? {
      ReadLinesMean(algorithm, NOTHING, Split(bytes[..end.value], LF));
      KindsFound(Values(Split(bytes[..end.value], LF), TYPE_WORD));
    }
  }

  lemma {:induction false} KindsFound(values: seq<Bytes>)
    ensures AllKinds(values) && values != [] ==> KindOfWord(values[|values| - 1]).Some?
  {
  }

  lemma {:induction false} TagOfMessage(algorithm: HashAlgorithm, lines: seq<Bytes>, message: Bytes)
    requires HeaderLines(lines)
    ensures TagOf(algorithm, Message(lines, message)) == TagOfLines(algorithm, lines, message)
  {
    hide TagOf, TagOfLines, Message, Split, HeaderEnd;
    HeadersSplit(lines, message);
    DecodedTag(algorithm, Message(lines, message));
  }

  /** Lines of other headers may stand anywhere among the header lines, and change nothing. */
  lemma {:induction false} ForeignLinesIgnored(algorithm: HashAlgorithm, lines: seq<Bytes>, i: nat, block: seq<Bytes>,
                                               message: Bytes)
    requires HeaderLines(lines) && i <= |lines| && (block == [] || HeaderLines(block))
    requires Without(block, OBJECT_WORD) && Without(block, TYPE_WORD) && Without(block, TAG_WORD)
    requires Without(block, TAGGER_WORD)
    ensures TagOf(algorithm, Message(lines[..i] + block + lines[i..], message))
            == TagOf(algorithm, Message(lines, message))
  {
    hide TagOf, Message, Values, Without, HeaderLines, AllIds, AllKinds;
    HeaderLinesInserted(lines, i, block);
    TagOfMessage(algorithm, lines, message);
    TagOfMessage(algorithm, lines[..i] + block + lines[i..], message);
    ValuesInserted(lines, i, block, OBJECT_WORD);
    ValuesInserted(lines, i, block, TYPE_WORD);
    ValuesInserted(lines, i, block, TAG_WORD);
    ValuesInserted(lines, i, block, TAGGER_WORD);
  }
}
