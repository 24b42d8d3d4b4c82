/** The resolve-undo extension of the index file (`index.rs`; gitformat-index(5), "Resolve undo"). */
module ResolveUndo {
  import opened Common
  import opened Objects
  import opened ObjectText
  import opened Words
  import opened Index
  import opened IndexEntryCodec

  /** `GitIndex` only admits SHA-1 ids here. */
  type Sha1Id = id: ObjectId | id.algorithm == Sha1 witness RawObjectId.ObjectId(Sha1, seq(20, _ => 0))

  datatype ResolveUndoStage = ResolveUndoStage(mode: IndexMode, id: Sha1Id)

  /** The three conflict stages. */
  type Stages = s: seq<Option<ResolveUndoStage>> | |s| == 3 witness [None, None, None]

  datatype ResolveUndoEntry = ResolveUndoEntry(path: Bytes, stages: Stages)

  // ---- Octal numbers -----------------------------------------------------------------------

  predicate AllOctal(s: Bytes)
  {
    forall i :: 0 <= i < |s| ==> 48 <= s[i] <= 55
  }

  function Octal(n: nat): (s: Bytes)
    ensures s != [] && AllOctal(s)
  {
    if n < 8 then [48 + n] else Octal(n / 8) + [48 + n % 8]
  }

  function OctalValue(s: Bytes): nat
    requires AllOctal(s)
  {
    if s == [] then 0 else OctalValue(s[..|s| - 1]) * 8 + (s[|s| - 1] - 48)
  }

  lemma {:induction false} OctalValueOf(n: nat)
    ensures OctalValue(Octal(n)) == n
  {
    var s := Octal(n);
    if n >= 8 {
      OctalValueOf(n / 8);
      assert s[..|s| - 1] == Octal(n / 8);
    } else {
      assert s[..0] == [];
    }
  }

  function Pow8(k: nat): (p: nat)
    ensures p >= 1
  {
    if k == 0 then 1 else 8 * Pow8(k - 1)
  }

  lemma {:induction false} OctalFits(n: nat, k: nat)
    requires n < Pow8(k) && k >= 1
    ensures |Octal(n)| <= k
  {
    assert Pow8(1) == 8;
    if n >= 8 { OctalFits(n / 8, k - 1); }
  }

  function OctalFront(rest: nat): Bytes
  {
    if rest == 0 then [] else Octal(rest)
  }

  lemma {:induction false} OctalFrontStep(rest: nat, done: Bytes)
    requires rest > 0
    ensures OctalFront(rest) + done == OctalFront(rest / 8) + ([ZERO + rest % 8] + done)
  {
    if rest >= 8 { ConcatAssoc(Octal(rest / 8), [ZERO + rest % 8], done); }
  }

  lemma {:induction false} OctalOfZero()
    ensures Octal(0) == [ZERO]
  {
  }

  /** `write_octal_u32_stream`: digits filled into an 11-byte buffer from its end. */
  method WriteOctalU32(out: IndexStreamingWriter, value: u32)
    requires out.Valid()
    modifies out
    ensures out.Valid() && out.inner == old(out.inner) + Octal(value)
  {
    hide Octal;
    var buf := new byte[11];
    var cursor := buf.Length;
    if value == 0 {
      cursor := cursor - 1;
      buf[cursor] := ZERO;
      OctalOfZero();
      assert buf[cursor..] == [ZERO];
    } else {
      OctalFits(value, 11);
      var rest: nat := value;
      assert OctalFront(rest) + buf[cursor..] == Octal(value);
      while rest > 0
        invariant 0 <= cursor <= buf.Length
        invariant OctalFront(rest) + buf[cursor..] == Octal(value)
        invariant out.Valid() && out.inner == old(out.inner)
      {
        ghost var done := buf[cursor..];
        OctalFrontStep(rest, done);
        cursor := cursor - 1;
        buf[cursor] := ZERO + rest % 8;
        assert buf[cursor..] == [ZERO + rest % 8] + done;
        rest := rest / 8;
      }
      assert OctalFront(0) + buf[cursor..] == buf[cursor..];
    }
    out.WriteAll(buf[cursor..]);
  }

  /** `octal_u32_len`: the number of digits without writing them. */
  method OctalLen(value: u32) returns (len: nat)
    ensures len == |Octal(value)|
  {
    var rest: nat := value;
    len := 1;
    while rest >= 8
      invariant len + |Octal(rest)| == |Octal(value)| + 1
    {
      rest := rest / 8;
      len := len + 1;
    }
  }

  // ---- Encoding ----------------------------------------------------------------------------

  function ModeText(stage: Option<ResolveUndoStage>): (s: Bytes)
    ensures NUL !in s
  {
    if stage.None? then [ZERO] else Octal(stage.value.mode.Bits())
  }

  function ModesText(stages: seq<Option<ResolveUndoStage>>): Bytes
  {
    if stages == [] then [] else ModeText(stages[0]) + [NUL] + ModesText(stages[1..])
  }

  function IdsText(stages: seq<Option<ResolveUndoStage>>): Bytes
  {
    if stages == [] then []
    else if stages[0].None? then IdsText(stages[1..])
    else stages[0].value.id.digest + IdsText(stages[1..])
  }

  function UndoEntryText(e: ResolveUndoEntry): (s: Bytes)
    ensures s != []
  {
    e.path + [NUL] + (ModesText(e.stages) + IdsText(e.stages))
  }

  function UndoText(entries: seq<ResolveUndoEntry>): Bytes
  {
    if entries == [] then [] else UndoEntryText(entries[0]) + UndoText(entries[1..])
  }

  lemma {:induction false} ModesNext(start: Bytes, stages: seq<Option<ResolveUndoStage>>, i: nat)
    requires i < |stages|
    ensures start + ModesText(stages[i..]) == start + ModeText(stages[i]) + [NUL] + ModesText(stages[i + 1..])
  {
    hide ModeText;
    assert stages[i..][1..] == stages[i + 1..];
  }

  lemma {:induction false} IdsNext(start: Bytes, stages: seq<Option<ResolveUndoStage>>, i: nat)
    requires i < |stages|
    ensures start + IdsText(stages[i..])
            == if stages[i].None? then start + IdsText(stages[i + 1..])
               else start + stages[i].value.id.digest + IdsText(stages[i + 1..])
  {
    assert stages[i..][1..] == stages[i + 1..];
  }

  lemma {:induction false} UndoNext(start: Bytes, entries: seq<ResolveUndoEntry>, i: nat)
    requires i < |entries|
    ensures start + UndoText(entries[i..]) == start + UndoEntryText(entries[i]) + UndoText(entries[i + 1..])
  {
    hide UndoEntryText;
    assert entries[i..][1..] == entries[i + 1..];
  }

  lemma {:induction false} StagesEnd(start: Bytes, stages: seq<Option<ResolveUndoStage>>)
    ensures start + ModesText(stages[|stages|..]) == start && start + IdsText(stages[|stages|..]) == start
    ensures stages[0..] == stages
  {
  }

  lemma {:induction false} UndoEnd(start: Bytes, entries: seq<ResolveUndoEntry>)
    ensures start + UndoText(entries[|entries|..]) == start && entries[0..] == entries
  {
  }

  /** The body of `encode_resolve_undo_extension_stream` for one entry. */
  method EncodeUndoEntry(out: IndexStreamingWriter, e: ResolveUndoEntry)
    requires out.Valid()
    modifies out
    ensures out.Valid() && out.inner == old(out.inner) + UndoEntryText(e)
  {
    hide ModesText, IdsText, Octal;
    out.WriteAll(e.path);
    out.WriteAll([NUL]);
    ghost var start := out.inner;
    StagesEnd(start, e.stages);
    for i := 0 to 3
      invariant out.Valid() && out.inner + ModesText(e.stages[i..]) == start + ModesText(e.stages)
    {
      ModesNext(out.inner, e.stages, i);
      if e.stages[i].Some? {
        WriteOctalU32(out, e.stages[i].value.mode.Bits());
      } else {
        out.WriteAll([ZERO]);
      }
      out.WriteAll([NUL]);
    }
    StagesEnd(out.inner, e.stages);
    start := out.inner;
    for i := 0 to 3
      invariant out.Valid() && out.inner + IdsText(e.stages[i..]) == start + IdsText(e.stages)
    {
      IdsNext(out.inner, e.stages, i);
      if e.stages[i].Some? {
        out.WriteAll(e.stages[i].value.id.digest);
      }
    }
    StagesEnd(out.inner, e.stages);
    UndoEntryParts(old(out.inner), e);
  }

  lemma {:induction false} UndoEntryParts(start: Bytes, e: ResolveUndoEntry)
    ensures start + e.path + [NUL] + ModesText(e.stages) + IdsText(e.stages) == start + UndoEntryText(e)
  {
    hide ModesText, IdsText;
  }

  method EncodeUndoEntries(out: IndexStreamingWriter, entries: seq<ResolveUndoEntry>)
    requires out.Valid()
    modifies out
    ensures out.Valid() && out.inner == old(out.inner) + UndoText(entries)
  {
    hide UndoText, UndoEntryText;
    UndoEnd(out.inner, entries);
    for i := 0 to |entries|
      invariant out.Valid() && out.inner + UndoText(entries[i..]) == old(out.inner) + UndoText(entries)
    {
      UndoNext(out.inner, entries, i);
      EncodeUndoEntry(out, entries[i]);
    }
    UndoEnd(out.inner, entries);
  }

  /** `resolve_undo_extension_body_len`: the length is written before the body, so it has to be computed ahead. */
  method UndoBodyLen(entries: seq<ResolveUndoEntry>) returns (r: Result<u32>)
    ensures var n := |UndoText(entries)|; r == if n < 0x1_0000_0000 then Ok(n) else Err(InvalidInput)
  {
    hide UndoText, UndoEntryText, ModesText, IdsText, Octal, IndexMode.Bits;
    var len := 0;
    UndoEnd([], entries);
    for i := 0 to |entries|
      invariant len + |UndoText(entries[i..])| == |UndoText(entries)|
    {
      var stages := entries[i].stages;
      UndoNext([], entries, i);
      UndoEntryParts([], entries[i]);
      StagesEnd([], stages);
      ghost var before := len;
      len := len + |entries[i].path| + 1;
      for k := 0 to 3
        invariant len + |ModesText(stages[k..])| == before + |entries[i].path| + 1 + |ModesText(stages)|
      {
        ModesNext([], stages, k);
        var modeLen := 1;
        if stages[k].Some? {
          modeLen := OctalLen(stages[k].value.mode.Bits());
        }
        len := len + modeLen + 1;
      }
      var present := 0;
      for k := 0 to 3
        invariant present * 20 + |IdsText(stages[k..])| == |IdsText(stages)|
      {
        IdsNext([], stages, k);
        if stages[k].Some? {
          present := present + 1;
        }
      }
      len := len + present * 20;
    }
    UndoEnd([], entries);
    return if len < 0x1_0000_0000 then Ok(len) else Err(InvalidInput);
  }

  // ---- Decoding ----------------------------------------------------------------------------

  /** `parse_resolve_undo_mode`: nothing or `0` is an absent stage; a plus sign and leading zeros are accepted. */
  function ParseMode(raw: Bytes): (r: Result<Option<IndexMode>>)
    ensures r.Err? ==> r.error == InvalidData
  {
    if raw == [] || raw == [ZERO] then Ok(None) else
    var digits := if raw[0] == PLUS then raw[1..] else raw;
    if digits == [] || !AllOctal(digits) then Err(InvalidData) else
    var mode := ModeFromBits(OctalValue(digits));
    if mode.Err? then Err(mode.error) else Ok(Some(mode.value))
  }

  function ParseModes(rest: Bytes, count: nat): (r: Result<(seq<Option<IndexMode>>, nat)>)
    ensures r.Ok? ==> |r.value.0| == count && r.value.1 <= |rest|
  {
    if count == 0 then Ok(([], 0)) else
    var nul := IndexOf(rest, NUL);
    if nul == |rest| then Err(InvalidData) else
    var mode := ParseMode(rest[..nul]);
    if mode.Err? then Err(mode.error) else Onto([mode.value], nul + 1, ParseModes(rest[nul + 1..], count - 1))
  }

  function ParseIds(rest: Bytes, modes: seq<Option<IndexMode>>): (r: Result<(seq<Option<ResolveUndoStage>>, nat)>)
    ensures r.Ok? ==> |r.value.0| == |modes| && r.value.1 <= |rest|
    decreases modes
  {
    if modes == [] then Ok(([], 0))
    else if modes[0].None? then Onto([None], 0, ParseIds(rest, modes[1..]))
    else if |rest| < 20 then Err(InvalidData)
    else
      var stage := ResolveUndoStage(modes[0].value, ObjectId(Sha1, rest[..20]));
      Onto([Some(stage)], 20, ParseIds(rest[20..], modes[1..]))
  }

  function ParseUndoEntry(rest: Bytes): (r: Result<(ResolveUndoEntry, nat)>)
    ensures r.Ok? ==> 0 < r.value.1 <= |rest| && ValidIndexPath(r.value.0.path)
  {
    var nul := IndexOf(rest, NUL);
    if nul == |rest| then Err(InvalidData) else
    if !ValidIndexPath(rest[..nul]) then Err(InvalidInput) else
    var modes := ParseModes(rest[nul + 1..], 3);
    if modes.Err? then Err(modes.error) else
    var ids := ParseIds(rest[nul + 1 + modes.value.1..], modes.value.0);
    if ids.Err? then Err(ids.error) else
    Ok((ResolveUndoEntry(rest[..nul], ids.value.0), nul + 1 + modes.value.1 + ids.value.1))
  }

  predicate ValidUndoEntries(entries: seq<ResolveUndoEntry>)
  {
    forall i :: 0 <= i < |entries| ==> ValidIndexPath(entries[i].path)
  }

  function ParseUndo(body: Bytes): (r: Result<seq<ResolveUndoEntry>>)
    ensures r.Ok? ==> ValidUndoEntries(r.value)
  {
    if body == [] then Ok([]) else
    var first := ParseUndoEntry(body);
    if first.Err? then Err(first.error) else Prepend([first.value.0], ParseUndo(body[first.value.1..]))
  }

  lemma {:induction false} ParseModesStep(rest: Bytes, count: nat)
    ensures count == 0 ==> ParseModes(rest, count) == Ok(([], 0))
    ensures count > 0 ==>
              var nul := IndexOf(rest, NUL);
              ParseModes(rest, count)
              == if nul == |rest| then Err(InvalidData)
                 else if ParseMode(rest[..nul]).Err? then Err(ParseMode(rest[..nul]).error)
                 else Onto([ParseMode(rest[..nul]).value], nul + 1, ParseModes(rest[nul + 1..], count - 1))
  {
    hide ParseMode, IndexOf, Onto;
  }

  /** The loop over the three modes. */
  method ReadModes(body: Bytes, start: nat) returns (r: Result<(seq<Option<IndexMode>>, nat)>)
    requires start <= |body|
    ensures r == ParseModes(body[start..], 3)
  {
    hide ParseMode, ParseModes, IndexOf, Onto;
    var cursor := start;
    var modes := [];
    for i := 0 to 3
      invariant start <= cursor <= |body| && |modes| == i
      invariant ParseModes(body[start..], 3) == Onto(modes, cursor - start, ParseModes(body[cursor..], 3 - i))
    {
      ParseModesStep(body[cursor..], 3 - i);
      var nul := IndexOf(body[cursor..], NUL);
      if cursor + nul == |body| {
        return Err(InvalidData);
      }
      assert body[cursor..][..nul] == body[cursor..cursor + nul]
             && body[cursor..][nul + 1..] == body[cursor + nul + 1..];
      var mode := ParseMode(body[cursor..cursor + nul]);
      if mode.Err? {
        return Err(mode.error);
      }
      OntoTwice(modes, cursor - start, [mode.value], nul + 1, ParseModes(body[cursor + nul + 1..], 2 - i));
      modes := modes + [mode.value];
      cursor := cursor + nul + 1;
    }
    ParseModesStep(body[cursor..], 0);
    return Ok((modes, cursor - start));
  }

  /** The loop over the present stages. */
  method ReadIds(body: Bytes, start: nat, modes: seq<Option<IndexMode>>)
    returns (r: Result<(seq<Option<ResolveUndoStage>>, nat)>)
    requires start <= |body|
    ensures r == ParseIds(body[start..], modes)
  {
    hide Onto;
    var cursor := start;
    var stages: seq<Option<ResolveUndoStage>> := [];
    assert modes[0..] == modes;
    for i := 0 to |modes|
      invariant start <= cursor <= |body|
      invariant ParseIds(body[start..], modes) == Onto(stages, cursor - start, ParseIds(body[cursor..], modes[i..]))
    {
      assert modes[i..][1..] == modes[i + 1..];
      if modes[i].Some? {
        var end := cursor + 20;
        if end > |body| {
          return Err(InvalidData);
        }
        assert body[cursor..][..20] == body[cursor..end] && body[cursor..][20..] == body[end..];
        var stage := ResolveUndoStage(modes[i].value, ObjectId(Sha1, body[cursor..end]));
        OntoTwice(stages, cursor - start, [Some(stage)], 20, ParseIds(body[end..], modes[i + 1..]));
        stages := stages + [Some(stage)];
        cursor := end;
      } else {
        OntoTwice(stages, cursor - start, [None], 0, ParseIds(body[cursor..], modes[i + 1..]));
        stages := stages + [None];
      }
    }
    return Ok((stages, cursor - start));
  }

  method ReadUndoEntry(rest: Bytes) returns (r: Result<(ResolveUndoEntry, nat)>)
    ensures r == ParseUndoEntry(rest)
  {
    hide IndexOf, ParseModes, ParseIds, ValidIndexPath;
    var nul := IndexOf(rest, NUL);
    if nul == |rest| {
      return Err(InvalidData);
    }
    if !ValidIndexPath(rest[..nul]) {
      return Err(InvalidInput);
    }
    var modes := ReadModes(rest, nul + 1);
    if modes.Err? {
      return Err(modes.error);
    }
    var ids := ReadIds(rest, nul + 1 + modes.value.1, modes.value.0);
    if ids.Err? {
      return Err(ids.error);
    }
    return Ok((ResolveUndoEntry(rest[..nul], ids.value.0), nul + 1 + modes.value.1 + ids.value.1));
  }

  lemma {:induction false} ParseUndoStep(done: seq<ResolveUndoEntry>, rest: Bytes)
    ensures rest == [] ==> Prepend(done, ParseUndo(rest)) == Ok(done)
    ensures rest != [] ==>
              var first := ParseUndoEntry(rest);
              Prepend(done, ParseUndo(rest))
              == if first.Err? then Err(first.error)
                  else Prepend(done + [first.value.0], ParseUndo(rest[first.value.1..]))
  {
    hide ParseUndoEntry, ValidUndoEntries;
    if rest != [] {
      var first := ParseUndoEntry(rest);
      if first.Ok? { PrependTwice(done, [first.value.0], ParseUndo(rest[first.value.1..])); }
    }
  }

  /** `decode_resolve_undo_extension`. */
  method DecodeUndo(body: Bytes) returns (r: Result<seq<ResolveUndoEntry>>)
    ensures r == ParseUndo(body)
  {
    hide ParseUndoEntry, ParseUndo, ValidUndoEntries;
    var cursor := 0;
    var entries: seq<ResolveUndoEntry> := [];
    assert body[0..] == body;
    while cursor < |body|
      invariant cursor <= |body|
      invariant ParseUndo(body) == Prepend(entries, ParseUndo(body[cursor..]))
    {
      ParseUndoStep(entries, body[cursor..]);
      var next := ReadUndoEntry(body[cursor..]);
      if next.Err? {
        return Err(next.error);
      }
      assert body[cursor..][next.value.1..] == body[cursor + next.value.1..];
      entries := entries + [next.value.0];
      cursor := cursor + next.value.1;
    }
    ParseUndoStep(entries, body[cursor..]);
    return Ok(entries);
  }

  // ---- Round trip --------------------------------------------------------------------------

  lemma {:induction false} ModeReadBack(stage: Option<ResolveUndoStage>)
    ensures ParseMode(ModeText(stage)) == Ok(if stage.None? then None else Some(stage.value.mode))
  {
    if stage.Some? {
      var bits := stage.value.mode.Bits();
      OctalValueOf(bits);
    }
  }

  function ModesOf(stages: seq<Option<ResolveUndoStage>>): (modes: seq<Option<IndexMode>>)
    ensures |modes| == |stages|
  {
    if stages == [] then [] else [if stages[0].None? then None else Some(stages[0].value.mode)] + ModesOf(stages[1..])
  }

  lemma {:induction false} ModesReadBack(stages: seq<Option<ResolveUndoStage>>, tail: Bytes)
    ensures ParseModes(ModesText(stages) + tail, |stages|) == Ok((ModesOf(stages), |ModesText(stages)|))
  {
    hide ParseModes, ParseMode, ModeText, IndexOf;
    if stages == [] {
      ParseModesStep(ModesText(stages) + tail, 0);
    } else {
      ModesReadBack(stages[1..], tail);
      NextModeReadBack(stages, tail);
    }
  }

  lemma {:induction false} NextModeReadBack(stages: seq<Option<ResolveUndoStage>>, tail: Bytes)
    requires stages != []
    requires ParseModes(ModesText(stages[1..]) + tail, |stages| - 1)
             == Ok((ModesOf(stages[1..]), |ModesText(stages[1..])|))
    ensures ParseModes(ModesText(stages) + tail, |stages|) == Ok((ModesOf(stages), |ModesText(stages)|))
  {
    hide ParseModes, ParseMode, ModeText, IndexOf;
    var raw, more := ModeText(stages[0]), ModesText(stages[1..]) + tail;
    var text := ModesText(stages) + tail;
    assert text == raw + [NUL] + more;
    IndexOfFirst(raw, NUL, more);
    assert text[..|raw|] == raw && text[|raw| + 1..] == more;
    ModeReadBack(stages[0]);
    ParseModesStep(text, |stages|);
  }

  lemma {:induction false} IdsReadBack(stages: seq<Option<ResolveUndoStage>>, tail: Bytes)
    ensures ParseIds(IdsText(stages) + tail, ModesOf(stages)) == Ok((stages, |IdsText(stages)|))
  {
    if stages != [] {
      assert stages == [stages[0]] + stages[1..];
      IdsReadBack(stages[1..], tail);
      if stages[0].Some? {
        var digest, more := stages[0].value.id.digest, IdsText(stages[1..]) + tail;
        assert IdsText(stages) + tail == digest + more;
        assert (digest + more)[..20] == digest && (digest + more)[20..] == more;
      }
    }
  }

  lemma {:induction false} UndoEntryReadBack(e: ResolveUndoEntry, tail: Bytes)
    requires ValidIndexPath(e.path)
    ensures ParseUndoEntry(UndoEntryText(e) + tail) == Ok((e, |UndoEntryText(e)|))
  {
    hide ParseModes, ParseIds, ModesText, IdsText, IndexOf, ModesOf;
    var modes, ids := ModesText(e.stages), IdsText(e.stages);
    var text := UndoEntryText(e) + tail;
    var n := |e.path|;
    assert text == e.path + [NUL] + (modes + (ids + tail));
    IndexOfFirst(e.path, NUL, modes + (ids + tail));
    assert text[..n] == e.path && text[n + 1..] == modes + (ids + tail) && text[n + 1 + |modes|..] == ids + tail;
    ModesReadBack(e.stages, ids + tail);
    IdsReadBack(e.stages, tail);
  }

  /** Decoding an encoded extension body gives its entries back. */
  lemma {:induction false} UndoRoundTrip(entries: seq<ResolveUndoEntry>)
    requires ValidUndoEntries(entries)
    ensures ParseUndo(UndoText(entries)) == Ok(entries)
  {
    hide ParseUndo, ParseUndoEntry, UndoEntryText, ValidIndexPath;
    var text := UndoText(entries);
    ParseUndoStep([], text);
    if entries != [] {
      var first, rest := UndoEntryText(entries[0]), UndoText(entries[1..]);
      UndoEntryReadBack(entries[0], rest);
      assert text == first + rest && text[|first|..] == rest;
      UndoRoundTrip(entries[1..]);
      assert [] + [entries[0]] == [entries[0]] && entries == [entries[0]] + entries[1..];
    }
  }
}
