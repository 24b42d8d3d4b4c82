/** Bytes, results and the handful of sequence facts every module uses. */
module Common {

  type byte = b: int | 0 <= b < 256

  type Bytes = seq<byte>

  const NUL: byte := 0
  const LF: byte := 10
  const CR: byte := 13
  const SPACE: byte := 32
  const DOT: byte := 46
  const SLASH: byte := 47

  /** `u8::is_ascii_whitespace`. */
  predicate IsSpace(b: byte)
  {
    b == 9 || b == LF || b == 12 || b == CR || b == SPACE
  }

  datatype Option<+T> = None | Some(value: T)

  /** The `io::ErrorKind` values the modelled functions return. */
  datatype Error = InvalidData | InvalidInput | NotFound | AlreadyExists | IsADirectory | NotADirectory

  datatype Result<+T> = Ok(value: T) | Err(error: Error)

  /** Index of the first `b` in `s`, or `|s|` when there is none. */
  function IndexOf(s: Bytes, b: byte): (k: nat)
    ensures k <= |s| && b !in s[..k]
    ensures k < |s| ==> s[k] == b
  {
    if s == [] || s[0] == b then 0 else 1 + IndexOf(s[1..], b)
  }

  lemma {:induction false} IndexOfFirst(s: Bytes, b: byte, rest: Bytes)
    requires b !in s
    ensures IndexOf(s + [b] + rest, b) == |s|
  {
    if s != [] {
      IndexOfFirst(s[1..], b, rest);
      assert (s + [b] + rest)[1..] == s[1..] + [b] + rest;
    }
  }

  lemma {:induction false} ConcatAssoc<T>(a: seq<T>, b: seq<T>, c: seq<T>)
    ensures a + (b + c) == a + b + c
  {
  }

  lemma {:induction false} SliceOfSlice<T>(s: seq<T>, a: nat, b: nat, c: nat, d: nat)
    requires a <= b <= |s| && c <= d <= b - a
    ensures s[a..b][c..d] == s[a + c..a + d]
  {
    var x, y := s[a..b][c..d], s[a + c..a + d];
    assert |x| == |y| && forall i :: 0 <= i < |x| ==> x[i] == y[i];
  }

  // ---- Parsing piece by piece --------------------------------------------------------------

  /** The pieces read so far in front of what the rest gives. */
  function Prepend<T>(done: seq<T>, rest: Result<seq<T>>): (r: Result<seq<T>>)
    ensures done == [] ==> r == rest
    ensures rest == Ok([]) ==> r == Ok(done)
  {
    if rest.Err? then rest else
    assert [] + rest.value == rest.value && done + [] == done;
    Ok(done + rest.value)
  }

  /** The same for parsers that also say how many bytes they took. */
  function Onto<T>(done: seq<T>, taken: nat, rest: Result<(seq<T>, nat)>): (r: Result<(seq<T>, nat)>)
    ensures done == [] && taken == 0 ==> r == rest
    ensures rest == Ok(([], 0)) ==> r == Ok((done, taken))
    ensures r.Ok? <==> rest.Ok?
    ensures r.Err? ==> r == rest
  {
    if rest.Err? then rest else
    assert [] + rest.value.0 == rest.value.0 && done + [] == done;
    Ok((done + rest.value.0, taken + rest.value.1))
  }

  lemma {:induction false} OntoTwice<T>(done: seq<T>, taken: nat, next: seq<T>, more: nat, rest: Result<(seq<T>, nat)>)
    ensures Onto(done, taken, Onto(next, more, rest)) == Onto(done + next, taken + more, rest)
  {
    if rest.Ok? { ConcatAssoc(done, next, rest.value.0); }
  }

  lemma {:induction false} PrependTwice<T>(done: seq<T>, next: seq<T>, rest: Result<seq<T>>)
    ensures Prepend(done, Prepend(next, rest)) == Prepend(done + next, rest)
  {
    if rest.Ok? { ConcatAssoc(done, next, rest.value); }
  }

  // ---- Splitting at a separator ------------------------------------------------------------

  /** `slice::split` at one byte: the parts between the separators, at least one. */
  function Split(s: Bytes, b: byte): (parts: seq<Bytes>)
    ensures |parts| >= 1
    ensures forall i :: 0 <= i < |parts| ==> b !in parts[i]
    ensures Join(parts, b) == s
  {
    var k := IndexOf(s, b);
    if k == |s| then
      assert s[..k] == s;
      [s]
    else
      assert s == s[..k] + [b] + s[k + 1..];
      [s[..k]] + Split(s[k + 1..], b)
  }

  function Join(parts: seq<Bytes>, b: byte): Bytes
  {
    if parts == [] then [] else if |parts| == 1 then parts[0] else parts[0] + [b] + Join(parts[1..], b)
  }

  /** One part in front of the rest. */
  lemma {:induction false} SplitFirst(part: Bytes, b: byte, rest: Bytes)
    requires b !in part
    ensures Split(part, b) == [part]
    ensures Split(part + [b] + rest, b) == [part] + Split(rest, b)
  {
    IndexOfFirst(part, b, rest);
    var s := part + [b] + rest;
    assert s[..|part|] == part && s[|part| + 1..] == rest;
  }

  lemma {:induction false} SplitJoin(parts: seq<Bytes>, b: byte)
    requires parts != [] && forall i :: 0 <= i < |parts| ==> b !in parts[i]
    ensures Split(Join(parts, b), b) == parts
  {
    SplitFirst(parts[0], b, Join(parts[1..], b));
    if |parts| > 1 {
      SplitJoin(parts[1..], b);
      assert parts == [parts[0]] + parts[1..];
    }
  }
}
