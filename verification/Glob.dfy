/** The attribute and ignore glob (`wildcard_match` in `attributes.rs`, repeated in `ignore.rs`). */
module Glob {
  import opened Common

  const STAR: byte := 42
  const QUESTION: byte := 63

  /** What a pattern means: `*` is any run of bytes, `?` any one byte, anything else itself. */
  ghost predicate Matches(pattern: Bytes, text: Bytes)
  {
    if pattern == [] then text == []
    else if pattern[0] == STAR then exists k :: 0 <= k <= |text| && Matches(pattern[1..], text[k..])
    else text != [] && (pattern[0] == QUESTION || pattern[0] == text[0]) && Matches(pattern[1..], text[1..])
  }

  /** The cursors of the matcher: `star` is the last star taken, `starText` where its run started over. */
  datatype State = State(p: nat, t: nat, star: Option<nat>, starText: nat)

  ghost predicate InBounds(pattern: Bytes, text: Bytes, s: State)
  {
    && s.p <= |pattern| && s.t <= |text|
    && (s.star.Some? ==> s.star.value < s.p && s.starText <= s.t && s.t - s.starText == s.p - s.star.value - 1)
  }

  predicate TrailingStars(pattern: Bytes, p: nat)
    requires p <= |pattern|
  {
    forall i :: p <= i < |pattern| ==> pattern[i] == STAR
  }

  /** One turn of the first loop; `None` when the matcher gives up. */
  function Step(pattern: Bytes, text: Bytes, s: State): (r: Option<State>)
    requires InBounds(pattern, text, s) && s.t < |text|
    ensures r.Some? ==> InBounds(pattern, text, r.value)
  {
    if s.p < |pattern| && (pattern[s.p] == QUESTION || pattern[s.p] == text[s.t]) then
      Some(s.(p := s.p + 1, t := s.t + 1))
    else if s.p < |pattern| && pattern[s.p] == STAR then
      Some(State(s.p + 1, s.t, Some(s.p), s.t))
    else if s.star.Some? then
      Some(State(s.star.value + 1, s.starText + 1, s.star, s.starText + 1))
    else None
  }

  /** The rest of the matcher from a state on. */
  function Scan(pattern: Bytes, text: Bytes, s: State): bool
    requires InBounds(pattern, text, s)
    decreases |pattern| - (if s.star.Some? then s.star.value + 1 else 0),
              |text| - (if s.star.Some? then s.starText else 0), |text| - s.t
  {
    if s.t == |text| then TrailingStars(pattern, s.p) else
    var next := Step(pattern, text, s);
    next.Some? && Scan(pattern, text, next.value)
  }

  const START := State(0, 0, None, 0)

  /** `wildcard_match` as a function of its two arguments. */
  predicate Wildcard(pattern: Bytes, text: Bytes)
  {
    Scan(pattern, text, START)
  }

  method WildcardMatch(pattern: Bytes, text: Bytes) returns (matched: bool)
    ensures matched == Wildcard(pattern, text)
  {
    var patternIdx: nat, textIdx: nat := 0, 0;
    var starIdx: Option<nat> := None;
    var starTextIdx: nat := 0;
    while textIdx < |text|
      invariant var s := State(patternIdx, textIdx, starIdx, starTextIdx);
                InBounds(pattern, text, s) && Scan(pattern, text, s) == Wildcard(pattern, text)
      decreases |pattern| - (if starIdx.Some? then starIdx.value + 1 else 0),
                |text| - (if starIdx.Some? then starTextIdx else 0), |text| - textIdx
    {
      if patternIdx < |pattern| && (pattern[patternIdx] == QUESTION || pattern[patternIdx] == text[textIdx]) {
        patternIdx := patternIdx + 1;
        textIdx := textIdx + 1;
      } else if patternIdx < |pattern| && pattern[patternIdx] == STAR {
        starIdx := Some(patternIdx);
        starTextIdx := textIdx;
        patternIdx := patternIdx + 1;
      } else if starIdx.Some? {
        patternIdx := starIdx.value + 1;
        starTextIdx := starTextIdx + 1;
        textIdx := starTextIdx;
      } else {
        return false;
      }
    }
    ghost var p := patternIdx;
    while patternIdx < |pattern| && pattern[patternIdx] == STAR
      invariant p <= patternIdx <= |pattern|
      invariant forall i :: p <= i < patternIdx ==> pattern[i] == STAR
    {
      patternIdx := patternIdx + 1;
    }
    return patternIdx == |pattern|;
  }

  // ---- Soundness ---------------------------------------------------------------------------

  lemma {:induction false} StarMatches(pattern: Bytes, text: Bytes, k: nat)
    requires pattern != [] && pattern[0] == STAR && k <= |text| && Matches(pattern[1..], text[k..])
    ensures Matches(pattern, text)
  {
  }

  /** Whatever is left to do from a state on, doing it would complete a match of the whole. */
  ghost predicate Sound(pattern: Bytes, text: Bytes, s: State)
    requires InBounds(pattern, text, s)
  {
    && (Matches(pattern[s.p..], text[s.t..]) ==> Matches(pattern, text))
    && (s.star.Some? ==>
          forall k :: s.starText <= k <= |text| && Matches(pattern[s.star.value + 1..], text[k..]) ==>
              Matches(pattern, text))
  }

  lemma {:induction false} MatchesOne(pattern: Bytes, text: Bytes)
    requires pattern != [] && pattern[0] != STAR
    ensures Matches(pattern, text) <==>
            text != [] && (pattern[0] == QUESTION || pattern[0] == text[0]) && Matches(pattern[1..], text[1..])
  {
  }

  lemma {:induction false} StepSound(pattern: Bytes, text: Bytes, s: State)
    requires InBounds(pattern, text, s) && s.t < |text| && Sound(pattern, text, s)
    ensures Step(pattern, text, s).Some? ==> Sound(pattern, text, Step(pattern, text, s).value)
  {
    hide Matches;
    var p, t := pattern[s.p..], text[s.t..];
    if p != [] {
      assert p[1..] == pattern[s.p + 1..] && t[1..] == text[s.t + 1..];
      if p[0] == STAR {
        forall k | s.t <= k <= |text| && Matches(pattern[s.p + 1..], text[k..]) ensures Matches(pattern, text) {
          assert t[k - s.t..] == text[k..];
          StarMatches(p, t, k - s.t);
        }
      } else {
        MatchesOne(p, t);
      }
    }
  }

  lemma {:induction false} AllStars(pattern: Bytes)
    requires forall i :: 0 <= i < |pattern| ==> pattern[i] == STAR
    ensures Matches(pattern, [])
  {
    if pattern != [] {
      AllStars(pattern[1..]);
      var none: Bytes := [];
      assert none[0..] == [];
      StarMatches(pattern, [], 0);
    }
  }

  lemma {:induction false} ScanSound(pattern: Bytes, text: Bytes, s: State)
    requires InBounds(pattern, text, s) && Sound(pattern, text, s) && Scan(pattern, text, s)
    ensures Matches(pattern, text)
    decreases |pattern| - (if s.star.Some? then s.star.value + 1 else 0),
              |text| - (if s.star.Some? then s.starText else 0), |text| - s.t
  {
    if s.t == |text| {
      assert text[s.t..] == [];
      AllStars(pattern[s.p..]);
    } else {
      StepSound(pattern, text, s);
      ScanSound(pattern, text, Step(pattern, text, s).value);
    }
  }

  /** An answer of `true` is always right. */
  lemma {:induction false} WildcardSound(pattern: Bytes, text: Bytes)
    requires Wildcard(pattern, text)
    ensures Matches(pattern, text)
  {
    assert pattern[0..] == pattern && text[0..] == text;
    ScanSound(pattern, text, START);
  }

  // ---- Completeness when no star is taken for a literal --------------------------------------

  ghost predicate NoLiteralStar(pattern: Bytes, text: Bytes)
  {
    STAR !in text || STAR !in pattern
  }

  ghost predicate NoStarBetween(pattern: Bytes, i: nat, j: nat)
    requires i <= j <= |pattern|
  {
    forall x :: i <= x < j ==> pattern[x] != STAR
  }

  /** A star-free stretch of the pattern uses up as many bytes as it is long. */
  lemma {:induction false} StretchMatches(pattern: Bytes, text: Bytes, i: nat, j: nat, k: nat)
    requires i <= j <= |pattern| && k <= |text| && NoStarBetween(pattern, i, j) && Matches(pattern[i..], text[k..])
    ensures k + (j - i) <= |text| && Matches(pattern[j..], text[k + (j - i)..])
    decreases j - i
  {
    if i < j {
      assert pattern[i..][1..] == pattern[i + 1..] && text[k..] != [] && text[k..][1..] == text[k + 1..];
      StretchMatches(pattern, text, i + 1, j, k + 1);
    }
  }

  /** A match can still be completed: from here, or by giving the last star more. */
  ghost predicate Alive(pattern: Bytes, text: Bytes, s: State)
    requires InBounds(pattern, text, s)
  {
    || Matches(pattern[s.p..], text[s.t..])
    || (s.star.Some? && exists k :: s.starText < k <= |text| && Matches(pattern[s.star.value + 1..], text[k..]))
  }

  ghost predicate Stretch(pattern: Bytes, s: State)
  {
    s.star.Some? ==> s.star.value < s.p <= |pattern| && NoStarBetween(pattern, s.star.value + 1, s.p)
  }

  /** A byte that fits keeps a match alive. */
  lemma {:induction false} LiteralAlive(pattern: Bytes, text: Bytes, s: State)
    requires InBounds(pattern, text, s) && Stretch(pattern, s) && Alive(pattern, text, s)
    requires s.p < |pattern| && s.t < |text| && pattern[s.p] != STAR
    requires pattern[s.p] == QUESTION || pattern[s.p] == text[s.t]
    ensures Stretch(pattern, s.(p := s.p + 1, t := s.t + 1)) && Alive(pattern, text, s.(p := s.p + 1, t := s.t + 1))
  {
    hide Matches;
    var p, t := pattern[s.p..], text[s.t..];
    MatchesOne(p, t);
    assert p[1..] == pattern[s.p + 1..] && t[1..] == text[s.t + 1..];
  }

  /** When nothing fits here, the last star must take one byte more. */
  lemma {:induction false} RetryAlive(pattern: Bytes, text: Bytes, s: State)
    requires InBounds(pattern, text, s) && Alive(pattern, text, s) && s.t < |text|
    requires s.p < |pattern| ==> pattern[s.p] != STAR && pattern[s.p] != QUESTION && pattern[s.p] != text[s.t]
    ensures s.star.Some?
    ensures var next := State(s.star.value + 1, s.starText + 1, s.star, s.starText + 1);
            InBounds(pattern, text, next) && Stretch(pattern, next) && Alive(pattern, text, next)
  {
    hide Matches;
    var p, t := pattern[s.p..], text[s.t..];
    if p == [] { NothingLeft(t); } else { MatchesOne(p, t); }
  }

  /**
   * One turn loses no match. At a new star the older one can be forgotten: any run it could still take
   * pushes the new star further right, where the new star can start just as well.
   */
  lemma {:induction false} StepAlive(pattern: Bytes, text: Bytes, s: State)
    requires InBounds(pattern, text, s) && s.t < |text| && NoLiteralStar(pattern, text)
    requires Stretch(pattern, s) && Alive(pattern, text, s)
    ensures var next := Step(pattern, text, s);
            next.Some? && Stretch(pattern, next.value) && Alive(pattern, text, next.value)
  {
    hide Alive;
    assert text[s.t] in text && (s.p < |pattern| ==> pattern[s.p] in pattern);
    if s.p < |pattern| && pattern[s.p] == STAR {
      NewStarAlive(pattern, text, s);
    } else if s.p < |pattern| && (pattern[s.p] == QUESTION || pattern[s.p] == text[s.t]) {
      LiteralAlive(pattern, text, s);
    } else {
      RetryAlive(pattern, text, s);
    }
  }

  lemma {:induction false} NothingLeft(text: Bytes)
    ensures Matches([], text) <==> text == []
  {
  }

  lemma {:induction false} NewStarAlive(pattern: Bytes, text: Bytes, s: State)
    requires InBounds(pattern, text, s) && Stretch(pattern, s) && Alive(pattern, text, s)
    requires s.p < |pattern| && pattern[s.p] == STAR
    ensures Alive(pattern, text, State(s.p + 1, s.t, Some(s.p), s.t))
  {
    var p, t := pattern[s.p..], text[s.t..];
    if !Matches(p, t) {
      var k :| s.starText < k <= |text| && Matches(pattern[s.star.value + 1..], text[k..]);
      StretchMatches(pattern, text, s.star.value + 1, s.p, k);
      LaterStar(p, text, s.t, k + (s.p - s.star.value - 1));
    }
    var k :| 0 <= k <= |t| && Matches(p[1..], t[k..]);
    assert p[1..] == pattern[s.p + 1..] && t[k..] == text[s.t + k..];
  }

  lemma {:induction false} LaterStar(pattern: Bytes, text: Bytes, t: nat, k: nat)
    requires pattern != [] && pattern[0] == STAR && t <= k <= |text| && Matches(pattern, text[k..])
    ensures Matches(pattern, text[t..])
  {
    var m :| 0 <= m <= |text[k..]| && Matches(pattern[1..], text[k..][m..]);
    assert text[k..][m..] == text[t..][k - t + m..];
    StarMatches(pattern, text[t..], k - t + m);
  }

  lemma {:induction false} OnlyStarsMatchNothing(pattern: Bytes)
    requires Matches(pattern, [])
    ensures forall i :: 0 <= i < |pattern| ==> pattern[i] == STAR
  {
    if pattern != [] {
      var none: Bytes := [];
      var k :| 0 <= k <= |none| && Matches(pattern[1..], none[k..]);
      OnlyStarsMatchNothing(pattern[1..]);
      forall i | 0 <= i < |pattern| ensures pattern[i] == STAR {
        if i > 0 { assert pattern[i] == pattern[1..][i - 1]; }
      }
    }
  }

  lemma {:induction false} ScanComplete(pattern: Bytes, text: Bytes, s: State)
    requires InBounds(pattern, text, s) && NoLiteralStar(pattern, text)
    requires Stretch(pattern, s) && Alive(pattern, text, s)
    ensures Scan(pattern, text, s)
    decreases |pattern| - (if s.star.Some? then s.star.value + 1 else 0),
              |text| - (if s.star.Some? then s.starText else 0), |text| - s.t
  {
    if s.t == |text| {
      assert text[s.t..] == [];
      if !Matches(pattern[s.p..], text[s.t..]) {
        var k :| s.starText < k <= |text| && Matches(pattern[s.star.value + 1..], text[k..]);
        StretchMatches(pattern, text, s.star.value + 1, s.p, k);
        assert false;
      }
      OnlyStarsMatchNothing(pattern[s.p..]);
      forall i | s.p <= i < |pattern| ensures pattern[i] == STAR { assert pattern[i] == pattern[s.p..][i - s.p]; }
    } else {
      StepAlive(pattern, text, s);
      ScanComplete(pattern, text, Step(pattern, text, s).value);
    }
  }

  /** The matcher is exact when the text or the pattern is free of stars. */
  lemma {:induction false} WildcardExact(pattern: Bytes, text: Bytes)
    requires NoLiteralStar(pattern, text)
    ensures Wildcard(pattern, text) <==> Matches(pattern, text)
  {
    if Wildcard(pattern, text) { WildcardSound(pattern, text); }
    assert pattern[0..] == pattern && text[0..] == text;
    if Matches(pattern, text) { ScanComplete(pattern, text, START); }
  }

  // ---- Exactly when it is complete ---------------------------------------------------------

  predicate LockStep(pattern: Bytes, text: Bytes, n: nat)
  {
    && n <= |pattern| && n <= |text|
    && forall j :: 0 <= j < n ==> pattern[j] == QUESTION || pattern[j] == text[j]
  }

  /** Bytes that agree are consumed side by side, a star in the pattern facing a star in the text among them. */
  lemma {:induction false} ScanLockStep(pattern: Bytes, text: Bytes, n: nat)
    requires LockStep(pattern, text, n)
    ensures Wildcard(pattern, text) == Scan(pattern, text, State(n, n, None, 0))
  {
    if n > 0 { ScanLockStep(pattern, text, n - 1); }
  }

  function Questions(n: nat): (q: Bytes)
    ensures |q| == n && forall i :: 0 <= i < n ==> q[i] == QUESTION
  {
    seq(n, _ => QUESTION)
  }

  lemma {:induction false} MatchesItself(head: Bytes, pattern: Bytes, text: Bytes)
    requires Matches(pattern, text)
    ensures Matches(head + pattern, head + text)
  {
    if head == [] {
      assert head + pattern == pattern && head + text == text;
    } else {
      MatchesItself(head[1..], pattern, text);
      var p, t := head + pattern, head + text;
      assert p[1..] == head[1..] + pattern && t[1..] == head[1..] + text;
      if p[0] == STAR { StarMatches(p, t, 1); }
    }
  }

  lemma {:induction false} QuestionsMatch(text: Bytes)
    ensures Matches(Questions(|text|), text)
  {
    if text != [] {
      QuestionsMatch(text[1..]);
      assert Questions(|text|)[1..] == Questions(|text| - 1);
    }
  }

  /** The star of the pattern uses up the star of the text, and then one `?` too many is left. */
  lemma {:induction false} StarInText(text: Bytes) returns (pattern: Bytes)
    requires STAR in text
    ensures Matches(pattern, text) && !Wildcard(pattern, text)
  {
    hide Matches, Wildcard, Scan;
    var i := IndexOf(text, STAR);
    var head, rest := text[..i], text[i..];
    var tail := [STAR] + Questions(|rest|);
    pattern := head + tail;
    assert text == head + rest && rest[0] == STAR;
    QuestionsMatch(rest);
    assert tail[1..] == Questions(|rest|) && rest[0..] == rest;
    StarMatches(tail, rest, 0);
    MatchesItself(head, tail, rest);
    forall j | 0 <= j < |text| ensures pattern[j] == QUESTION || pattern[j] == text[j] {
      if j > i { assert pattern[j] == tail[j - i]; }
    }
    ScanLockStep(pattern, text, |text|);
    assert pattern[|text|] == tail[|rest|] == QUESTION;
    OneTooMany(pattern, text);
  }

  lemma {:induction false} OneTooMany(pattern: Bytes, text: Bytes)
    requires |text| < |pattern| && pattern[|text|] != STAR
    ensures !Scan(pattern, text, State(|text|, |text|, None, 0))
  {
  }

  /** With no star taken and none left, the pattern can only use up as many bytes as it has left. */
  lemma {:induction false} TooShort(pattern: Bytes, text: Bytes, n: nat)
    requires n <= |pattern| < |text| && STAR !in pattern[n..]
    ensures !Scan(pattern, text, State(n, n, None, 0))
    decreases |pattern| - n
  {
    if n < |pattern| {
      assert pattern[n] == pattern[n..][0];
      assert forall x :: x in pattern[n + 1..] ==> x in pattern[n..];
      TooShort(pattern, text, n + 1);
    }
  }

  lemma {:induction false} LastStar(pattern: Bytes) returns (i: nat)
    requires STAR in pattern
    ensures i < |pattern| && pattern[i] == STAR && STAR !in pattern[i + 1..]
  {
    if STAR in pattern[1..] {
      i := LastStar(pattern[1..]);
      i := i + 1;
      assert pattern[i + 1..] == pattern[1..][i..];
    } else {
      i := 0;
    }
  }

  /** Every star of the pattern faces a star of the text, and the text has one byte more. */
  lemma {:induction false} StarInPattern(pattern: Bytes) returns (text: Bytes)
    requires STAR in pattern
    ensures Matches(pattern, text) && !Wildcard(pattern, text)
  {
    var i := LastStar(pattern);
    var head, rest := pattern[..i], pattern[i + 1..];
    text := head + ([STAR, NUL] + rest);
    assert rest + [] == rest;
    AllStars([]);
    MatchesItself(rest, [], []);
    var tail, after := [STAR] + rest, [STAR, NUL] + rest;
    assert tail[1..] == rest && after[2..] == rest;
    StarMatches(tail, after, 2);
    MatchesItself(head, tail, after);
    assert pattern == head + tail;
    ScanLockStep(pattern, text, i + 1);
    TooShort(pattern, text, i + 1);
  }

  /** For a given text the matcher is right about every pattern exactly when the text holds no star ... */
  lemma {:induction false} ExactForText(text: Bytes)
    ensures (forall pattern :: Wildcard(pattern, text) <==> Matches(pattern, text)) <==> STAR !in text
  {
    if STAR in text {
      var pattern := StarInText(text);
    } else {
      forall pattern ensures Wildcard(pattern, text) <==> Matches(pattern, text) { WildcardExact(pattern, text); }
    }
  }

  /** ... and for a given pattern it is right about every text exactly when the pattern holds no star. */
  lemma {:induction false} ExactForPattern(pattern: Bytes)
    ensures (forall text :: Wildcard(pattern, text) <==> Matches(pattern, text)) <==> STAR !in pattern
  {
    if STAR in pattern {
      var text := StarInPattern(pattern);
    } else {
      forall text ensures Wildcard(pattern, text) <==> Matches(pattern, text) { WildcardExact(pattern, text); }
    }
  }

  /** The meaning of `*`, of `?` and of any other byte of a pattern. */
  lemma {:induction false} MatchesMeans(b: byte, pattern: Bytes, text: Bytes)
    ensures Matches([], text) <==> text == []
    ensures Matches([42] + pattern, text) <==> exists k :: 0 <= k <= |text| && Matches(pattern, text[k..])
    ensures Matches([63] + pattern, text) <==> text != [] && Matches(pattern, text[1..])
    ensures b != 42 && b != 63 ==>
              (Matches([b] + pattern, text) <==> text != [] && text[0] == b && Matches(pattern, text[1..]))
  {
    assert ([42] + pattern)[1..] == pattern && ([63] + pattern)[1..] == pattern && ([b] + pattern)[1..] == pattern;
  }
}
