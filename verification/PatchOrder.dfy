/** How the stable patch id depends on the order of the file sections (`patch_id.rs`). */
module PatchOrder {
  import opened Common
  import opened PatchId
  import opened PatchSections

  function Weight(digest: Digest, s: Section): nat
  {
    Number(digest(SectionText(Stable, s)))
  }

  /** A sum over a sequence. */
  function Total<T>(weight: T -> nat, xs: seq<T>): nat
  {
    if xs == [] then 0 else Total(weight, xs[..|xs| - 1]) + weight(xs[|xs| - 1])
  }

  lemma {:induction false} TotalWithout<T>(weight: T -> nat, xs: seq<T>, k: nat)
    requires k < |xs|
    ensures Total(weight, xs) == Total(weight, xs[..k] + xs[k + 1..]) + weight(xs[k])
  {
    var n := |xs| - 1;
    var without := xs[..k] + xs[k + 1..];
    if k == n {
      assert without == xs[..n];
    } else {
      var init := xs[..n];
      TotalWithout(weight, init, k);
      assert without[..n - 1] == init[..k] + init[k + 1..] && without[n - 1] == xs[n];
    }
  }

  lemma {:induction false} TotalOfPermutation<T>(weight: T -> nat, xs: seq<T>, ys: seq<T>)
    requires multiset(xs) == multiset(ys)
    ensures Total(weight, xs) == Total(weight, ys)
  {
    assert |multiset(xs)| == |xs| && |multiset(ys)| == |ys|;
    if xs != [] {
      var n := |xs| - 1;
      assert xs[n] in multiset(ys);
      var k :| 0 <= k < |ys| && ys[k] == xs[n];
      MultisetWithout(xs, n);
      MultisetWithout(ys, k);
      assert xs[..n] + xs[n + 1..] == xs[..n];
      TotalOfPermutation(weight, xs[..n], ys[..k] + ys[k + 1..]);
      TotalWithout(weight, ys, k);
    }
  }

  lemma {:induction false} MultisetWithout<T>(xs: seq<T>, k: nat)
    requires k < |xs|
    ensures multiset(xs[..k] + xs[k + 1..]) == multiset(xs) - multiset{xs[k]}
  {
    assert xs == xs[..k] + [xs[k]] + xs[k + 1..];
  }

  ghost predicate Weighs(digest: Digest, weight: Section -> nat)
  {
    forall s :: weight(s) == Weight(digest, s)
  }

  lemma {:induction false} WeightOf(digest: Digest, weight: Section -> nat, s: Section)
    requires Weighs(digest, weight)
    ensures weight(s) == Number(digest(SectionText(Stable, s)))
  {
    hide Number, SectionText;
    assert weight(s) == Weight(digest, s);
  }

  lemma {:induction false} SumIsTotal(digest: Digest, weight: Section -> nat, sections: seq<Section>)
    requires Weighs(digest, weight)
    ensures SectionSum(digest, sections) == AddModulo(Total(weight, sections), 0)
  {
    hide Number, SectionText, AddModulo, SumOf, Weighs;
    if sections == [] {
      NothingSummed(digest);
      ReduceFirst(0, 0);
    } else {
      var n := |sections| - 1;
      SumIsTotal(digest, weight, sections[..n]);
      WeightOf(digest, weight, sections[n]);
      SumSnoc(digest, SectionTexts(sections[..n]), SectionText(Stable, sections[n]));
      ReduceFirst(Total(weight, sections[..n]), weight(sections[n]));
    }
  }

  lemma {:induction false} ReduceFirst(x: nat, y: nat)
    ensures AddModulo(AddModulo(x, 0), y) == AddModulo(x + y, 0)
    ensures AddModulo(0, 0) == 0
  {
  }

  /** Adding up section digests does not depend on the order of the sections. */
  lemma {:induction false} StableIdIgnoresOrder(digest: Digest, xs: seq<Section>, ys: seq<Section>)
    requires multiset(xs) == multiset(ys)
    ensures SectionSum(digest, xs) == SectionSum(digest, ys)
  {
    hide Number, SectionText, SumOf, AddModulo, SectionSum, Total;
    var weight := s => Weight(digest, s);
    TotalOfPermutation(weight, xs, ys);
    SumIsTotal(digest, weight, xs);
    SumIsTotal(digest, weight, ys);
  }

  lemma {:induction false} SumsEqual(digest: Digest, xs: seq<Section>, ys: seq<Section>)
    ensures SectionSum(digest, xs) == SumOf(digest, SectionTexts(xs))
            && SectionSum(digest, ys) == SumOf(digest, SectionTexts(ys))
  {
  }

  /** The stable id of the patch, whatever the digest, is the same for all orders of its sections. */
  ghost predicate OrderDoesNotMatter(xs: seq<Section>)
  {
    forall digest: Digest, ys ::
      multiset(ys) == multiset(xs) ==> SectionSum(digest, Taken(ys)) == SectionSum(digest, Taken(xs))
  }

  /** Every section is cut off, and the same text is hashed of each. */
  predicate AllCutAlike(xs: seq<Section>)
  {
    forall i :: 0 <= i < |xs| ==> !Readable(xs[i]) && SectionText(Stable, Cut(xs[i])) == SectionText(Stable, Cut(xs[0]))
  }

  /** Reordering the file sections keeps the stable id if and only if all are readable, or all are cut off alike. */
  lemma {:induction false} StableIdOrder(xs: seq<Section>)
    ensures OrderDoesNotMatter(xs) <==> AllReadable(xs) || AllCutAlike(xs)
  {
    hide Readable, SectionText, SectionSum, Taken, Cut;
    if AllReadable(xs) || AllCutAlike(xs) {
      forall digest: Digest, ys | multiset(ys) == multiset(xs)
        ensures SectionSum(digest, Taken(ys)) == SectionSum(digest, Taken(xs))
      {
        OrderKept(digest, xs, ys);
      }
    } else {
      var i :| 0 <= i < |xs| && !Readable(xs[i]);
      if j :| 0 <= j < |xs| && Readable(xs[j]) {
        MixedOrderMatters(xs, i, j);
      } else {
        var j :| 0 <= j < |xs| && SectionText(Stable, Cut(xs[j])) != SectionText(Stable, Cut(xs[0]));
        CutOrderMatters(xs, 0, j);
      }
    }
  }

  lemma {:induction false} SameMembers(xs: seq<Section>, ys: seq<Section>)
    requires multiset(ys) == multiset(xs)
    ensures |ys| == |xs| && forall i :: 0 <= i < |ys| ==> ys[i] in xs
  {
    assert |multiset(xs)| == |xs| && |multiset(ys)| == |ys|;
    forall i | 0 <= i < |ys| ensures ys[i] in xs { assert ys[i] in multiset(ys); }
  }

  lemma {:induction false} OrderKept(digest: Digest, xs: seq<Section>, ys: seq<Section>)
    requires (AllReadable(xs) || AllCutAlike(xs)) && multiset(ys) == multiset(xs)
    ensures SectionSum(digest, Taken(ys)) == SectionSum(digest, Taken(xs))
    ensures AllReadable(xs) ==> AllReadable(ys) && Taken(xs) == xs && Taken(ys) == ys
  {
    hide Readable, SectionText, SectionSum, Taken, Cut;
    SameMembers(xs, ys);
    if AllReadable(xs) {
      TakenWhole(xs);
      TakenWhole(ys);
      StableIdIgnoresOrder(digest, xs, ys);
    } else {
      assert ys[0] in xs;
      TakenFirst(xs);
      TakenFirst(ys);
      SumOfOne(digest, Cut(xs[0]));
      SumOfOne(digest, Cut(ys[0]));
    }
  }

  /** A patch that begins with an unreadable section is only taken in up to there. */
  lemma {:induction false} TakenFirst(xs: seq<Section>)
    requires xs != [] && !Readable(xs[0])
    ensures Taken(xs) == [Cut(xs[0])]
  {
    hide Readable, Cut;
    assert xs[..0] + [Cut(xs[0])] == [Cut(xs[0])];
  }

  lemma {:induction false} TakenSecond(xs: seq<Section>)
    requires |xs| >= 2 && Readable(xs[0]) && !Readable(xs[1])
    ensures Taken(xs) == [xs[0], Cut(xs[1])]
  {
    hide Readable, Cut;
    assert IntactSections(xs[1..]) == 0;
    assert xs[..1] + [Cut(xs[1])] == [xs[0], Cut(xs[1])];
  }

  /** The two orders of an unreadable and a readable section: only one of them hashes the readable one. */
  lemma {:induction false} TwoOrders(digest: Digest, f: Section, g: Section)
    requires !Readable(f) && Readable(g)
    ensures SectionSum(digest, Taken([f, g])) == AddModulo(0, Weight(digest, Cut(f)))
    ensures SectionSum(digest, Taken([g, f])) == AddModulo(AddModulo(0, Weight(digest, g)), Weight(digest, Cut(f)))
  {
    hide Readable, SectionText, SectionSum, Taken, Cut, Number, Weight, AddModulo;
    TakenFirst([f, g]);
    TakenSecond([g, f]);
    SumOfOne(digest, Cut(f));
    SumOfTwo(digest, g, Cut(f));
  }

  lemma {:induction false} SumOfOne(digest: Digest, s: Section)
    ensures SectionSum(digest, [s]) == AddModulo(0, Weight(digest, s))
  {
    hide SectionText, Number, SumOf, AddModulo;
    NothingSummed(digest);
    OneMore(digest, [], s);
    assert SectionTexts([]) == [];
  }

  lemma {:induction false} OneMore(digest: Digest, init: seq<Section>, s: Section)
    ensures SectionSum(digest, init + [s]) == AddModulo(SectionSum(digest, init), Weight(digest, s))
  {
    hide SectionText, Number, SumOf, AddModulo;
    assert (init + [s])[..|init|] == init;
    SumSnoc(digest, SectionTexts(init), SectionText(Stable, s));
  }

  lemma {:induction false} SumOfTwo(digest: Digest, s: Section, t: Section)
    ensures SectionSum(digest, [s, t]) == AddModulo(AddModulo(0, Weight(digest, s)), Weight(digest, t))
  {
    hide SectionText, Number, SectionSum, AddModulo;
    SumOfOne(digest, s);
    OneMore(digest, [s], t);
    assert [s] + [t] == [s, t];
  }

  lemma {:induction false} SmallSums()
    ensures AddModulo(0, 0) == 0 && AddModulo(0, 1) == 1 && AddModulo(1, 1) == 2
  {
  }

  /** The twenty bytes of the number one. */
  const ONE: Bytes := [1] + seq(19, _ => 0)
  const ZERO_DIGEST: Bytes := seq(20, _ => 0)

  lemma {:induction false} NumberOfOne()
    ensures Number(ONE) == 1
  {
    NumberFirst(ONE);
  }

  lemma {:induction false} NumberFirst(s: Bytes)
    requires s != [] && forall i :: 0 < i < |s| ==> s[i] == 0
    ensures Number(s) == s[0]
  {
    if |s| == 1 {
      assert Number(s[..0]) == 0;
    } else {
      NumberFirst(s[..|s| - 1]);
    }
  }

  lemma {:induction false} OneToFront<T>(xs: seq<T>, i: nat) returns (ys: seq<T>)
    requires i < |xs|
    ensures multiset(ys) == multiset(xs) && |ys| == |xs| && ys[0] == xs[i]
    ensures forall k :: 0 <= k < |xs| ==> ys[if k < i then k + 1 else if k == i then 0 else k] == xs[k]
  {
    var rest := xs[..i] + xs[i + 1..];
    ys := [xs[i]] + rest;
    MultisetWithout(xs, i);
    assert xs[i] in multiset(xs);
  }

  /** `xs` with two sections moved to the front. */
  lemma {:induction false} MoveToFront<T>(xs: seq<T>, i: nat, j: nat) returns (ys: seq<T>)
    requires i < |xs| && j < |xs| && i != j
    ensures multiset(ys) == multiset(xs) && |ys| == |xs| >= 2 && ys[0] == xs[i] && ys[1] == xs[j]
  {
    var zs := OneToFront(xs, j);
    ys := OneToFront(zs, if i < j then i + 1 else i);
  }

  lemma {:induction false} MixedOrderMatters(xs: seq<Section>, i: nat, j: nat)
    requires i < |xs| && j < |xs| && !Readable(xs[i]) && Readable(xs[j])
    ensures !OrderDoesNotMatter(xs)
  {
    hide Readable, SectionSum, Taken, Cut, AddModulo, Number, Weight;
    var ys := MoveToFront(xs, i, j);
    var zs := MoveToFront(xs, j, i);
    var digest: Digest := s => ONE;
    TakenFirst(ys);
    TakenSecond(zs);
    WeightAt(digest, Cut(xs[i]));
    WeightAt(digest, xs[j]);
    NumberOfOne();
    SmallSums();
    SumOfOne(digest, Cut(xs[i]));
    SumOfTwo(digest, xs[j], Cut(xs[i]));
    DifferentSums(digest, xs, ys, zs);
  }

  lemma {:induction false} WeightAt(digest: Digest, s: Section)
    ensures Weight(digest, s) == Number(digest(SectionText(Stable, s)))
  {
  }

  lemma {:induction false} DifferentSums(digest: Digest, xs: seq<Section>, ys: seq<Section>, zs: seq<Section>)
    requires multiset(ys) == multiset(xs) && multiset(zs) == multiset(xs)
    requires SectionSum(digest, Taken(ys)) != SectionSum(digest, Taken(zs))
    ensures !OrderDoesNotMatter(xs)
  {
    hide OrderDoesNotMatter, SectionSum, Taken;
    SameForOrder(digest, xs, ys);
    SameForOrder(digest, xs, zs);
  }

  lemma {:induction false} SameForOrder(digest: Digest, xs: seq<Section>, ys: seq<Section>)
    requires multiset(ys) == multiset(xs)
    ensures OrderDoesNotMatter(xs) ==> SectionSum(digest, Taken(ys)) == SectionSum(digest, Taken(xs))
  {
    hide SectionSum, Taken;
  }

  /** A digest that tells one text from all others. */
  function Marking(text: Bytes): Digest
  {
    s => if s == text then ONE else ZERO_DIGEST
  }

  lemma {:induction false} MarkedNumbers(text: Bytes, s: Bytes)
    ensures Number(Marking(text)(s)) == if s == text then 1 else 0
  {
    NumberOfOne();
    ZeroNumber(ZERO_DIGEST);
  }

  lemma {:induction false} CutOrderMatters(xs: seq<Section>, i: nat, j: nat)
    requires i < |xs| && j < |xs| && !Readable(xs[i]) && !Readable(xs[j])
    requires SectionText(Stable, Cut(xs[i])) != SectionText(Stable, Cut(xs[j]))
    ensures !OrderDoesNotMatter(xs)
  {
    hide Readable, SectionText, SectionSum, Taken, Cut, Marking, OrderDoesNotMatter;
    var ys := MoveToFront(xs, i, j);
    var zs := MoveToFront(xs, j, i);
    var text := SectionText(Stable, Cut(xs[i]));
    CutSum(text, ys);
    CutSum(text, zs);
    DifferentSums(Marking(text), xs, ys, zs);
  }

  lemma {:induction false} CutSum(text: Bytes, xs: seq<Section>)
    requires xs != [] && !Readable(xs[0])
    ensures SectionSum(Marking(text), Taken(xs)) == if SectionText(Stable, Cut(xs[0])) == text then 1 else 0
  {
    hide Readable, SectionText, SectionSum, Taken, Cut, AddModulo, Number, Weight, Marking;
    TakenFirst(xs);
    WeightAt(Marking(text), Cut(xs[0]));
    MarkedNumbers(text, SectionText(Stable, Cut(xs[0])));
    SmallSums();
    SumOfOne(Marking(text), Cut(xs[0]));
  }

  /** On the level of the twenty bytes that two runs of `patch_id_one` return. */
  lemma {:induction false} StableIdsEqual(digest: Digest, p: seq<Bytes>, xs: seq<Section>, q: seq<Bytes>,
                                          ys: seq<Section>, r: seq<Bytes>, t: seq<Bytes>,
                                          xid: Bytes, yid: Bytes)
    requires IsPrologue(p) && IsPrologue(q) && EndsPatch(r) && EndsPatch(t)
    requires AllWellFormed(xs) && xs != [] && AllWellFormed(ys) && multiset(xs) == multiset(ys)
    requires |xid| == 20
             && Number(xid) == SumOf(digest, Flush(ReadLines(Stable, START, p + PatchLines(xs) + r).final).flushed)
    requires |yid| == 20
             && Number(yid) == SumOf(digest, Flush(ReadLines(Stable, START, q + PatchLines(ys) + t).final).flushed)
    ensures xid == yid <==> SectionSum(digest, Taken(xs)) == SectionSum(digest, Taken(ys))
    ensures AllReadable(xs) || AllCutAlike(xs) ==> xid == yid
  {
    hide *;
    assert |xs| == |multiset(xs)| == |multiset(ys)| == |ys|;
    PatchIdMeaning(Stable, p, xs, r);
    PatchIdMeaning(Stable, q, ys, t);
    SumsEqual(digest, Taken(xs), Taken(ys));
    if AllReadable(xs) || AllCutAlike(xs) { OrderKept(digest, xs, ys); }
    if Number(xid) == Number(yid) { NumberInjective(xid, yid); }
  }
}
