/** The lexicographic order of byte strings (`Ord for [u8]`), as a strict order. */
module ByteOrder {
  import opened Common

  datatype Ordering = Lt | Eq | Gt

  predicate Less(a: Bytes, b: Bytes)
  {
    b != [] && (a == [] || a[0] < b[0] || (a[0] == b[0] && Less(a[1..], b[1..])))
  }

  function Compare(a: Bytes, b: Bytes): Ordering
  {
    if a == b then Eq else if Less(a, b) then Lt else Gt
  }

  lemma {:induction false} LessIrreflexive(a: Bytes)
    ensures !Less(a, a)
  {
    if a != [] { LessIrreflexive(a[1..]); }
  }

  lemma {:induction false} LessTransitive(a: Bytes, b: Bytes, c: Bytes)
    requires Less(a, b) && Less(b, c)
    ensures Less(a, c)
  {
    if a != [] && a[0] == b[0] == c[0] {
      LessTransitive(a[1..], b[1..], c[1..]);
    }
  }

  lemma {:induction false} LessAsymmetric(a: Bytes, b: Bytes)
    requires Less(a, b)
    ensures !Less(b, a) && a != b
  {
    LessIrreflexive(a);
    if Less(b, a) { LessTransitive(a, b, a); }
  }

  lemma {:induction false} LessTotal(a: Bytes, b: Bytes)
    ensures Less(a, b) || a == b || Less(b, a)
  {
    if a != [] && b != [] && a[0] == b[0] {
      LessTotal(a[1..], b[1..]);
      if a[1..] == b[1..] { assert a == [a[0]] + a[1..] == b; }
    }
  }

  /** A common prefix does not matter to the order. */
  lemma {:induction false} LessUnderPrefix(p: Bytes, a: Bytes, b: Bytes)
    ensures Less(p + a, p + b) <==> Less(a, b)
  {
    if p == [] {
      assert p + a == a && p + b == b;
    } else {
      LessUnderPrefix(p[1..], a, b);
      assert (p + a)[1..] == p[1..] + a && (p + b)[1..] == p[1..] + b;
    }
  }

  /** A proper extension is greater. */
  lemma {:induction false} LessThanExtension(a: Bytes, x: Bytes)
    requires x != []
    ensures Less(a, a + x)
  {
    LessUnderPrefix(a, [], x);
    assert a + [] == a;
  }

  /** A difference inside `a` decides the order of every extension. */
  lemma {:induction false} LessExtends(a: Bytes, b: Bytes, x: Bytes, y: Bytes)
    requires Less(a, b)
    requires !(a <= b)
    ensures Less(a + x, b + y)
  {
    if a[0] == b[0] {
      assert a[1..] <= b[1..] ==> a <= b;
      LessExtends(a[1..], b[1..], x, y);
      assert (a + x)[1..] == a[1..] + x && (b + y)[1..] == b[1..] + y;
    }
  }

  /** Equal up to `k`, then different at `k` or exhausted on one side: the loops of the tree comparators. */
  lemma {:induction false} LessAt(a: Bytes, b: Bytes, k: nat)
    requires k <= |a| && k <= |b| && a[..k] == b[..k]
    ensures k == |a| && k < |b| ==> Less(a, b)
    ensures k < |a| && k < |b| && a[k] < b[k] ==> Less(a, b)
  {
    assert a == a[..k] + a[k..] && b == b[..k] + b[k..];
    LessUnderPrefix(a[..k], a[k..], b[k..]);
  }

  /** At the first place where they differ, the smaller one has ended or has the smaller byte. */
  lemma {:induction false} LessMeans(a: Bytes, b: Bytes)
    ensures Less(a, b) <==>
            exists k :: 0 <= k <= |a| && k < |b| && a[..k] == b[..k] && (k == |a| || a[k] < b[k])
  {
    if Less(a, b) {
      if a == [] || a[0] < b[0] {
        assert a[..0] == b[..0];
      } else {
        LessMeans(a[1..], b[1..]);
        var k :| 0 <= k <= |a[1..]| && k < |b[1..]| && a[1..][..k] == b[1..][..k]
                 && (k == |a[1..]| || a[1..][k] < b[1..][k]);
        assert a[..k + 1] == [a[0]] + a[1..][..k] && b[..k + 1] == [b[0]] + b[1..][..k];
      }
    }
    if k :| 0 <= k <= |a| && k < |b| && a[..k] == b[..k] && (k == |a| || a[k] < b[k]) {
      if k > 0 {
        assert a[0] == a[..k][0] == b[..k][0] == b[0];
        assert a[1..][..k - 1] == a[..k][1..] == b[..k][1..] == b[1..][..k - 1];
        LessMeans(a[1..], b[1..]);
      }
    }
  }
}
