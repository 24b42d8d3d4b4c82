/** Reachability in a finite directed graph, by paths: what every search of the program is measured against. */
module Graphs {

  type Edges<T(==)> = map<T, seq<T>>

  ghost predicate IsPath<T(!new)>(edges: Edges<T>, path: seq<T>)
  {
    && path != []
    && forall i :: 0 <= i < |path| - 1 ==> path[i] in edges && path[i + 1] in edges[path[i]]
  }

  /** Zero or more edges lead from `a` to `b`. */
  ghost predicate Reaches<T(!new)>(edges: Edges<T>, a: T, b: T)
  {
    exists path :: IsPath(edges, path) && path[0] == a && path[|path| - 1] == b
  }

  ghost predicate Closed<T(!new)>(edges: Edges<T>, nodes: iset<T>)
  {
    forall x, y :: x in nodes && x in edges && y in edges[x] ==> y in nodes
  }

  lemma {:induction false} ReachesSelf<T(!new)>(edges: Edges<T>, a: T)
    ensures Reaches(edges, a, a)
  {
    assert IsPath(edges, [a]);
  }

  lemma {:induction false} ReachesEdge<T(!new)>(edges: Edges<T>, a: T, b: T, c: T)
    requires a in edges && b in edges[a] && Reaches(edges, b, c)
    ensures Reaches(edges, a, c)
  {
    var path :| IsPath(edges, path) && path[0] == b && path[|path| - 1] == c;
    assert IsPath(edges, [a] + path);
  }

  lemma {:induction false} ReachesThen<T(!new)>(edges: Edges<T>, a: T, b: T, c: T)
    requires Reaches(edges, a, b) && b in edges && c in edges[b]
    ensures Reaches(edges, a, c)
  {
    var path :| IsPath(edges, path) && path[0] == a && path[|path| - 1] == b;
    assert IsPath(edges, path + [c]);
  }

  lemma {:induction false} PathStaysInside<T(!new)>(edges: Edges<T>, nodes: iset<T>, path: seq<T>, k: nat)
    requires Closed(edges, nodes) && IsPath(edges, path) && path[0] in nodes && k < |path|
    ensures path[k] in nodes
  {
    if k > 0 { PathStaysInside(edges, nodes, path, k - 1); }
  }

  /** Nothing outside a closed set is reachable from inside it. */
  lemma {:induction false} ClosedContains<T(!new)>(edges: Edges<T>, nodes: iset<T>, a: T, b: T)
    requires Closed(edges, nodes) && a in nodes && Reaches(edges, a, b)
    ensures b in nodes
  {
    var path :| IsPath(edges, path) && path[0] == a && path[|path| - 1] == b;
    PathStaysInside(edges, nodes, path, |path| - 1);
  }

  /** The first edge of a path that leads elsewhere. */
  lemma {:induction false} FirstEdge<T(!new)>(edges: Edges<T>, a: T, b: T) returns (next: T)
    requires Reaches(edges, a, b) && a != b
    ensures a in edges && next in edges[a] && Reaches(edges, next, b)
  {
    var path :| IsPath(edges, path) && path[0] == a && path[|path| - 1] == b;
    next := path[1];
    assert IsPath(edges, path[1..]);
  }
}
