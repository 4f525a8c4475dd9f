/** Call graphs over function names, with paths, reachability and cycles. */
module CallGraph {

  /** A function name; wrapped so that names compare as atoms. */
  datatype Name = Name(text: string)

  /** Caller to the list of its callees, duplicates allowed. */
  type Graph = map<Name, seq<Name>>

  predicate Edge(g: Graph, x: Name, y: Name) {
    x in g && y in g[x]
  }

  ghost predicate IsPath(g: Graph, p: seq<Name>) {
    |p| > 0 && forall i :: 0 <= i < |p| - 1 ==> Edge(g, p[i], p[i + 1])
  }

  ghost predicate PathFromTo(g: Graph, p: seq<Name>, x: Name, y: Name) {
    IsPath(g, p) && p[0] == x && p[|p| - 1] == y
  }

  /** There is a call path, possibly empty, from x to y. */
  ghost predicate Reaches(g: Graph, x: Name, y: Name) {
    exists p :: PathFromTo(g, p, x, y)
  }

  /** There is a call path of at least one call from x back to x. */
  ghost predicate OnCycle(g: Graph, x: Name) {
    exists p :: PathFromTo(g, p, x, x) && |p| >= 2
  }

  /** The callers and callees of a graph. */
  ghost predicate IsNodeOf(g: Graph, x: Name) {
    x in g || exists c :: c in g && x in g[c]
  }

  ghost predicate Closed(g: Graph, s: set<Name>) {
    forall x, y :: x in s && Edge(g, x, y) ==> y in s
  }

  lemma ReachesSelf(g: Graph, x: Name)
    ensures Reaches(g, x, x)
  {
    assert PathFromTo(g, [x], x, x);
  }

  lemma EdgeReaches(g: Graph, x: Name, y: Name)
    requires Edge(g, x, y)
    ensures Reaches(g, x, y)
  {
    assert PathFromTo(g, [x, y], x, y);
  }

  lemma ReachesTransitive(g: Graph, x: Name, y: Name, z: Name)
    requires Reaches(g, x, y) && Reaches(g, y, z)
    ensures Reaches(g, x, z)
  {
    var p :| PathFromTo(g, p, x, y);
    var q :| PathFromTo(g, q, y, z);
    var r := p + q[1..];
    forall i | 0 <= i < |r| - 1
      ensures Edge(g, r[i], r[i + 1])
    {
      if i >= |p| - 1 {
        assert Edge(g, q[i - (|p| - 1)], q[i - (|p| - 1) + 1]);
      }
    }
    assert PathFromTo(g, r, x, z);
  }

  lemma {:induction false} PathStaysInside(g: Graph, s: set<Name>, p: seq<Name>, i: nat)
    requires Closed(g, s) && IsPath(g, p) && p[0] in s && i < |p|
    ensures p[i] in s
  {
    if i > 0 {
      PathStaysInside(g, s, p, i - 1);
      assert Edge(g, p[i - 1], p[i - 1 + 1]);
    }
  }

  /** Nothing outside a closed set can be reached from inside it. */
  lemma ReachesStaysInside(g: Graph, s: set<Name>, x: Name, y: Name)
    requires Closed(g, s) && x in s && Reaches(g, x, y)
    ensures y in s
  {
    var p :| PathFromTo(g, p, x, y);
    PathStaysInside(g, s, p, |p| - 1);
  }

  /** A name lies on a cycle exactly when one of its callees reaches it. */
  lemma OnCycleIffCalleeReaches(g: Graph, x: Name)
    ensures OnCycle(g, x) <==> exists y :: Edge(g, x, y) && Reaches(g, y, x)
  {
    if OnCycle(g, x) {
      var p :| PathFromTo(g, p, x, x) && |p| >= 2;
      assert Edge(g, p[0], p[0 + 1]);
      var q := p[1..];
      forall i | 0 <= i < |q| - 1
        ensures Edge(g, q[i], q[i + 1])
      {
        assert Edge(g, p[i + 1], p[i + 1 + 1]);
      }
      assert PathFromTo(g, q, p[1], x);
    }
    if exists y :: Edge(g, x, y) && Reaches(g, y, x) {
      var y :| Edge(g, x, y) && Reaches(g, y, x);
      var q :| PathFromTo(g, q, y, x);
      var p := [x] + q;
      forall i | 0 <= i < |p| - 1
        ensures Edge(g, p[i], p[i + 1])
      {
        if i > 0 {
          assert Edge(g, q[i - 1], q[i - 1 + 1]);
        }
      }
      assert PathFromTo(g, p, x, x) && |p| >= 2;
    }
  }
}
