/**
 * What one visit of `explore` does to the crawl, stated over plain sets and sequences:
 * for each canonical name of the page, in document order, a graph edge from the page
 * unless the name is the page itself, and, the first time the name is met, an entry in
 * `seen` and at the back of the frontier.
 */
module Graph {
  import opened Bytes

  /** One `"source" -> "target";` line of the DOT graph file. */
  datatype Edge = Edge(source: CString, target: CString)

  /** The crawl as the hash set, the `to_explore` queue and the graph file stand for it. */
  datatype View = View(seen: set<CString>, frontier: seq<CString>, edges: seq<Edge>)

  /** The graph line for a link from `current` to `name`: none for a self-link. */
  function EdgeOf(current: CString, name: CString): seq<Edge>
  {
    if name != current then [Edge(current, name)] else []
  }

  /** One iteration of the drain loop of `explore` for the canonical name `name`. */
  function Record(current: CString, v: View, name: CString): (r: View)
    ensures r.seen == v.seen + {name}
    ensures |r.frontier| == |v.frontier| + (if name in v.seen then 0 else 1) && r.frontier[..|v.frontier|] == v.frontier
    ensures name !in v.seen ==> r.frontier[|v.frontier|] == name
    ensures |r.edges| == |v.edges| + (if name != current then 1 else 0) && r.edges[..|v.edges|] == v.edges
    ensures name != current ==> r.edges[|v.edges|] == Edge(current, name)
  {
    var edges := v.edges + EdgeOf(current, name);
    if name in v.seen then View(v.seen, v.frontier, edges)
    else View(v.seen + {name}, v.frontier + [name], edges)
  }

  /** The whole drain loop: every name of the page, in order. */
  function RecordAll(current: CString, v: View, names: seq<CString>): (r: View)
    ensures v.seen <= r.seen
    ensures |v.frontier| <= |r.frontier| && r.frontier[..|v.frontier|] == v.frontier
    ensures |v.edges| <= |r.edges| && r.edges[..|v.edges|] == v.edges
    decreases |names|
  {
    if names == [] then v
    else
      var v' := Record(current, v, names[0]);
      var r := RecordAll(current, v', names[1..]);
      assert r.frontier[..|v.frontier|] == r.frontier[..|v'.frontier|][..|v.frontier|];
      assert r.edges[..|v.edges|] == r.edges[..|v'.edges|][..|v.edges|];
      r
  }

  /**
   * Reference definition of what the frontier gains: the names not in `seen`, each at
   * its first occurrence, in document order.
   */
  function Fresh(seen: set<CString>, names: seq<CString>): (r: seq<CString>)
    ensures NoDup(r)
    ensures forall x :: x in r <==> x in names && x !in seen
    decreases |names|
  {
    if names == [] then []
    else if names[0] in seen then Fresh(seen, names[1..])
    else [names[0]] + Fresh(seen + {names[0]}, names[1..])
  }

  /** The fresh names keep their document order. */
  lemma {:induction false} FreshSubsequence(seen: set<CString>, names: seq<CString>)
    ensures IsSubsequence(Fresh(seen, names), names)
    decreases |names|
  {
    if names != [] {
      var x, rest := names[0], names[1..];
      if x in seen {
        FreshSubsequence(seen, rest);
        SubsequenceSkip(Fresh(seen, rest), x, rest);
      } else {
        FreshSubsequence(seen + {x}, rest);
        assert ([x] + Fresh(seen + {x}, rest))[1..] == Fresh(seen + {x}, rest);
      }
    }
  }

  /** A subsequence of `s` is one of `[x] + s` too. */
  lemma {:induction false} SubsequenceSkip<T>(t: seq<T>, x: T, s: seq<T>)
    requires IsSubsequence(t, s)
    ensures IsSubsequence(t, [x] + s)
    decreases |s|, 1
  {
    assert ([x] + s)[1..] == s;
    if t != [] && t[0] == x {
      SubsequenceTail(t, s);
    }
  }

  /** Dropping the first picked element leaves a subsequence. */
  lemma {:induction false} SubsequenceTail<T>(t: seq<T>, s: seq<T>)
    requires t != [] && IsSubsequence(t, s)
    ensures IsSubsequence(t[1..], s)
    decreases |s|, 0
  {
    assert s == [s[0]] + s[1..];
    if t[0] == s[0] {
      SubsequenceSkip(t[1..], s[0], s[1..]);
    } else {
      SubsequenceTail(t, s[1..]);
      SubsequenceSkip(t[1..], s[0], s[1..]);
    }
  }

  /** Reference definition of the graph lines one page writes: one per occurrence of a name other than the page itself. */
  function EdgesFrom(current: CString, names: seq<CString>): (r: seq<Edge>)
    ensures |r| <= |names|
    ensures forall e :: e in r ==> e.source == current && e.target != current && e.target in names
    ensures forall n :: n in names && n != current ==> Edge(current, n) in r
  {
    if names == [] then []
    else EdgeOf(current, names[0]) + EdgesFrom(current, names[1..])
  }

  /**
   * The effect of one visit: `seen` gains every name, the frontier gains the fresh
   * names in first-occurrence order, the graph gains one edge per non-self link.
   */
  lemma RecordAllEffect(current: CString, v: View, names: seq<CString>)
    ensures RecordAll(current, v, names)
            == View(v.seen + AsSet(names), v.frontier + Fresh(v.seen, names), v.edges + EdgesFrom(current, names))
  {
    RecordAllSeen(current, v, names);
    RecordAllFrontier(current, v, names);
    RecordAllEdges(current, v, names);
  }

  lemma {:induction false} RecordAllSeen(current: CString, v: View, names: seq<CString>)
    ensures RecordAll(current, v, names).seen == v.seen + AsSet(names)
    decreases |names|
  {
    if names != [] {
      var x, rest := names[0], names[1..];
      RecordAllSeen(current, Record(current, v, x), rest);
      assert names == [x] + rest;
      assert AsSet(names) == {x} + AsSet(rest);
    }
  }

  lemma {:induction false} RecordAllFrontier(current: CString, v: View, names: seq<CString>)
    ensures RecordAll(current, v, names).frontier == v.frontier + Fresh(v.seen, names)
    decreases |names|
  {
    if names != [] {
      var x, rest := names[0], names[1..];
      var v' := Record(current, v, x);
      RecordAllFrontier(current, v', rest);
      if x in v.seen {
        assert Fresh(v.seen, names) == Fresh(v.seen, rest);
        assert v'.seen == v.seen && v'.frontier == v.frontier;
      } else {
        assert Fresh(v.seen, names) == [x] + Fresh(v'.seen, rest);
        assert v'.frontier + Fresh(v'.seen, rest) == v.frontier + ([x] + Fresh(v'.seen, rest));
      }
    }
  }

  lemma {:induction false} RecordAllEdges(current: CString, v: View, names: seq<CString>)
    ensures RecordAll(current, v, names).edges == v.edges + EdgesFrom(current, names)
    decreases |names|
  {
    if names != [] {
      var x, rest := names[0], names[1..];
      var v' := Record(current, v, x);
      RecordAllEdges(current, v', rest);
      assert RecordAll(current, v, names) == RecordAll(current, v', rest);
      assert v'.edges == v.edges + EdgeOf(current, x);
      assert EdgesFrom(current, names) == EdgeOf(current, x) + EdgesFrom(current, rest);
      ConcatAssoc(v.edges, EdgeOf(current, x), EdgesFrom(current, rest));
    }
  }

  lemma ConcatAssoc<T>(a: seq<T>, b: seq<T>, c: seq<T>)
    ensures a + b + c == a + (b + c)
  {
  }

  /**
   * The page's links are all recorded in `v`: every name is seen, and every name other
   * than the page has its edge.
   */
  predicate Explored(v: View, current: CString, names: seq<CString>)
  {
    && (forall n :: n in names ==> n in v.seen)
    && (forall n :: n in names && n != current ==> Edge(current, n) in v.edges)
  }

  /** After a visit the page is explored, and a later visit of any page only adds to that. */
  lemma RecordAllExplores(current: CString, v: View, names: seq<CString>)
    ensures Explored(RecordAll(current, v, names), current, names)
    ensures forall p, ns :: Explored(v, p, ns) ==> Explored(RecordAll(current, v, names), p, ns)
  {
    RecordAllEffect(current, v, names);
  }

  /** The worked example: page S links to A, B, A; A is queued once, three edges are written. */
  lemma ExampleVisit(s: CString, a: CString, b: CString)
    requires s != a && s != b && a != b
    ensures RecordAll(s, View({}, [], []), [a, b, a])
            == View({a, b}, [a, b], [Edge(s, a), Edge(s, b), Edge(s, a)])
  {
    var v0 := View({}, [], []);
    var v1 := Record(s, v0, a);
    var v2 := Record(s, v1, b);
    var v3 := Record(s, v2, a);
    assert [a, b, a][1..] == [b, a] && [b, a][1..] == [a] && [a][1..] == [];
    assert RecordAll(s, v0, [a, b, a]) == RecordAll(s, v1, [b, a]);
    assert RecordAll(s, v1, [b, a]) == RecordAll(s, v2, [a]);
    assert RecordAll(s, v2, [a]) == RecordAll(s, v3, []) == v3;
    assert v3.seen == {a, b};
  }

  /**
   * The page being visited is not in `seen` unless some visited page, itself included,
   * links to it: a first page linking to itself writes no edge but queues itself.
   */
  lemma SelfLinkQueued(s: CString)
    ensures RecordAll(s, View({}, [], []), [s]) == View({s}, [s], [])
  {
  }
}
