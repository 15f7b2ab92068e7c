/** Contig traversal of Assembler.kt (`getContigByTraverse` and its `dfs`, lines 143-182):
    one turn of the `dfs` loop as a step function over an explicit walker state, the walk
    to its end (which always comes, by a measure every turn decreases), the leaves it
    starts from, and the contigs it emits. */
module Traversal {
  import opened Wrappers
  import opened Dna
  import opened Graph
  import Threading

  /** `(readSet intersect it.readSet).size`. */
  function Overlap(a: set<int>, b: set<int>): nat {
    |a * b|
  }

  /** `edges.maxBy { (readSet intersect it.readSet).size }`: the first edge with the
      largest overlap with the walker's read set. */
  function BestBranch(rs: set<int>, es: seq<Edge>): (r: nat)
    requires |es| > 0
    ensures r < |es|
    ensures forall j :: 0 <= j < |es| ==> Overlap(rs, es[j].readSet) <= Overlap(rs, es[r].readSet)
    ensures forall j :: 0 <= j < r ==> Overlap(rs, es[j].readSet) < Overlap(rs, es[r].readSet)
    decreases |es|
  {
    if |es| == 1 then 0
    else
      var p := es[..|es| - 1];
      var b := BestBranch(rs, p);
      assert forall j :: 0 <= j < |p| ==> p[j] == es[j];
      var o := Overlap(rs, es[|es| - 1].readSet);
      if o > Overlap(rs, es[b].readSet) then |es| - 1 else b
  }

  /** `visit[kmer] ?: -1`. */
  function VisitOf(visit: map<string, int>, kmer: string): int {
    if kmer in visit then visit[kmer] else -1
  }

  /** The variables of the `dfs` loop, with the graph it updates and the `visit` map it
      shares with the other walks. */
  datatype Walker = Walker(g: Nodes, visit: map<string, int>, at: NodeKey, sb: string, readSet: set<int>, readCnt: nat)

  /** What one turn of the loop does: leave it, go on, or fail on a `!!`. */
  datatype Outcome = Halt(w: Walker) | Move(w: Walker) | Crash

  /** `bestBranch.readSet.removeAll(readSet)` on edge b of node key. */
  function Drain(g: Nodes, key: NodeKey, b: nat, rs: set<int>): Nodes
    requires key in g && b < |g[key].edges|
  {
    var e := g[key].edges[b];
    g[key := g[key].(edges := g[key].edges[b := e.(readSet := e.readSet - rs)])]
  }

  /** One turn of the `while (true)` loop (lines 152-166). */
  function Step(w: Walker): Outcome {
    if VisitOf(w.visit, w.at.kmer) == w.readCnt then Halt(w)
    else
      var visit := w.visit[w.at.kmer := w.readCnt];
      if w.at !in w.g then Crash
      else
        var node := w.g[w.at];
        if |node.edges| == 0 then Halt(w.(visit := visit))
        else if |w.at.kmer| == 0 then Crash
        else
          var rs := w.readSet + node.readStart - node.readEnd;
          var b := BestBranch(rs, node.edges);
          var e := node.edges[b];
          var cnt := if e.readSet * rs != {} then w.readCnt + 1 else w.readCnt;
          var sb := w.sb + (if w.at.end == 1 then e.bases else Reverse(e.bases));
          Move(Walker(Drain(w.g, w.at, b, rs), visit, Dest(w.at, e.bases), sb, rs + e.readStart - e.readEnd, cnt))
  }

  // ---------------------------------------------------------------------------
  // Termination

  /** Every (node, edge index, read id) entry of the edges' read-pass sets. */
  function Tags(g: Nodes): set<(NodeKey, int, int)> {
    set key, i, x | key in g && 0 <= i < |g[key].edges| && x in g[key].edges[i].readSet :: (key, i, x)
  }

  /** The nodes whose k-mer has not been entered at count cnt. */
  function Unvisited(g: Nodes, visit: map<string, int>, cnt: int): set<NodeKey> {
    set key | key in g && VisitOf(visit, key.kmer) != cnt
  }

  /** A turn either removes read ids from an edge (and bumps `readCnt`) or marks one more
      k-mer as entered at the current `readCnt`. */
  function Measure(w: Walker): nat {
    |Tags(w.g)| * (|w.g| + 1) + |Unvisited(w.g, w.visit, w.readCnt)|
  }

  /** The walker stands on a node of a graph whose edges stay inside it. */
  ghost predicate Ok(w: Walker) {
    EdgesClosed(w.g) && w.at in w.g
  }

  lemma SubsetCard<T>(a: set<T>, b: set<T>)
    requires a <= b
    ensures |a| <= |b|
  {
    assert b == a + (b - a);
  }

  lemma StrictSubsetCard<T>(a: set<T>, b: set<T>, x: T)
    requires a <= b && x in b && x !in a
    ensures |a| < |b|
  {
    assert b == a + (b - a);
    assert x in b - a;
  }

  /** Draining an edge keeps every node and every edge's bases, and it removes entries
      from the read-pass sets exactly when the edge shares ids with rs. */
  lemma DrainEffect(g: Nodes, key: NodeKey, b: nat, rs: set<int>)
    requires key in g && b < |g[key].edges|
    ensures var h := Drain(g, key, b, rs);
      h.Keys == g.Keys
      && (forall n, i | n in g && 0 <= i < |g[n].edges| :: |h[n].edges| == |g[n].edges| && h[n].edges[i].bases == g[n].edges[i].bases)
      && (g[key].edges[b].readSet * rs == {} ==> h == g)
      && (g[key].edges[b].readSet * rs != {} ==> |Tags(h)| < |Tags(g)|)
  {
    var e := g[key].edges[b];
    var h := Drain(g, key, b, rs);
    if e.readSet * rs == {} {
      forall x ensures x in e.readSet - rs <==> x in e.readSet {
        assert x in e.readSet * rs <==> x in e.readSet && x in rs;
      }
      assert e.readSet - rs == e.readSet;
      assert e.(readSet := e.readSet - rs) == e;
      assert g[key].edges[b := e] == g[key].edges;
    } else {
      var common := e.readSet * rs;
      if forall y :: y !in common {
        assert false;
      }
      var x :| x in common;
      assert Tags(h) <= Tags(g);
      assert (key, b as int, x) in Tags(g);
      StrictSubsetCard(Tags(h), Tags(g), (key, b as int, x));
    }
  }

  /** Marking a node's k-mer that was not marked at cnt. */
  lemma MarkShrinks(g: Nodes, visit: map<string, int>, cnt: int, key: NodeKey)
    requires key in g && VisitOf(visit, key.kmer) != cnt
    ensures |Unvisited(g, visit[key.kmer := cnt], cnt)| < |Unvisited(g, visit, cnt)|
  {
    StrictSubsetCard(Unvisited(g, visit[key.kmer := cnt], cnt), Unvisited(g, visit, cnt), key);
  }

  lemma MeasureDrop(t: nat, t': nat, u: nat, u': nat, n: nat)
    requires u' < n && ((t' < t) || (t' == t && u' < u))
    ensures t' * n + u' < t * n + u
  {
    if t' < t {
      assert t' * n + n <= t * n by {
        assert (t' + 1) * n <= t * n;
      }
    }
  }

  /** The parts of a turn that goes on. */
  lemma MoveParts(w: Walker)
    requires Step(w).Move?
    ensures w.at in w.g && var node := w.g[w.at]; var rs := w.readSet + node.readStart - node.readEnd;
      |node.edges| > 0 && |w.at.kmer| > 0 && var b := BestBranch(rs, node.edges); var t := Step(w).w;
      t.g == Drain(w.g, w.at, b, rs) && t.at == Dest(w.at, node.edges[b].bases)
      && t.visit == w.visit[w.at.kmer := w.readCnt] && VisitOf(w.visit, w.at.kmer) != w.readCnt
      && (t.readCnt == w.readCnt <==> node.edges[b].readSet * rs == {})
  {
  }

  /** Every turn that goes on keeps the walker well placed. */
  lemma StepOk(w: Walker)
    requires Step(w).Move?
    ensures Ok(w) ==> Ok(Step(w).w)
  {
    var node := w.g[w.at];
    var rs := w.readSet + node.readStart - node.readEnd;
    var b := BestBranch(rs, node.edges);
    MoveParts(w);
    DrainEffect(w.g, w.at, b, rs);
  }

  /** Every turn that goes on decreases the measure. */
  lemma StepDecreases(w: Walker)
    requires Step(w).Move?
    ensures Measure(Step(w).w) < Measure(w)
  {
    var t := Step(w).w;
    var node := w.g[w.at];
    var rs := w.readSet + node.readStart - node.readEnd;
    var b := BestBranch(rs, node.edges);
    MoveParts(w);
    DrainEffect(w.g, w.at, b, rs);
    SubsetCard(Unvisited(t.g, t.visit, t.readCnt), t.g.Keys);
    assert |t.g| == |t.g.Keys| == |w.g.Keys| == |w.g|;
    if t.readCnt == w.readCnt {
      MarkShrinks(w.g, w.visit, w.readCnt, w.at);
    }
    MeasureDrop(|Tags(w.g)|, |Tags(t.g)|, |Unvisited(w.g, w.visit, w.readCnt)|, |Unvisited(t.g, t.visit, t.readCnt)|, |w.g| + 1);
  }

  /** A turn ends the walk exactly when the k-mer was already entered at the current
      `readCnt`, or the node has no edges (after marking the k-mer). */
  lemma HaltReason(w: Walker)
    ensures Ok(w) ==> (Step(w).Halt? <==> VisitOf(w.visit, w.at.kmer) == w.readCnt || |w.g[w.at].edges| == 0)
    ensures Ok(w) && Step(w).Halt? ==> Step(w).w == w || Step(w).w == w.(visit := w.visit[w.at.kmer := w.readCnt])
    ensures Ok(w) ==> !Step(w).Crash?
  {
    if Ok(w) && |w.g[w.at].edges| > 0 {
      assert |w.g[w.at].edges[0].bases| > 0;
    }
  }

  /** The `dfs` walk to its end, which always comes; None when a `!!` fails. It only
      appends to the sequence, keeps the graph's nodes and the marks already made, marks
      the start k-mer if it was unmarked, and stops on a k-mer marked with the final
      `readCnt`. On a graph whose edges stay inside it, from a node of it, it never fails. */
  function Traverse(w: Walker): (r: Option<Walker>)
    ensures r.Some? ==> VisitOf(r.value.visit, r.value.at.kmer) == r.value.readCnt
    ensures r.Some? ==> r.value.g.Keys == w.g.Keys && w.sb <= r.value.sb && w.readCnt <= r.value.readCnt
    ensures r.Some? ==> w.visit.Keys <= r.value.visit.Keys && w.at.kmer in r.value.visit
    ensures Ok(w) ==> r.Some? && Ok(r.value)
    decreases Measure(w)
  {
    match Step(w)
    case Halt(t) => Some(t)
    case Move(t) =>
      StepDecreases(w);
      StepOk(w);
      Traverse(t)
    case Crash => HaltReason(w); None
  }

  // ---------------------------------------------------------------------------
  // Leaves (lines 170-175)

  /** `edges.map { it.seq.length }.max() ?: 0`. */
  function MaxLen(es: seq<Edge>): (r: nat)
    ensures forall i :: 0 <= i < |es| ==> |es[i].bases| <= r
    ensures |es| == 0 ==> r == 0
    ensures |es| > 0 ==> exists i :: 0 <= i < |es| && |es[i].bases| == r
    decreases |es|
  {
    if |es| == 0 then 0
    else
      var m := MaxLen(es[..|es| - 1]);
      if |es[|es| - 1].bases| > m then |es[|es| - 1].bases| else m
  }

  /** A node without edges, to start a contig from, weighted by the longest edge of its
      other end. */
  datatype Leaf = Leaf(key: NodeKey, weight: nat)

  /** The node is a dead end. */
  predicate Edgeless(g: Nodes, key: NodeKey)
    requires key in g
  {
    |g[key].edges| == 0
  }

  /** l is a dead end of g, with its other end present, weighted as the source weighs it. */
  predicate IsLeafOf(g: Nodes, l: Leaf) {
    l.key in g && Edgeless(g, l.key) && OtherEnd(l.key) in g && l.weight == MaxLen(g[OtherEnd(l.key)].edges)
  }

  predicate Listed(ls: seq<Leaf>, key: NodeKey) {
    exists j :: 0 <= j < |ls| && ls[j].key == key
  }

  lemma ListedSnoc(ls: seq<Leaf>, l: Leaf, key: NodeKey)
    requires Listed(ls, key) || l.key == key
    ensures Listed(ls + [l], key)
  {
    if l.key == key {
      assert (ls + [l])[|ls|].key == key;
    } else {
      var j :| 0 <= j < |ls| && ls[j].key == key;
      assert (ls + [l])[j].key == key;
    }
  }

  /** The leaves in the iteration order of the node map; None when a leaf's other end is
      missing (the `otherEnd()!!` of line 173). */
  function LeavesOf(g: Nodes, order: seq<NodeKey>): (r: Option<seq<Leaf>>)
    requires forall i :: 0 <= i < |order| ==> order[i] in g
    ensures r.Some? <==> forall i :: 0 <= i < |order| && Edgeless(g, order[i]) ==> OtherEnd(order[i]) in g
    ensures r.Some? ==> forall j :: 0 <= j < |r.value| ==> IsLeafOf(g, r.value[j])
    ensures r.Some? ==> forall i :: 0 <= i < |order| && Edgeless(g, order[i]) ==> Listed(r.value, order[i])
    ensures r.Some? ==> |r.value| <= |order|
    decreases |order|
  {
    if |order| == 0 then Some([])
    else
      var key := order[|order| - 1];
      assert forall i :: 0 <= i < |order| - 1 ==> order[..|order| - 1][i] == order[i];
      match LeavesOf(g, order[..|order| - 1])
      case None => None
      case Some(ls) =>
        if !Edgeless(g, key) then Some(ls)
        else if OtherEnd(key) !in g then None
        else
          var l := Leaf(key, MaxLen(g[OtherEnd(key)].edges));
          assert forall j :: 0 <= j < |ls| ==> (ls + [l])[j] == ls[j];
          assert forall i :: 0 <= i < |order| && Edgeless(g, order[i]) ==> Listed(ls + [l], order[i]) by {
            forall i | 0 <= i < |order| && Edgeless(g, order[i]) ensures Listed(ls + [l], order[i]) {
              ListedSnoc(ls, l, order[i]);
            }
          }
          Some(ls + [l])
  }

  // ---------------------------------------------------------------------------
  // Sorting the leaves (`leafs.sortBy { -it.second }`, a stable sort, line 175)

  /** x goes before the first leaf that does not outweigh it. */
  function InsertLeaf(x: Leaf, s: seq<Leaf>): seq<Leaf> {
    if |s| == 0 || s[0].weight <= x.weight then [x] + s
    else [s[0]] + InsertLeaf(x, s[1..])
  }

  function SortLeaves(s: seq<Leaf>): seq<Leaf> {
    if |s| == 0 then [] else InsertLeaf(s[0], SortLeaves(s[1..]))
  }

  /** Heaviest first. */
  predicate Descending(s: seq<Leaf>) {
    forall i, j :: 0 <= i < j < |s| ==> s[i].weight >= s[j].weight
  }

  /** The leaves of one weight, in order. */
  function OfWeight(s: seq<Leaf>, w: nat): seq<Leaf> {
    if |s| == 0 then []
    else (if s[0].weight == w then [s[0]] else []) + OfWeight(s[1..], w)
  }

  lemma {:induction false} InsertLeafPermutes(x: Leaf, s: seq<Leaf>)
    ensures multiset(InsertLeaf(x, s)) == multiset{x} + multiset(s)
  {
    if |s| > 0 && s[0].weight > x.weight {
      InsertLeafPermutes(x, s[1..]);
      assert s == [s[0]] + s[1..];
    }
  }

  lemma {:induction false} InsertLeafSorted(x: Leaf, s: seq<Leaf>)
    requires Descending(s)
    ensures Descending(InsertLeaf(x, s))
  {
    if |s| > 0 && s[0].weight > x.weight {
      var t := InsertLeaf(x, s[1..]);
      InsertLeafSorted(x, s[1..]);
      InsertLeafPermutes(x, s[1..]);
      forall j | 0 <= j < |t| ensures s[0].weight >= t[j].weight {
        assert t[j] in multiset(t);
        if t[j] != x {
          assert t[j] in multiset(s[1..]);
          var i :| 0 <= i < |s[1..]| && s[1..][i] == t[j];
          assert s[i + 1] == t[j];
        }
      }
      assert InsertLeaf(x, s) == [s[0]] + t;
    }
  }

  lemma {:induction false} OfWeightConcat(a: seq<Leaf>, b: seq<Leaf>, w: nat)
    ensures OfWeight(a + b, w) == OfWeight(a, w) + OfWeight(b, w)
  {
    if |a| > 0 {
      OfWeightConcat(a[1..], b, w);
      assert (a + b)[1..] == a[1..] + b;
    } else {
      assert a + b == b;
    }
  }

  lemma OfWeightSingle(l: Leaf, w: nat)
    ensures OfWeight([l], w) == if l.weight == w then [l] else []
  {
    assert [l][1..] == [];
  }

  lemma {:induction false} InsertLeafStable(x: Leaf, s: seq<Leaf>, w: nat)
    ensures OfWeight(InsertLeaf(x, s), w) == OfWeight([x] + s, w)
  {
    if |s| > 0 && s[0].weight > x.weight {
      var t := InsertLeaf(x, s[1..]);
      var ox, os := OfWeight([x], w), OfWeight([s[0]], w);
      OfWeightSingle(x, w);
      OfWeightSingle(s[0], w);
      calc {
        OfWeight(InsertLeaf(x, s), w);
        OfWeight([s[0]] + t, w);
        { OfWeightConcat([s[0]], t, w); }
        os + OfWeight(t, w);
        { InsertLeafStable(x, s[1..], w); OfWeightConcat([x], s[1..], w); }
        os + (ox + OfWeight(s[1..], w));
        ox + (os + OfWeight(s[1..], w));
        { OfWeightConcat([s[0]], s[1..], w); assert [s[0]] + s[1..] == s; }
        ox + OfWeight(s, w);
        { OfWeightConcat([x], s, w); }
        OfWeight([x] + s, w);
      }
    }
  }

  /** The sort orders the leaves heaviest first, loses and invents none, and keeps the
      order among leaves of equal weight (it is stable). */
  lemma {:induction false} SortLeavesFacts(s: seq<Leaf>)
    ensures Descending(SortLeaves(s))
    ensures multiset(SortLeaves(s)) == multiset(s)
    ensures forall w :: OfWeight(SortLeaves(s), w) == OfWeight(s, w)
  {
    if |s| > 0 {
      SortLeavesFacts(s[1..]);
      InsertLeafSorted(s[0], SortLeaves(s[1..]));
      InsertLeafPermutes(s[0], SortLeaves(s[1..]));
      assert s == [s[0]] + s[1..];
      forall w ensures OfWeight(SortLeaves(s), w) == OfWeight(s, w) {
        InsertLeafStable(s[0], SortLeaves(s[1..]), w);
        OfWeightConcat([s[0]], SortLeaves(s[1..]), w);
        OfWeightConcat([s[0]], s[1..], w);
      }
    }
  }

  // ---------------------------------------------------------------------------
  // Contigs (lines 176-180)

  /** What the contig loop carries from leaf to leaf: the graph (whose read-pass sets the
      walks drain), the shared `visit` map and the contigs so far. */
  datatype Assembly = Assembly(g: Nodes, visit: map<string, int>, contigs: seq<string>)

  /** The contig of a walk from leaf l: the leaf's k-mer read towards the walk, then the
      walk's bases. */
  predicate StartsAt(c: string, l: Leaf) {
    Oriented(OtherEnd(l.key)) <= c
  }

  predicate FromSome(c: string, ls: seq<Leaf>) {
    exists i :: 0 <= i < |ls| && StartsAt(c, ls[i])
  }

  /** One turn of the leaf loop: a leaf whose k-mer some walk has entered is skipped;
      otherwise the walk from its other end gives one more contig. */
  function LeafStep(a: Assembly, l: Leaf): (r: Option<Assembly>)
    ensures r.Some? && l.key.kmer in a.visit ==> r.value == a
    ensures r.Some? ==> r.value.g.Keys == a.g.Keys && a.visit.Keys <= r.value.visit.Keys && l.key.kmer in r.value.visit
    ensures r.Some? && l.key.kmer !in a.visit ==>
      |r.value.contigs| == |a.contigs| + 1 && r.value.contigs[..|a.contigs|] == a.contigs
      && StartsAt(r.value.contigs[|a.contigs|], l)
    ensures EdgesClosed(a.g) && OtherEnd(l.key) in a.g ==> r.Some? && EdgesClosed(r.value.g)
  {
    if l.key.kmer in a.visit then Some(a)
    else
      match Traverse(Walker(a.g, a.visit, OtherEnd(l.key), "", {}, 0))
      case None => None
      case Some(t) => Some(Assembly(t.g, t.visit, a.contigs + [Oriented(OtherEnd(l.key)) + t.sb]))
  }

  /** The leaf loop over ls. It only appends contigs, at most one per leaf and each from a
      leaf of ls; it leaves every leaf's k-mer entered; and it never fails when the edges
      stay inside the graph and every leaf's other end is present. */
  function Assemble(a: Assembly, ls: seq<Leaf>): (r: Option<Assembly>)
    ensures r.Some? ==> r.value.g.Keys == a.g.Keys && a.visit.Keys <= r.value.visit.Keys
    ensures r.Some? ==> forall i :: 0 <= i < |ls| ==> ls[i].key.kmer in r.value.visit
    ensures r.Some? ==> a.contigs <= r.value.contigs && |r.value.contigs| <= |a.contigs| + |ls|
    ensures r.Some? ==> forall j :: |a.contigs| <= j < |r.value.contigs| ==> FromSome(r.value.contigs[j], ls)
    ensures EdgesClosed(a.g) && (forall i :: 0 <= i < |ls| ==> OtherEnd(ls[i].key) in a.g) ==> r.Some?
    decreases |ls|
  {
    if |ls| == 0 then Some(a)
    else
      match LeafStep(a, ls[0])
      case None => None
      case Some(b) =>
        var r := Assemble(b, ls[1..]);
        if r.Some? then
          FromSomeStep(|a.contigs|, b.contigs, r.value.contigs, ls);
          r
        else r
  }

  /** The contigs after position n come from ls when the one at n (if any) starts at
      ls[0] and those after it come from the rest of ls. */
  lemma FromSomeStep(n: nat, bs: seq<string>, rs: seq<string>, ls: seq<Leaf>)
    requires |ls| > 0 && n <= |bs| <= n + 1 && bs <= rs
    requires |bs| == n + 1 ==> StartsAt(bs[n], ls[0])
    requires forall j :: |bs| <= j < |rs| ==> FromSome(rs[j], ls[1..])
    ensures forall j :: n <= j < |rs| ==> FromSome(rs[j], ls)
  {
    forall j | n <= j < |rs| ensures FromSome(rs[j], ls) {
      if j < |bs| {
        assert rs[j] == bs[j] && StartsAt(rs[j], ls[0]);
      } else {
        var i :| 0 <= i < |ls[1..]| && StartsAt(rs[j], ls[1..][i]);
        assert ls[1..][i] == ls[i + 1];
      }
    }
  }

  /** `getContigByTraverse` on a `contigs` list that already holds cs: the leaves in the
      map's iteration order, sorted heaviest first, then the leaf loop from an empty
      `visit` map; None when a `!!` fails. */
  function ContigsOf(g: Nodes, order: seq<NodeKey>, cs: seq<string>): (r: Option<Assembly>)
    requires forall i :: 0 <= i < |order| ==> order[i] in g
  {
    match LeavesOf(g, order)
    case None => None
    case Some(ls) => Assemble(Assembly(g, map[], cs), SortLeaves(ls))
  }

  /** c begins with the k-mer of a dead end of g, read towards the rest of the graph. */
  ghost predicate FromDeadEnd(g: Nodes, c: string) {
    exists key :: key in g && Edgeless(g, key) && Oriented(OtherEnd(key)) <= c
  }

  lemma SortedLeavesOf(g: Nodes, ls: seq<Leaf>)
    requires forall i :: 0 <= i < |ls| ==> IsLeafOf(g, ls[i])
    ensures forall i :: 0 <= i < |SortLeaves(ls)| ==> IsLeafOf(g, SortLeaves(ls)[i])
  {
    var sorted := SortLeaves(ls);
    SortLeavesFacts(ls);
    forall i | 0 <= i < |sorted| ensures IsLeafOf(g, sorted[i]) {
      assert sorted[i] in multiset(ls);
      var j :| 0 <= j < |ls| && ls[j] == sorted[i];
    }
  }

  /** On a graph with both ends of every node and edges that stay inside it (what
      contraction leaves), the traversal never fails, and every contig starts from one
      of its dead ends. */
  lemma ContigsNoCrash(g: Nodes, order: seq<NodeKey>, cs: seq<string>)
    requires forall i :: 0 <= i < |order| ==> order[i] in g
    requires EdgesClosed(g) && forall key | key in g :: OtherEnd(key) in g
    ensures ContigsOf(g, order, cs).Some?
    ensures var r := ContigsOf(g, order, cs).value;
      cs <= r.contigs && forall j :: |cs| <= j < |r.contigs| ==> FromDeadEnd(g, r.contigs[j])
  {
    var ls := LeavesOf(g, order).value;
    var sorted := SortLeaves(ls);
    SortedLeavesOf(g, ls);
    var r := Assemble(Assembly(g, map[], cs), sorted);
    assert r == ContigsOf(g, order, cs);
    assert r.Some?;
    forall j | |cs| <= j < |r.value.contigs| ensures FromDeadEnd(g, r.value.contigs[j]) {
      var i :| 0 <= i < |sorted| && StartsAt(r.value.contigs[j], sorted[i]);
      assert IsLeafOf(g, sorted[i]);
    }
  }
}
