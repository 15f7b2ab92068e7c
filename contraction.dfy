/** `pathContraction` and `compactChain` of Assembler.kt as specification functions over a
    snapshot of the `nodes` map: every edge leaving a branching node is replaced by the
    chain of one-in one-out nodes it enters, and those interior nodes are then removed. */
module Contraction {
  import opened Wrappers
  import opened Dna
  import opened Graph
  import Build
  import Threading

  /** A k-mer whose two ends both have exactly one edge: `compactChain` walks through it
      and the removal pass deletes it. */
  predicate Interior(g: Nodes, key: NodeKey) {
    key in g && OtherEnd(key) in g && |key.kmer| > 0
    && |g[key].edges| == 1 && |g[OtherEnd(key)].edges| == 1
  }

  /** `node.dest(0)` of an interior node. */
  function Next(g: Nodes, key: NodeKey): NodeKey
    requires Interior(g, key)
  {
    Dest(key, g[key].edges[0].bases)
  }

  /** The base `compactChain` appends for a node: the last k-mer base at end 1, the
      looked-up complement of the first base at end 0. */
  function LastBase(key: NodeKey): string
    requires |key.kmer| > 0
  {
    if key.end == 1 then [key.kmer[|key.kmer| - 1]] else ComplementText(key.kmer[0])
  }

  /** What `compactChain` gathers: the appended bases, the read starts and ends of the
      interior nodes it passed, and the node it stopped at. */
  datatype Chain = Chain(bases: string, starts: set<int>, ends: set<int>, last: NodeKey)

  /** The `while (true)` loop of `compactChain` from node m, following the successor map
      nx (which has an entry exactly for the nodes the loop passes through), cut off after
      `fuel` nodes; None also stands for the `!!` failure on a missing node or other end. */
  function Trail(g: Nodes, nx: map<NodeKey, NodeKey>, m: NodeKey, fuel: nat): (r: Option<Chain>)
    ensures r.Some? ==> r.value.last in g && r.value.last !in nx
    decreases fuel
  {
    if fuel == 0 || m !in g || OtherEnd(m) !in g || |m.kmer| == 0 then None
    else if m !in nx then Some(Chain(LastBase(m), {}, {}, m))
    else
      match Trail(g, nx, nx[m], fuel - 1)
      case None => None
      case Some(c) => Some(Chain(LastBase(m) + c.bases, g[m].readStart + c.starts, g[m].readEnd + c.ends, c.last))
  }

  /** `compactChain`'s loop on g: it moves on through `node.dest(0)` while the node is
      interior, and stops at the first node that is not. */
  function Walk(g: Nodes, m: NodeKey, fuel: nat): (r: Option<Chain>)
    ensures r.Some? ==> r.value.last in g && !Interior(g, r.value.last)
  {
    Trail(g, Succ(g), m, fuel)
  }

  /** The successor of every interior node. */
  function Succ(g: Nodes): (nx: map<NodeKey, NodeKey>)
    ensures forall p :: p in nx <==> Interior(g, p)
  {
    map p | p in g && Interior(g, p) :: Next(g, p)
  }

  /** The i-th node reached by following a successor map from m; it stays put at the
      first node the map has no entry for. */
  function Chase(nx: map<NodeKey, NodeKey>, m: NodeKey, i: nat): NodeKey
    decreases i
  {
    if i == 0 || m !in nx then m else Chase(nx, nx[m], i - 1)
  }

  /** The i-th node of the walk from m. */
  function PathAt(g: Nodes, m: NodeKey, i: nat): NodeKey
  {
    Chase(Succ(g), m, i)
  }

  /** The edge `compactChain` returns, after lines 112-113 removed the ids present in both
      its start and end sets from each of them. */
  function Trim(c: Chain): (e: Edge)
    ensures e.bases == c.bases && e.readSet == {}
    ensures e.readStart * e.readEnd == {}
    ensures forall x :: x in e.readStart <==> x in c.starts && x !in c.ends
    ensures forall x :: x in e.readEnd <==> x in c.ends && x !in c.starts
  {
    var inside := set x | x in c.starts && x in c.ends;
    Edge(c.starts - inside, {}, c.ends - inside, c.bases)
  }

  /** The replacement for edge e of node `key`; the walk is given |g| nodes of fuel, which
      `WalkTerminates` shows is enough on the graphs the assembler builds. */
  function CompactEdge(g: Nodes, key: NodeKey, e: Edge): Edge
  {
    if |key.kmer| == 0 then e
    else
      match Walk(g, Dest(key, e.bases), |g|)
      case None => e
      case Some(c) => Trim(c)
  }

  /** Every edge of a node replaced, in order. */
  function CompactEdges(g: Nodes, key: NodeKey, es: seq<Edge>): (r: seq<Edge>)
    ensures |r| == |es|
    ensures forall i :: 0 <= i < |es| ==> r[i] == CompactEdge(g, key, es[i])
  {
    if es == [] then []
    else CompactEdges(g, key, es[..|es| - 1]) + [CompactEdge(g, key, es[|es| - 1])]
  }

  /** The `nodes` map after the first loop (lines 107-114): the edges of every non-interior
      node compacted, interior nodes untouched. */
  function Compacted(g: Nodes): (h: Nodes)
    ensures h.Keys == g.Keys
  {
    map key | key in g ::
      if Interior(g, key) then g[key] else g[key].(edges := CompactEdges(g, key, g[key].edges))
  }

  /** The removal loop (lines 115-119): drop every k-mer whose two ends have one edge each. */
  function Prune(h: Nodes): (r: Nodes)
    ensures forall key :: key in r <==> key in h && !Interior(h, key)
  {
    map key | key in h && !Interior(h, key) :: h[key]
  }

  /** `pathContraction`. */
  function Contracted(g: Nodes): Nodes
  {
    Prune(Compacted(g))
  }

  /** What the graph satisfies when `pathContraction` runs: construction's invariants
      other than the absence of read tags. */
  ghost predicate Ready(k: nat, g: Nodes) {
    k % 2 == 1 && WellFormed(k, g) && EdgesClosed(g) && Mirror(g) && Build.UnitEdges(g)
  }

  // ---------------------------------------------------------------------------
  // The graph contraction runs on

  /** Construction's invariant gives a ready graph. */
  lemma InvReady(k: nat, kmers: set<nat>, g: Nodes)
    requires k > 0 && k % 2 == 1 && Build.Inv(k, kmers, g)
    ensures Ready(k, g)
  {
  }

  /** A ready graph without the mirror property, which only the termination argument
      needs. */
  ghost predicate Plain(k: nat, g: Nodes) {
    k % 2 == 1 && WellFormed(k, g) && EdgesClosed(g) && Build.UnitEdges(g)
  }

  /** Tagging read ends (which changes only node tag sets) keeps a graph ready. */
  lemma SameEdgesReady(k: nat, g: Nodes, h: Nodes)
    requires Ready(k, g) && Threading.SameEdges(g, h)
    ensures Ready(k, h)
  {
    forall key | key in h ensures h[key].edges == g[key].edges && h[key].kmer == g[key].kmer && h[key].end == g[key].end {
      assert h[key] == g[key].(readStart := h[key].readStart, readEnd := h[key].readEnd);
    }
  }

  // ---------------------------------------------------------------------------
  // Predecessors under the mirror property

  lemma OtherEndTwice(key: NodeKey)
    ensures OtherEnd(OtherEnd(key)) == key
  {
  }

  /** Being interior is a property of the k-mer, not of the end. */
  lemma InteriorOtherEnd(g: Nodes, key: NodeKey)
    ensures Interior(g, key) <==> Interior(g, OtherEnd(key))
  {
    OtherEndTwice(key);
  }

  lemma EdgeToNext(g: Nodes, p: NodeKey)
    requires Interior(g, p)
    ensures HasEdgeTo(g, p, Next(g, p))
  {
    assert Dest(p, g[p].edges[0].bases) == Next(g, p);
  }

  /** The mirror property applied to one edge a -> b. */
  lemma MirrorStep(g: Nodes, a: NodeKey, b: NodeKey)
    requires Mirror(g) && HasEdgeTo(g, a, b)
    ensures HasEdgeTo(g, OtherEnd(b), OtherEnd(a))
  {
    var j :| 0 <= j < |g[a].edges| && Dest(a, g[a].edges[j].bases) == b;
  }

  /** The only edge of an interior node leads wherever any of its edges does. */
  lemma NextOfEdge(g: Nodes, p: NodeKey, t: NodeKey)
    requires Interior(g, p) && HasEdgeTo(g, p, t)
    ensures Next(g, p) == t
  {
  }

  /** The mirror property makes the predecessor of an interior node unique: whichever
      node has an edge into b is the other end of the node b's other end leads to. */
  lemma PredOf(g: Nodes, a: NodeKey, b: NodeKey)
    requires Mirror(g) && HasEdgeTo(g, a, b) && Interior(g, b)
    ensures Interior(g, OtherEnd(b)) && OtherEnd(Next(g, OtherEnd(b))) == a
  {
    MirrorStep(g, a, b);
    InteriorOtherEnd(g, b);
    NextOfEdge(g, OtherEnd(b), OtherEnd(a));
    OtherEndTwice(a);
  }

  /** Distinct interior nodes have distinct interior successors. */
  lemma SuccInjective(g: Nodes)
    requires Mirror(g)
    ensures InjectiveInto(Succ(g))
  {
    var nx := Succ(g);
    forall a, b | a in nx && b in nx && nx[a] == nx[b] && nx[a] in nx ensures a == b {
      EdgeToNext(g, a);
      EdgeToNext(g, b);
      PredOf(g, a, Next(g, a));
      PredOf(g, b, Next(g, b));
    }
  }

  /** An interior node entered from a branching node is no interior node's successor. */
  lemma EntryHasNoPredecessor(g: Nodes, n0: NodeKey, m: NodeKey)
    requires Mirror(g) && HasEdgeTo(g, n0, m) && !Interior(g, n0) && Interior(g, m)
    ensures NoPredecessor(Succ(g), m)
  {
    var nx := Succ(g);
    PredOf(g, n0, m);
    forall a | a in nx ensures nx[a] != m {
      EdgeToNext(g, a);
      if Interior(g, Next(g, a)) {
        PredOf(g, a, Next(g, a));
      }
    }
  }

  // ---------------------------------------------------------------------------
  // Following a successor map

  /** Every node with an entry has at most one node mapped to it. */
  ghost predicate InjectiveInto(nx: map<NodeKey, NodeKey>) {
    forall a, b | a in nx && b in nx && nx[a] == nx[b] && nx[a] in nx :: a == b
  }

  /** No entry of the map leads to m. */
  ghost predicate NoPredecessor(nx: map<NodeKey, NodeKey>, m: NodeKey) {
    forall a | a in nx :: nx[a] != m
  }

  lemma ChaseStep(nx: map<NodeKey, NodeKey>, m: NodeKey, i: nat)
    requires Chase(nx, m, i) in nx
    ensures Chase(nx, m, i + 1) == nx[Chase(nx, m, i)]
    decreases i
  {
    if i > 0 && m in nx {
      ChaseStep(nx, nx[m], i - 1);
    }
  }

  /** Following an injective map from a node nothing leads to never repeats a node. */
  lemma {:induction false} ChaseDistinct(nx: map<NodeKey, NodeKey>, m: NodeKey, i: nat, j: nat)
    requires InjectiveInto(nx) && NoPredecessor(nx, m)
    requires i < j && forall t :: 0 <= t < j ==> Chase(nx, m, t) in nx
    ensures Chase(nx, m, i) != Chase(nx, m, j)
    decreases i
  {
    ChaseStep(nx, m, j - 1);
    if i > 0 {
      ChaseStep(nx, m, i - 1);
      ChaseDistinct(nx, m, i - 1, j - 1);
    }
  }

  /** A sequence of distinct members of S is no longer than S. */
  lemma {:induction false} DistinctBound(s: seq<NodeKey>, S: set<NodeKey>)
    requires forall a, b :: 0 <= a < b < |s| ==> s[a] != s[b]
    requires forall a :: 0 <= a < |s| ==> s[a] in S
    ensures |s| <= |S|
  {
    if s != [] {
      var x := s[|s| - 1];
      var s' := s[..|s| - 1];
      forall a | 0 <= a < |s'| ensures s'[a] in S - {x} {
        assert s'[a] == s[a];
      }
      forall a, b | 0 <= a < b < |s'| ensures s'[a] != s'[b] {
        assert s'[a] == s[a] && s'[b] == s[b];
      }
      DistinctBound(s', S - {x});
    }
  }

  /** Such a chase stays inside the map for fewer steps than S has members, when S holds
      the map's keys and one node outside it. */
  lemma ChaseBound(nx: map<NodeKey, NodeKey>, m: NodeKey, n: nat, S: set<NodeKey>, n0: NodeKey)
    requires InjectiveInto(nx) && NoPredecessor(nx, m) && n0 in S && n0 !in nx && nx.Keys <= S
    requires forall t :: 0 <= t < n ==> Chase(nx, m, t) in nx
    ensures n < |S|
  {
    var s := [n0] + seq(n, t requires 0 <= t < n => Chase(nx, m, t));
    forall a, b | 0 <= a < b < |s| ensures s[a] != s[b] {
      if a > 0 {
        ChaseDistinct(nx, m, a - 1, b - 1);
      }
    }
    DistinctBound(s, S);
  }

  // ---------------------------------------------------------------------------
  // Walking a chain

  lemma TrailUnfold(g: Nodes, nx: map<NodeKey, NodeKey>, m: NodeKey, f: nat)
    requires Trail(g, nx, m, f).Some? && m in nx
    ensures f > 0 && m in g && |m.kmer| > 0 && Trail(g, nx, nx[m], f - 1).Some?
    ensures var c := Trail(g, nx, m, f).value; var c' := Trail(g, nx, nx[m], f - 1).value;
      c == Chain(LastBase(m) + c'.bases, g[m].readStart + c'.starts, g[m].readEnd + c'.ends, c'.last)
  {
  }

  lemma TrailStop(g: Nodes, nx: map<NodeKey, NodeKey>, m: NodeKey, f: nat)
    requires Trail(g, nx, m, f).Some? && m !in nx
    ensures m in g && |m.kmer| > 0 && Trail(g, nx, m, f).value == Chain(LastBase(m), {}, {}, m)
  {
  }

  /** Every entry of nx leads to a node of g, present with its other end, with a
      non-empty k-mer. */
  ghost predicate Closed(g: Nodes, nx: map<NodeKey, NodeKey>) {
    forall p | p in nx :: nx[p] in g && OtherEnd(nx[p]) in g && |nx[p].kmer| > 0
  }

  /** Every key of g is a canonical k-mer of length k. */
  ghost predicate Canon(k: nat, g: Nodes) {
    forall p | p in g :: IsCanonicalKmer(k, p.kmer)
  }

  /** Each entry of nx moves the k-mer read off by o on by the base the walk appends for
      the node it leads to; o is `Oriented` on the graphs of the assembler. */
  ghost predicate Spelled(k: nat, nx: map<NodeKey, NodeKey>, o: NodeKey -> string) {
    forall p | p in nx :: |nx[p].kmer| > 0 && TakeLast(o(p) + LastBase(nx[p]), k) == o(nx[p])
  }

  lemma SpelledAt(k: nat, nx: map<NodeKey, NodeKey>, o: NodeKey -> string, p: NodeKey)
    requires Spelled(k, nx, o) && p in nx
    ensures |nx[p].kmer| > 0 && TakeLast(o(p) + LastBase(nx[p]), k) == o(nx[p])
  {
  }

  /** The successors of a well-formed graph stay inside it. */
  lemma SuccClosed(k: nat, g: Nodes)
    requires WellFormed(k, g) && EdgesClosed(g)
    ensures Closed(g, Succ(g)) && Succ(g).Keys <= g.Keys && Canon(k, g)
  {
    var nx := Succ(g);
    forall p | p in nx ensures nx[p] in g && OtherEnd(nx[p]) in g && |nx[p].kmer| > 0 {
      assert nx[p] == Dest(p, g[p].edges[0].bases);
    }
  }

  /** The base `compactChain` appends for the node an edge enters is the edge's own base,
      and it carries the oriented k-mer along. */
  lemma EdgeSpelled(k: nat, g: Nodes, p: NodeKey, j: nat)
    requires k % 2 == 1 && WellFormed(k, g) && EdgesClosed(g) && Build.UnitEdges(g)
    requires p in g && j < |g[p].edges|
    ensures var x := g[p].edges[j].bases; var t := Dest(p, x);
      t in g && |t.kmer| > 0 && LastBase(t) == x && TakeLast(Oriented(p) + LastBase(t), k) == Oriented(t)
  {
    var x := g[p].edges[j].bases;
    assert |x| == 1 && IsDna(x);
    var t := Dest(p, x);
    DestOriented(k, p, x);
    LastBaseOriented(k, t);
    OrientedDna(k, p);
    var u := Oriented(p) + x;
    assert Oriented(t) == u[|u| - k..];
    assert TakeLast(Oriented(t), 1) == [Oriented(t)[k - 1]];
    assert Oriented(t)[k - 1] == u[|u| - 1] == x[0];
  }

  lemma SuccSpelled(k: nat, g: Nodes)
    requires k % 2 == 1 && WellFormed(k, g) && EdgesClosed(g) && Build.UnitEdges(g)
    ensures Spelled(k, Succ(g), Oriented)
  {
    var nx := Succ(g);
    forall p | p in nx ensures |nx[p].kmer| > 0 && TakeLast(Oriented(p) + LastBase(nx[p]), k) == Oriented(nx[p]) {
      EdgeSpelled(k, g, p, 0);
      assert nx[p] == Dest(p, g[p].edges[0].bases);
    }
  }

  /** A walk that runs out of fuel has seen nothing but nodes with an entry. */
  lemma {:induction false} TrailNone(g: Nodes, nx: map<NodeKey, NodeKey>, m: NodeKey, f: nat)
    requires Closed(g, nx) && m in g && OtherEnd(m) in g && |m.kmer| > 0 && Trail(g, nx, m, f).None?
    ensures forall i :: 0 <= i < f ==> Chase(nx, m, i) in nx
    decreases f
  {
    if f > 0 {
      assert m in nx;
      TrailNone(g, nx, nx[m], f - 1);
      forall i | 0 <= i < f ensures Chase(nx, m, i) in nx {
        if i > 0 {
          assert Chase(nx, m, i) == Chase(nx, nx[m], i - 1);
        }
      }
    }
  }

  /** `compactChain` ends: entered through an edge of a branching node, the walk reaches
      a branching node within |g| steps. */
  lemma WalkTerminates(k: nat, g: Nodes, n0: NodeKey, m: NodeKey)
    requires WellFormed(k, g) && EdgesClosed(g) && Mirror(g)
    requires n0 in g && !Interior(g, n0) && HasEdgeTo(g, n0, m)
    ensures Walk(g, m, |g|).Some?
  {
    var nx := Succ(g);
    SuccClosed(k, g);
    var j :| 0 <= j < |g[n0].edges| && Dest(n0, g[n0].edges[j].bases) == m;
    assert m in g;
    if Trail(g, nx, m, |g|).None? {
      TrailNone(g, nx, m, |g|);
      assert Chase(nx, m, 0) == m;
      EntryHasNoPredecessor(g, n0, m);
      SuccInjective(g);
      ChaseBound(nx, m, |g|, g.Keys, n0);
    }
  }

  /** `TakeLast` of a string that is already long enough can be taken first. */
  lemma TakeLastAppend(u: string, k: nat, x: string)
    requires |u| >= k
    ensures TakeLast(TakeLast(u, k) + x, k) == TakeLast(u + x, k)
  {
    var t := u[|u| - k..];
    assert TakeLast(u, k) == t;
    if |x| >= k {
      assert (t + x)[|t + x| - k..] == x[|x| - k..];
      assert (u + x)[|u + x| - k..] == x[|x| - k..];
    } else if |x| > 0 {
      var d := |u| - k + |x|;
      assert (t + x)[|x|..] == u[d..] + x;
      assert (u + x)[d..] == u[d..] + x;
    } else {
      assert t + x == t && u + x == u;
    }
  }

  /** The base appended for a node is the last base of its oriented k-mer. */
  lemma LastBaseOriented(k: nat, key: NodeKey)
    requires IsCanonicalKmer(k, key.kmer)
    ensures LastBase(key) == TakeLast(Oriented(key), 1) && IsDna(LastBase(key))
  {
    RevComplDna(key.kmer);
  }

  lemma DnaConcat(a: string, b: string)
    requires IsDna(a) && IsDna(b)
    ensures IsDna(a + b)
  {
    forall i | 0 <= i < |a + b| ensures IsBase((a + b)[i]) {
      if i >= |a| { assert (a + b)[i] == b[i - |a|]; }
    }
  }

  /** The walk appends exactly the bases that carry the oriented k-mer along the chain:
      after them, the last K bases spell the k-mer (as o reads it) of the node it stopped
      at. */
  lemma {:induction false} TrailDest(k: nat, g: Nodes, nx: map<NodeKey, NodeKey>, o: NodeKey -> string, m: NodeKey, f: nat, w: string)
    requires Spelled(k, nx, o) && Trail(g, nx, m, f).Some?
    requires |w| >= k && |m.kmer| > 0 && TakeLast(w + LastBase(m), k) == o(m)
    ensures var c := Trail(g, nx, m, f).value; TakeLast(w + c.bases, k) == o(c.last)
    decreases f
  {
    if m in nx {
      var m' := nx[m];
      TrailUnfold(g, nx, m, f);
      var c' := Trail(g, nx, m', f - 1).value;
      var w' := w + LastBase(m);
      SpelledAt(k, nx, o, m);
      TakeLastAppend(w', k, LastBase(m'));
      TrailDest(k, g, nx, o, m', f - 1, w');
      ConcatAssoc(w, LastBase(m), c'.bases);
    } else {
      TrailStop(g, nx, m, f);
    }
  }

  /** The base appended for a canonical k-mer is a single base. */
  lemma LastBaseUnit(k: nat, key: NodeKey)
    requires IsCanonicalKmer(k, key.kmer)
    ensures |LastBase(key)| == 1 && IsDna(LastBase(key))
  {
    if key.end == 0 {
      assert IsBase(key.kmer[0]);
      assert IsBase(Comp(key.kmer[0]));
    }
  }

  /** The walk appends DNA only. */
  lemma {:induction false} TrailDna(k: nat, g: Nodes, nx: map<NodeKey, NodeKey>, m: NodeKey, f: nat)
    requires Canon(k, g) && Trail(g, nx, m, f).Some?
    ensures IsDna(Trail(g, nx, m, f).value.bases)
    decreases f
  {
    assert m in g;
    LastBaseUnit(k, m);
    if m in nx {
      TrailUnfold(g, nx, m, f);
      TrailDna(k, g, nx, nx[m], f - 1);
      DnaConcat(LastBase(m), Trail(g, nx, nx[m], f - 1).value.bases);
    } else {
      TrailStop(g, nx, m, f);
    }
  }

  /** The chase from m passes n nodes with an entry and stops at `last`. */
  ghost predicate Chased(nx: map<NodeKey, NodeKey>, m: NodeKey, n: nat, last: NodeKey) {
    (forall i :: 0 <= i < n ==> Chase(nx, m, i) in nx) && last == Chase(nx, m, n)
  }

  /** The bases hold one base per node visited, the last base of that node's oriented
      k-mer. */
  ghost predicate Appended(nx: map<NodeKey, NodeKey>, m: NodeKey, n: nat, bases: string) {
    n < |bases|
    && forall i :: 0 <= i <= n ==> |Chase(nx, m, i).kmer| > 0 && [bases[i]] == LastBase(Chase(nx, m, i))
  }

  /** The read starts and ends gathered are exactly those of the first n nodes. */
  ghost predicate GathersAlong(g: Nodes, nx: map<NodeKey, NodeKey>, m: NodeKey, n: nat, c: Chain) {
    (forall x :: x in c.starts <==> StartsAlong(g, nx, m, n, x))
    && (forall x :: x in c.ends <==> EndsAlong(g, nx, m, n, x))
  }

  /** What the walk from m records, node by node: it passes n nodes with an entry,
      Chase(0..n-1), and stops at Chase(n); it appends one base per node visited (the
      last base of that node's oriented k-mer), and gathers the read starts and ends of
      exactly the nodes it passed. */
  lemma {:induction false} TrailSpells(k: nat, g: Nodes, nx: map<NodeKey, NodeKey>, m: NodeKey, f: nat)
    requires Canon(k, g) && Trail(g, nx, m, f).Some?
    ensures var c := Trail(g, nx, m, f).value; var n := |c.bases| - 1;
      0 <= n < f && Chased(nx, m, n, c.last) && Appended(nx, m, n, c.bases) && GathersAlong(g, nx, m, n, c)
    decreases f
  {
    assert m in g;
    LastBaseUnit(k, m);
    var c := Trail(g, nx, m, f).value;
    if m in nx {
      TrailUnfold(g, nx, m, f);
      var c' := Trail(g, nx, nx[m], f - 1).value;
      TrailSpells(k, g, nx, nx[m], f - 1);
      var n' := |c'.bases| - 1;
      ChasedStep(nx, m, n', c'.last);
      AppendedStep(nx, m, n', c'.bases, c.bases);
      GathersStep(g, nx, m, n', c', c);
    } else {
      TrailStop(g, nx, m, f);
      assert Chase(nx, m, 0) == m;
    }
  }

  lemma ChasedStep(nx: map<NodeKey, NodeKey>, m: NodeKey, n: nat, last: NodeKey)
    requires m in nx && Chased(nx, nx[m], n, last)
    ensures Chased(nx, m, n + 1, last)
  {
    forall i | 0 <= i < n + 1 ensures Chase(nx, m, i) in nx {
      if i > 0 { assert Chase(nx, m, i) == Chase(nx, nx[m], i - 1); }
    }
  }

  lemma AppendedStep(nx: map<NodeKey, NodeKey>, m: NodeKey, n: nat, b': string, b: string)
    requires m in nx && |m.kmer| > 0 && |LastBase(m)| == 1 && b == LastBase(m) + b'
    requires Appended(nx, nx[m], n, b')
    ensures Appended(nx, m, n + 1, b)
  {
    forall i | 0 <= i <= n + 1 ensures |Chase(nx, m, i).kmer| > 0 && [b[i]] == LastBase(Chase(nx, m, i)) {
      if i > 0 {
        assert Chase(nx, m, i) == Chase(nx, nx[m], i - 1);
        assert b[i] == b'[i - 1];
      } else {
        assert [b[0]] == LastBase(m);
      }
    }
  }

  lemma GathersStep(g: Nodes, nx: map<NodeKey, NodeKey>, m: NodeKey, n: nat, c': Chain, c: Chain)
    requires m in nx && m in g && GathersAlong(g, nx, nx[m], n, c')
    requires c.starts == g[m].readStart + c'.starts && c.ends == g[m].readEnd + c'.ends
    ensures GathersAlong(g, nx, m, n + 1, c)
  {
    forall x ensures x in c.starts <==> StartsAlong(g, nx, m, n + 1, x) {
      assert x in c'.starts <==> StartsAlong(g, nx, nx[m], n, x);
    }
    forall x ensures x in c.ends <==> EndsAlong(g, nx, m, n + 1, x) {
      assert x in c'.ends <==> EndsAlong(g, nx, nx[m], n, x);
    }
  }

  /** Read x starts at one of the first n nodes of the chase from m, all of which have
      an entry. */
  ghost predicate StartsAlong(g: Nodes, nx: map<NodeKey, NodeKey>, m: NodeKey, n: nat, x: int)
    decreases n
  {
    n > 0 && m in nx && m in g && (x in g[m].readStart || StartsAlong(g, nx, nx[m], n - 1, x))
  }

  /** Read x ends at one of the first n nodes of the chase from m. */
  ghost predicate EndsAlong(g: Nodes, nx: map<NodeKey, NodeKey>, m: NodeKey, n: nat, x: int)
    decreases n
  {
    n > 0 && m in nx && m in g && (x in g[m].readEnd || EndsAlong(g, nx, nx[m], n - 1, x))
  }

  // ---------------------------------------------------------------------------
  // The compacted edges

  /** The walk's bases begin with the base appended for its first node. */
  lemma TrailHead(g: Nodes, nx: map<NodeKey, NodeKey>, m: NodeKey, f: nat)
    requires Trail(g, nx, m, f).Some?
    ensures |m.kmer| > 0 && var b := Trail(g, nx, m, f).value.bases;
      |LastBase(m)| <= |b| && b[..|LastBase(m)|] == LastBase(m)
  {
    if m in nx {
      TrailUnfold(g, nx, m, f);
    } else {
      TrailStop(g, nx, m, f);
    }
  }

  /** Each edge of a branching node becomes the edge of its whole chain (the walk from
      its old destination ends, by `WalkTerminates`): the new edge's bases are the walk's DNA bases beginning
      with the old edge's base, its read sets are the walk's sets with the shared ids
      removed, and it leads to the node the walk stopped at. */
  lemma CompactEdgeDest(k: nat, g: Nodes, key: NodeKey, j: nat)
    requires Plain(k, g) && key in g && j < |g[key].edges| && Walk(g, Dest(key, g[key].edges[j].bases), |g|).Some?
    ensures var e := g[key].edges[j]; var w := Walk(g, Dest(key, e.bases), |g|);
      CompactEdge(g, key, e) == Trim(w.value)
      && |e.bases| <= |w.value.bases| && w.value.bases[..|e.bases|] == e.bases && IsDna(w.value.bases)
      && Dest(key, w.value.bases) == w.value.last
  {
    var e := g[key].edges[j];
    var m := Dest(key, e.bases);
    EdgeSpelled(k, g, key, j);
    var nx := Succ(g);
    SuccSpelled(k, g);
    SuccClosed(k, g);
    OrientedDna(k, key);
    TrailDest(k, g, nx, Oriented, m, |g|, Oriented(key));
    TrailDna(k, g, nx, m, |g|);
    TrailHead(g, nx, m, |g|);
    KeyOfOriented(k, Walk(g, m, |g|).value.last);
  }

  /** The chain behind one compacted edge, read from the old destination m: the walk
      visited n+1 nodes, one per base of the new edge; the first n are interior and the
      last is the first non-interior one, which the new edge leads to. */
  lemma CompactEdgeChain(k: nat, g: Nodes, key: NodeKey, j: nat)
    requires Plain(k, g) && key in g && j < |g[key].edges| && Walk(g, Dest(key, g[key].edges[j].bases), |g|).Some?
    ensures var e := g[key].edges[j]; var m := Dest(key, e.bases); var r := CompactEdge(g, key, e);
      var n := |r.bases| - 1;
      0 <= n < |g|
      && (forall i :: 0 <= i < n ==> Interior(g, PathAt(g, m, i)))
      && !Interior(g, PathAt(g, m, n)) && Dest(key, r.bases) == PathAt(g, m, n)
  {
    var e := g[key].edges[j];
    var m := Dest(key, e.bases);
    CompactEdgeDest(k, g, key, j);
    var nx := Succ(g);
    SuccClosed(k, g);
    TrimSpells(k, g, nx, m, |g|);
    var n := |CompactEdge(g, key, e).bases| - 1;
    forall i | 0 <= i < n ensures Interior(g, PathAt(g, m, i)) {
      assert Chase(nx, m, i) in nx;
    }
  }

  /** `compactChain` appends one base per node it visits: `LastBase` of that node, the
      last base of its oriented k-mer (`LastBaseOriented`). */
  lemma CompactEdgeBases(k: nat, g: Nodes, key: NodeKey, j: nat)
    requires Plain(k, g) && key in g && j < |g[key].edges| && Walk(g, Dest(key, g[key].edges[j].bases), |g|).Some?
    ensures var e := g[key].edges[j]; var m := Dest(key, e.bases); var r := CompactEdge(g, key, e);
      forall i :: 0 <= i < |r.bases| ==> |PathAt(g, m, i).kmer| > 0 && [r.bases[i]] == LastBase(PathAt(g, m, i))
  {
    var e := g[key].edges[j];
    var m := Dest(key, e.bases);
    CompactEdgeDest(k, g, key, j);
    SuccClosed(k, g);
    TrimSpells(k, g, Succ(g), m, |g|);
  }

  /** The read sets of one compacted edge: no read passes through it yet, and a read id
      is in its start set exactly when it starts, but does not end, at one of the
      interior nodes of the chain (symmetrically for the end set), so the two sets share
      nothing. */
  lemma CompactEdgeReads(k: nat, g: Nodes, key: NodeKey, j: nat)
    requires Plain(k, g) && key in g && j < |g[key].edges| && Walk(g, Dest(key, g[key].edges[j].bases), |g|).Some?
    ensures var e := g[key].edges[j]; var m := Dest(key, e.bases); var r := CompactEdge(g, key, e);
      var n := |r.bases| - 1;
      r.readSet == {} && r.readStart * r.readEnd == {} && TrimmedAlong(g, Succ(g), m, n, r)
  {
    var e := g[key].edges[j];
    var m := Dest(key, e.bases);
    CompactEdgeDest(k, g, key, j);
    SuccClosed(k, g);
    TrimSpells(k, g, Succ(g), m, |g|);
  }

  /** `TrailSpells` for the trimmed edge. */
  lemma TrimSpells(k: nat, g: Nodes, nx: map<NodeKey, NodeKey>, m: NodeKey, f: nat)
    requires Canon(k, g) && Trail(g, nx, m, f).Some?
    ensures var c := Trail(g, nx, m, f).value; var r := Trim(c); var n := |r.bases| - 1;
      0 <= n < f && Chased(nx, m, n, c.last) && Appended(nx, m, n, r.bases) && TrimmedAlong(g, nx, m, n, r)
  {
    TrailSpells(k, g, nx, m, f);
  }

  /** A read id is in the edge's start set exactly when it starts, but does not end, at
      one of the first n nodes of the chase from m, and symmetrically for the end set. */
  ghost predicate TrimmedAlong(g: Nodes, nx: map<NodeKey, NodeKey>, m: NodeKey, n: nat, r: Edge) {
    (forall x :: x in r.readStart <==> StartsAlong(g, nx, m, n, x) && !EndsAlong(g, nx, m, n, x))
    && (forall x :: x in r.readEnd <==> EndsAlong(g, nx, m, n, x) && !StartsAlong(g, nx, m, n, x))
  }

  // ---------------------------------------------------------------------------
  // The contracted graph

  /** Compaction keeps every node's number of edges, so it keeps which nodes are
      interior. */
  lemma CompactedInterior(g: Nodes, key: NodeKey)
    ensures Interior(Compacted(g), key) <==> Interior(g, key)
  {
  }

  /** The surviving nodes keep their k-mer, end and read tags; their edges are the
      compacted ones. */
  lemma ContractedNode(g: Nodes, key: NodeKey)
    requires key in Contracted(g)
    ensures key in g && !Interior(g, key)
    ensures Contracted(g)[key] == g[key].(edges := CompactEdges(g, key, g[key].edges))
  {
    CompactedInterior(g, key);
  }

  /** Interior k-mers are removed with both their ends and all others stay. */
  lemma ContractedKeys(k: nat, g: Nodes)
    requires WellFormed(k, g)
    ensures forall key :: key in Contracted(g) <==> key in g && !Interior(g, key)
    ensures forall key :: key in g ==> (key in Contracted(g) <==> OtherEnd(key) in Contracted(g))
  {
    forall key ensures key in Contracted(g) <==> key in g && !Interior(g, key) {
      CompactedInterior(g, key);
    }
    forall key | key in g ensures key in Contracted(g) <==> OtherEnd(key) in Contracted(g) {
      InteriorOtherEnd(g, key);
      CompactedInterior(g, key);
      CompactedInterior(g, OtherEnd(key));
    }
  }

  /** No two-sided node with one edge on each side survives. */
  ghost predicate NoInterior(h: Nodes) {
    forall key | key in h :: !Interior(h, key)
  }

  /** Every edge has disjoint read start and end sets and no read ids passing through. */
  ghost predicate Trimmed(h: Nodes) {
    forall key, i | key in h && 0 <= i < |h[key].edges| ::
      h[key].edges[i].readSet == {} && h[key].edges[i].readStart * h[key].edges[i].readEnd == {}
  }

  /** The contracted graph is well formed, its edges stay inside it, every edge has
      trimmed read sets, and no interior node remains. */
  lemma ContractedWellFormed(k: nat, g: Nodes)
    requires Ready(k, g)
    ensures var h := Contracted(g); WellFormed(k, h) && EdgesClosed(h) && Trimmed(h) && NoInterior(h)
  {
    var h := Contracted(g);
    ContractedKeys(k, g);
    forall key | key in h ensures h[key].kmer == key.kmer && h[key].end == key.end && OtherEnd(key) in h {
      ContractedNode(g, key);
    }
    forall key, i | key in h && 0 <= i < |h[key].edges|
      ensures |key.kmer| > 0 && |h[key].edges[i].bases| > 0 && IsDna(h[key].edges[i].bases)
        && Dest(key, h[key].edges[i].bases) in h
        && h[key].edges[i].readSet == {} && h[key].edges[i].readStart * h[key].edges[i].readEnd == {}
    {
      ContractedNode(g, key);
      assert HasEdgeTo(g, key, Dest(key, g[key].edges[i].bases));
      WalkTerminates(k, g, key, Dest(key, g[key].edges[i].bases));
      CompactEdgeDest(k, g, key, i);
    }
    forall key | key in h ensures !Interior(h, key) {
      ContractedNode(g, key);
      InteriorOtherEnd(g, key);
      if OtherEnd(key) in h {
        ContractedNode(g, OtherEnd(key));
      }
    }
  }

  // ---------------------------------------------------------------------------
  // Order independence of the compaction loop

  /** h differs from g at most in the edges of non-interior nodes, and keeps their number:
      what the compaction loop leaves after replacing some of the edges. */
  ghost predicate Agree(g: Nodes, h: Nodes) {
    g.Keys == h.Keys
    && forall key | key in g :: |h[key].edges| == |g[key].edges| && (Interior(g, key) ==> h[key] == g[key])
  }

  lemma {:induction false} TrailAgree(g: Nodes, h: Nodes, nx: map<NodeKey, NodeKey>, m: NodeKey, f: nat)
    requires g.Keys == h.Keys && forall p | p in nx :: p in g && h[p] == g[p]
    ensures Trail(g, nx, m, f) == Trail(h, nx, m, f)
    decreases f
  {
    if f > 0 && m in g && OtherEnd(m) in g && |m.kmer| > 0 && m in nx {
      TrailAgree(g, h, nx, nx[m], f - 1);
    }
  }

  /** Walks, and so compacted edges, are the same on a graph that agrees with g: the loop
      may replace the edges of the nodes in any order. */
  lemma AgreeCompactEdge(g: Nodes, h: Nodes, key: NodeKey, e: Edge)
    requires Agree(g, h)
    ensures Succ(h) == Succ(g)
    ensures CompactEdge(h, key, e) == CompactEdge(g, key, e)
  {
    forall p ensures Interior(h, p) <==> Interior(g, p) {
      if p in g && OtherEnd(p) in g {
        assert |h[p].edges| == |g[p].edges| && |h[OtherEnd(p)].edges| == |g[OtherEnd(p)].edges|;
      }
    }
    forall p | p in Succ(g) ensures p in Succ(h) && Succ(h)[p] == Succ(g)[p] {
      assert h[p].edges == g[p].edges;
    }
    assert Succ(h) == Succ(g);
    assert |h| == |g| by {
      assert h.Keys == g.Keys;
    }
    if |key.kmer| > 0 {
      TrailAgree(g, h, Succ(g), Dest(key, e.bases), |g|);
    }
  }
}
