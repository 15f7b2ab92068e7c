/** The `Assembler` class of Assembler.kt: the `nodes` map and the `contigs` list, and the
    phases of `run` as methods that update them in place. Each method's loops are proved
    to compute the specification function of its phase, over the snapshot of the state
    the method starts from; the properties of those functions are proved in the Build,
    Threading, Contraction, Traversal and Fasta modules. */
module Assembly {
  import opened Wrappers
  import opened Graph
  import Dna
  import Codec
  import Build
  import Threading
  import Contraction
  import Traversal
  import Fasta

  /** Both ends of every code in S, as fresh nodes. */
  lemma InitNodesAdd(k: nat, S: set<nat>, c: nat)
    requires k > 0
    ensures var x := Build.NodeKmer(k, c);
      Build.InitNodes(k, S + {c})
      == Build.InitNodes(k, S)[NodeKey(x, 0) := Build.EmptyNode(NodeKey(x, 0))][NodeKey(x, 1) := Build.EmptyNode(NodeKey(x, 1))]
  {
    var x := Build.NodeKmer(k, c);
    NodeKeysAdd(k, S, c);
    EmptyNodesAdd(Build.NodeKeys(k, S), NodeKey(x, 0), NodeKey(x, 1));
  }

  lemma EmptyNodesAdd(A: set<NodeKey>, a: NodeKey, b: NodeKey)
    ensures (map key | key in A + {a, b} :: Build.EmptyNode(key))
      == (map key | key in A :: Build.EmptyNode(key))[a := Build.EmptyNode(a)][b := Build.EmptyNode(b)]
  {
  }

  lemma NodeKeysAdd(k: nat, S: set<nat>, c: nat)
    requires k > 0
    ensures var x := Build.NodeKmer(k, c);
      Build.NodeKeys(k, S + {c}) == Build.NodeKeys(k, S) + {NodeKey(x, 0), NodeKey(x, 1)}
  {
    EndsAdd(k, S, c, 0);
    EndsAdd(k, S, c, 1);
  }

  lemma EndsAdd(k: nat, S: set<nat>, c: nat, e: Bit)
    requires k > 0
    ensures (set d | d in S + {c} :: NodeKey(Build.NodeKmer(k, d), e))
      == (set d | d in S :: NodeKey(Build.NodeKmer(k, d), e)) + {NodeKey(Build.NodeKmer(k, c), e)}
  {
  }

  lemma UnionUpdate(m: Nodes, n: Nodes, a: NodeKey, va: Node, b: NodeKey, vb: Node)
    ensures m + n[a := va][b := vb] == (m + n)[a := va][b := vb]
  {
  }

  /** One turn of the node-creation loop. */
  lemma CreateStep(m: Nodes, k: nat, done: set<nat>, c: nat, before: Nodes, after: Nodes)
    requires k > 0 && before == m + Build.InitNodes(k, done)
    requires var x := Build.NodeKmer(k, c);
      after == before[NodeKey(x, 0) := Node(x, 0, {}, {}, [])][NodeKey(x, 1) := Node(x, 1, {}, {}, [])]
    ensures after == m + Build.InitNodes(k, done + {c})
  {
    var x := Build.NodeKmer(k, c);
    InitNodesAdd(k, done, c);
    UnionUpdate(m, Build.InitNodes(k, done), NodeKey(x, 0), Node(x, 0, {}, {}, []), NodeKey(x, 1), Node(x, 1, {}, {}, []));
  }

  /** The construction loop's invariant carried over one k-mer. */
  lemma BuildStep(k: nat, kmers: set<nat>, g: Nodes, order: seq<nat>, i: nat, h: Nodes, h': Nodes)
    requires k > 0 && i < |order|
    requires h == Build.BuildEdges(k, kmers, g, order[..i])
    requires h' == Build.KmerEdges(k, kmers, h, order[i], |Build.Bases|)
    ensures h' == Build.BuildEdges(k, kmers, g, order[..i + 1])
  {
    var o := order[..i + 1];
    assert o[..i] == order[..i] && o[i] == order[i];
    calc {
      Build.BuildEdges(k, kmers, g, o);
      { Build.BuildEdgesSnoc(k, kmers, g, o); }
      Build.KmerEdges(k, kmers, Build.BuildEdges(k, kmers, g, o[..i]), o[i], |Build.Bases|);
      h';
    }
  }

  /** The edge `compactChain` builds from a finished walk, before lines 112-113 trim it. */
  function ChainEdge(c: Option<Contraction.Chain>): Option<Edge> {
    match c
    case None => None
    case Some(c) => Some(Edge(c.starts, {}, c.ends, c.bases))
  }

  /** What the chain loop has gathered, put in front of the rest of the walk. */
  function Prepend(bases: string, starts: set<int>, ends: set<int>, c: Option<Contraction.Chain>): Option<Contraction.Chain> {
    match c
    case None => None
    case Some(c) => Some(Contraction.Chain(bases + c.bases, starts + c.starts, ends + c.ends, c.last))
  }

  lemma PrependAssoc(bases: string, starts: set<int>, ends: set<int>, c: Contraction.Chain)
    ensures Prepend(bases, starts, ends, Some(c)) == Some(Contraction.Chain(bases + c.bases, starts + c.starts, ends + c.ends, c.last))
  {
  }

  lemma PrependStep(bases: string, starts: set<int>, ends: set<int>, b: string, s1: set<int>, e1: set<int>, rest: Option<Contraction.Chain>)
    ensures Prepend(bases, starts, ends, Prepend(b, s1, e1, rest)) == Prepend(bases + b, starts + s1, ends + e1, rest)
  {
    if rest.Some? {
      var c := rest.value;
      assert bases + (b + c.bases) == (bases + b) + c.bases;
      assert starts + (s1 + c.starts) == (starts + s1) + c.starts;
      assert ends + (e1 + c.ends) == (ends + e1) + c.ends;
    }
  }

  lemma PrependEmpty(c: Option<Contraction.Chain>)
    ensures Prepend("", {}, {}, c) == c
  {
    if c.Some? {
      assert "" + c.value.bases == c.value.bases;
      assert {} + c.value.starts == c.value.starts && {} + c.value.ends == c.value.ends;
    }
  }

  /** One step of the chain walk: an interior node contributes its base and read tags. */
  lemma TrailStep(g: Nodes, nx: map<NodeKey, NodeKey>, m: NodeKey, fuel: nat)
    requires fuel > 0 && m in g && OtherEnd(m) in g && |m.kmer| > 0 && m in nx
    ensures Contraction.Trail(g, nx, m, fuel) == Prepend(Contraction.LastBase(m), g[m].readStart, g[m].readEnd, Contraction.Trail(g, nx, nx[m], fuel - 1))
  {
  }

  lemma ChainFails(g: Nodes, nx: map<NodeKey, NodeKey>, m: NodeKey, fuel: nat)
    requires fuel == 0 || m !in g || OtherEnd(m) !in g || |m.kmer| == 0
    ensures Contraction.Trail(g, nx, m, fuel) == None
  {
  }

  /** The chain stops at a node without exactly one edge on each side. */
  lemma ChainEnds(g: Nodes, m: NodeKey, fuel: nat)
    requires fuel > 0 && m in g && OtherEnd(m) in g && |m.kmer| > 0
    requires |g[m].edges| != 1 || |g[OtherEnd(m)].edges| != 1
    ensures Contraction.Trail(g, Contraction.Succ(g), m, fuel) == Some(Contraction.Chain(Contraction.LastBase(m), {}, {}, m))
  {
    assert !Contraction.Interior(g, m);
  }

  /** The chain loop's invariant carried over one interior node. */
  lemma ChainStep(g: Nodes, nx: map<NodeKey, NodeKey>, start: NodeKey, m: NodeKey, fuel: nat, bases: string, starts: set<int>, ends: set<int>,
                  bases': string, starts': set<int>, ends': set<int>, m': NodeKey, fuel': nat)
    requires fuel > 0 && m in g && OtherEnd(m) in g && |m.kmer| > 0 && m in nx
    requires Contraction.Trail(g, nx, start, |g|) == Prepend(bases, starts, ends, Contraction.Trail(g, nx, m, fuel))
    requires bases' == bases + Contraction.LastBase(m) && starts' == starts + g[m].readStart && ends' == ends + g[m].readEnd
    requires m' == nx[m] && fuel' == fuel - 1
    ensures Contraction.Trail(g, nx, start, |g|) == Prepend(bases', starts', ends', Contraction.Trail(g, nx, m', fuel'))
  {
    TrailStep(g, nx, m, fuel);
    PrependStep(bases, starts, ends, Contraction.LastBase(m), g[m].readStart, g[m].readEnd, Contraction.Trail(g, nx, nx[m], fuel - 1));
  }

  /** `node.dest(0)` of an interior node: the node its one edge leads to. */
  method NodeDest(g: Nodes, key: NodeKey) returns (d: NodeKey)
    requires Contraction.Interior(g, key)
    ensures key in Contraction.Succ(g) && d == Contraction.Succ(g)[key]
  {
    d := Graph.Dest(key, g[key].edges[0].bases);
    SuccAt(g, key);
  }

  lemma SuccAt(g: Nodes, p: NodeKey)
    requires Contraction.Interior(g, p)
    ensures p in Contraction.Succ(g) && Contraction.Succ(g)[p] == Contraction.Next(g, p)
  {
  }

  /** The compaction loop with the nodes outside `todo` done. */
  ghost function Partly(g: Nodes, todo: set<NodeKey>): Nodes {
    map key | key in g ::
      if key !in todo && !Contraction.Interior(g, key) then g[key].(edges := Contraction.CompactEdges(g, key, g[key].edges))
      else g[key]
  }

  /** The removal loop with the k-mers of the end-0 keys in `done` handled. */
  ghost function PrunedSome(h: Nodes, done: set<NodeKey>): Nodes {
    map key | key in h && !(Contraction.Interior(h, key) && NodeKey(key.kmer, 0) in done) :: h[key]
  }

  // ---------------------------------------------------------------------------
  // pathContraction's pieces that only read the graph

  /** `compactChain` (Assembler.kt lines 91-106) from node start: the bases of the nodes it
      passes, up to and including the first non-interior one, with the read tags of the
      interior ones; None for a failing `!!` and, as the model's bound, after |g| nodes. */
  method CompactChain(g: Nodes, start: NodeKey) returns (r: Option<Edge>)
    ensures r == ChainEdge(Contraction.Walk(g, start, |g|))
  {
    ghost var nx := Contraction.Succ(g);
    var cur := start;
    var bases: string := "";
    var starts: set<int> := {};
    var ends: set<int> := {};
    var fuel: nat := |g|;
    PrependEmpty(Contraction.Trail(g, nx, start, fuel));
    while true
      invariant Contraction.Trail(g, nx, start, |g|) == Prepend(bases, starts, ends, Contraction.Trail(g, nx, cur, fuel))
      decreases fuel
    {
      if fuel == 0 || cur !in g || OtherEnd(cur) !in g || |cur.kmer| == 0 {
        ChainFails(g, nx, cur, fuel);
        return None;
      }
      var node := g[cur];
      var b := Contraction.LastBase(cur);
      if |node.edges| != 1 || |g[OtherEnd(cur)].edges| != 1 {
        ChainEnds(g, cur, fuel);
        PrependAssoc(bases, starts, ends, Contraction.Chain(b, {}, {}, cur));
        return Some(Edge(starts, {}, ends, bases + b));
      }
      var next := NodeDest(g, cur);
      ghost var was := (bases, starts, ends, cur, fuel);
      bases := bases + b;
      starts := starts + node.readStart;
      ends := ends + node.readEnd;
      cur := next;
      fuel := fuel - 1;
      ChainStep(g, nx, start, was.3, was.4, was.0, was.1, was.2, bases, starts, ends, cur, fuel);
    }
  }

  /** Lines 110-113 for edge e of node key: the chain from the edge's destination, with
      the reads that both start and end inside it dropped from both tag sets. The edge is
      kept when the chain's `!!` fails. */
  method CompactEdgeAt(g: Nodes, key: NodeKey, e: Edge) returns (ne: Edge)
    requires |key.kmer| > 0
    ensures ne == Contraction.CompactEdge(g, key, e)
  {
    var t := Graph.Dest(key, e.bases);
    var chain := CompactChain(g, t);
    if chain.None? {
      return e;
    }
    var c := chain.value;
    var inside := set x | x in c.readStart && x in c.readEnd;
    ne := Edge(c.readStart - inside, {}, c.readEnd - inside, c.bases);
  }

  /** The compaction loop's state before any node is handled is the graph itself. */
  lemma PartlyStart(g: Nodes)
    ensures Partly(g, g.Keys) == g
  {
  }

  lemma PartlyEnd(g: Nodes)
    ensures Partly(g, {}) == Contraction.Compacted(g)
  {
  }

  /** Handling an interior node changes nothing. */
  lemma PartlySkip(g: Nodes, todo: set<NodeKey>, key: NodeKey)
    requires Contraction.Interior(g, key)
    ensures Partly(g, todo - {key}) == Partly(g, todo)
  {
  }

  /** Partly-compacted graphs keep every node's edge count, and interior nodes whole. */
  lemma PartlyAgree(g: Nodes, todo: set<NodeKey>, key: NodeKey, es: seq<Edge>)
    requires key in g && !Contraction.Interior(g, key) && |es| == |g[key].edges|
    ensures Contraction.Agree(g, Partly(g, todo)[key := g[key].(edges := es)])
  {
  }

  /** One more edge of the list compacted. */
  lemma CompactPrefixStep(g: Nodes, key: NodeKey, es: seq<Edge>, i: nat, ne: Edge)
    requires i < |es| && ne == Contraction.CompactEdge(g, key, es[i])
    ensures (Contraction.CompactEdges(g, key, es[..i]) + es[i..])[i := ne] == Contraction.CompactEdges(g, key, es[..i + 1]) + es[i + 1..]
  {
    assert es[..i + 1][..i] == es[..i];
    var x := (Contraction.CompactEdges(g, key, es[..i]) + es[i..])[i := ne];
    var y := Contraction.CompactEdges(g, key, es[..i + 1]) + es[i + 1..];
    assert |x| == |y|;
    forall j | 0 <= j < |x| ensures x[j] == y[j] {
      if j > i {
        assert x[j] == es[j];
      }
    }
  }

  /** The edge loop's invariant carried over the update of edge i. */
  lemma CompactNodeStep(g: Nodes, p: Nodes, key: NodeKey, es: seq<Edge>, i: nat, h: Nodes, ne: Edge, h': Nodes)
    requires key in g && i < |es|
    requires h == p[key := g[key].(edges := Contraction.CompactEdges(g, key, es[..i]) + es[i..])]
    requires ne == Contraction.CompactEdge(g, key, es[i])
    requires h' == h[key := h[key].(edges := h[key].edges[i := ne])]
    ensures h' == p[key := g[key].(edges := Contraction.CompactEdges(g, key, es[..i + 1]) + es[i + 1..])]
  {
    CompactPrefixStep(g, key, es, i, ne);
  }

  lemma CompactNodeStart(g: Nodes, todo: set<NodeKey>, key: NodeKey)
    requires key in g && key in todo
    ensures Partly(g, todo) == Partly(g, todo)[key := g[key].(edges := Contraction.CompactEdges(g, key, g[key].edges[..0]) + g[key].edges[0..])]
  {
    var es := g[key].edges;
    assert es[..0] == [] && es[0..] == es;
    assert Contraction.CompactEdges(g, key, []) + es == es;
    assert Partly(g, todo)[key] == g[key];
  }

  lemma CompactNodeDone(g: Nodes, todo: set<NodeKey>, key: NodeKey)
    requires key in g && key in todo && !Contraction.Interior(g, key)
    ensures Partly(g, todo)[key := g[key].(edges := Contraction.CompactEdges(g, key, g[key].edges[..|g[key].edges|]) + g[key].edges[|g[key].edges|..])]
      == Partly(g, todo - {key})
  {
    var es := g[key].edges;
    assert es[..|es|] == es && es[|es|..] == [];
    assert Contraction.CompactEdges(g, key, es) + [] == Contraction.CompactEdges(g, key, es);
  }

  /** The removal loop's pieces. */
  lemma PrunedStart(h: Nodes)
    ensures PrunedSome(h, {}) == h
  {
  }

  lemma PrunedAt(k: nat, h: Nodes, done: set<NodeKey>, key: NodeKey)
    requires WellFormed(k, h) && key in h && key.end == 0 && key !in done
    ensures key in PrunedSome(h, done) && OtherEnd(key) in PrunedSome(h, done)
    ensures PrunedSome(h, done)[key] == h[key] && PrunedSome(h, done)[OtherEnd(key)] == h[OtherEnd(key)]
    ensures NodeKey(key.kmer, 0) == key && NodeKey(key.kmer, 1) == OtherEnd(key)
    ensures Contraction.Interior(h, key) <==> |h[key].edges| == 1 && |h[OtherEnd(key)].edges| == 1
  {
    assert Dna.IsCanonicalKmer(k, key.kmer);
  }

  lemma PrunedStep(k: nat, h: Nodes, done: set<NodeKey>, key: NodeKey, interior: bool, p: Nodes, done': set<NodeKey>)
    requires WellFormed(k, h) && key in h && key.end == 0 && key !in done && done' == done + {key}
    requires interior == Contraction.Interior(h, key)
    requires p == if interior then PrunedSome(h, done) - {key} - {OtherEnd(key)} else PrunedSome(h, done)
    ensures p == PrunedSome(h, done')
  {
    Contraction.InteriorOtherEnd(h, key);
    forall q | q in h && q.kmer == key.kmer ensures q == key || q == OtherEnd(key) {
    }
  }

  lemma PrunedEnd(k: nat, h: Nodes, done: set<NodeKey>)
    requires WellFormed(k, h) && done == set key | key in h && key.end == 0
    ensures PrunedSome(h, done) == Contraction.Prune(h)
  {
    forall key | key in h ensures NodeKey(key.kmer, 0) in done {
      if key.end != 0 {
        assert OtherEnd(key) == NodeKey(key.kmer, 0);
      }
    }
  }

  /** Compaction keeps every node's k-mer and end, so the graph stays well formed. */
  lemma CompactedWellFormed(k: nat, g: Nodes)
    requires WellFormed(k, g)
    ensures WellFormed(k, Contraction.Compacted(g))
  {
  }

  // ---------------------------------------------------------------------------
  // The walks of getContigByTraverse

  /** A turn that goes on leaves the rest of the walk the same, and the measure smaller. */
  lemma WalkMove(w: Traversal.Walker, t: Traversal.Walker)
    requires Traversal.Step(w) == Traversal.Move(t)
    ensures Traversal.Traverse(w) == Traversal.Traverse(t) && Traversal.Measure(t) < Traversal.Measure(w)
  {
    Traversal.StepDecreases(w);
  }

  /** The turn the `dfs` loop body takes, spelled out. */
  lemma TurnIs(w: Traversal.Walker, rs: set<int>, b: nat, e: Edge, t: Traversal.Walker)
    requires w.at in w.g && Traversal.VisitOf(w.visit, w.at.kmer) != w.readCnt
    requires |w.g[w.at].edges| > 0 && |w.at.kmer| > 0
    requires rs == w.readSet + w.g[w.at].readStart - w.g[w.at].readEnd
    requires b == Traversal.BestBranch(rs, w.g[w.at].edges) && e == w.g[w.at].edges[b]
    requires t.g == w.g[w.at := w.g[w.at].(edges := w.g[w.at].edges[b := e.(readSet := e.readSet - rs)])]
    requires t.visit == w.visit[w.at.kmer := w.readCnt]
    requires t.at == Graph.Dest(w.at, e.bases)
    requires t.sb == w.sb + (if w.at.end == 1 then e.bases else Dna.Reverse(e.bases))
    requires t.readSet == rs + e.readStart - e.readEnd
    requires t.readCnt == if e.readSet * rs != {} then w.readCnt + 1 else w.readCnt
    ensures Traversal.Step(w) == Traversal.Move(t)
  {
  }

  /** The walk ends at once on an entered k-mer, or on a node without edges. */
  lemma WalkHalts(w: Traversal.Walker)
    requires Traversal.VisitOf(w.visit, w.at.kmer) == w.readCnt || (w.at in w.g && |w.g[w.at].edges| == 0)
    ensures Traversal.Traverse(w) == Some(if Traversal.VisitOf(w.visit, w.at.kmer) == w.readCnt then w else w.(visit := w.visit[w.at.kmer := w.readCnt]))
  {
  }

  /** The walk fails on a missing node or an empty k-mer. */
  lemma WalkCrashes(w: Traversal.Walker)
    requires Traversal.VisitOf(w.visit, w.at.kmer) != w.readCnt && (w.at !in w.g || (|w.g[w.at].edges| > 0 && |w.at.kmer| == 0))
    ensures Traversal.Traverse(w) == None
  {
  }

  /** The leaf loop's invariant carried over one dead end of the map. */
  lemma LeavesStep(g: Nodes, order: seq<NodeKey>, i: nat, ls: seq<Traversal.Leaf>, ls': seq<Traversal.Leaf>)
    requires i < |order| && forall j :: 0 <= j < |order| ==> order[j] in g
    requires Traversal.LeavesOf(g, order[..i]) == Some(ls)
    requires |g[order[i]].edges| > 0 ==> ls' == ls
    requires |g[order[i]].edges| == 0 ==> OtherEnd(order[i]) in g && ls' == ls + [Traversal.Leaf(order[i], Traversal.MaxLen(g[OtherEnd(order[i])].edges))]
    ensures Traversal.LeavesOf(g, order[..i + 1]) == Some(ls')
  {
    assert order[..i + 1][..i] == order[..i];
  }

  /** A dead end without its other end makes the leaf collection fail. */
  lemma LeavesFail(g: Nodes, order: seq<NodeKey>, i: nat)
    requires i < |order| && forall j :: 0 <= j < |order| ==> order[j] in g
    requires |g[order[i]].edges| == 0 && OtherEnd(order[i]) !in g
    ensures Traversal.LeavesOf(g, order) == None
  {
    assert Traversal.Edgeless(g, order[i]);
  }

  /** The contig loop's invariant carried over one leaf. */
  lemma AssembleStep(a: Traversal.Assembly, ls: seq<Traversal.Leaf>, j: nat, b: Traversal.Assembly)
    requires j < |ls| && Traversal.LeafStep(a, ls[j]) == Some(b)
    ensures Traversal.Assemble(a, ls[j..]) == Traversal.Assemble(b, ls[j + 1..])
  {
    assert ls[j..][1..] == ls[j + 1..];
  }

  lemma AssembleFail(a: Traversal.Assembly, ls: seq<Traversal.Leaf>, j: nat)
    requires j < |ls| && Traversal.LeafStep(a, ls[j]) == None
    ensures Traversal.Assemble(a, ls[j..]) == None
  {
  }

  /** The contig's first part: the leaf's k-mer as the walk away from it reads it. */
  lemma LeafHead(key: NodeKey)
    ensures Graph.Oriented(OtherEnd(key)) == if key.end == 1 then Dna.RevCompl(key.kmer) else key.kmer
  {
  }

  /** The records loop's invariant carried over one record. */
  lemma RecordsStep(kept: seq<string>, i: nat)
    requires i < |kept|
    ensures Fasta.Records(kept[i..], i) == Fasta.Record(i, kept[i]) + Fasta.Records(kept[i + 1..], i + 1)
  {
    assert kept[i..][1..] == kept[i + 1..];
  }

  /** The graph `run` hands to the traversal: built from the k-mers, tagged with the read
      ends, contracted, then tagged with the read hops. */
  function Threaded(k: nat, kmers: set<nat>, order: seq<nat>, input: seq<Threading.Read>): Nodes
    requires k > 0
  {
    Threading.HopReads(Contraction.Contracted(Threading.TagReads(
      Build.BuildEdges(k, kmers, Build.InitNodes(k, kmers), order), k, input)), k, input)
  }

  /** That graph has both ends of every k-mer and edges that stay inside it. */
  lemma ThreadedClosed(k: nat, kmers: set<nat>, order: seq<nat>, input: seq<Threading.Read>)
    requires Codec.ValidK(k) && k % 2 == 1 && Build.CanonicalCodes(k, kmers)
    requires forall i :: 0 <= i < |order| ==> order[i] in kmers
    ensures var g := Threaded(k, kmers, order, input); WellFormed(k, g) && EdgesClosed(g)
  {
    var g0 := Build.BuildEdges(k, kmers, Build.InitNodes(k, kmers), order);
    Build.BuildInv(k, kmers, order);
    Contraction.InvReady(k, kmers, g0);
    var g1 := Threading.TagReads(g0, k, input);
    Threading.TagReadsSameEdges(g0, k, input);
    Contraction.SameEdgesReady(k, g0, g1);
    var g2 := Contraction.Contracted(g1);
    Contraction.ContractedWellFormed(k, g1);
    Threading.HopReadsSameShape(g2, k, input);
    Threading.SameShapeKeeps(k, g2, Threading.HopReads(g2, k, input));
  }

  /** The tagged graph is well formed, as contraction needs. */
  lemma TaggedWellFormed(k: nat, kmers: set<nat>, order: seq<nat>, input: seq<Threading.Read>)
    requires Codec.ValidK(k) && k % 2 == 1 && Build.CanonicalCodes(k, kmers)
    requires forall i :: 0 <= i < |order| ==> order[i] in kmers
    ensures WellFormed(k, Threading.TagReads(Build.BuildEdges(k, kmers, Build.InitNodes(k, kmers), order), k, input))
  {
    var g0 := Build.BuildEdges(k, kmers, Build.InitNodes(k, kmers), order);
    Build.BuildInv(k, kmers, order);
    Contraction.InvReady(k, kmers, g0);
    Threading.TagReadsSameEdges(g0, k, input);
    Contraction.SameEdgesReady(k, g0, Threading.TagReads(g0, k, input));
  }

  class Assembler {
    /** `Desirable.K`, the k-mer length. */
    const k: nat
    var nodes: Nodes
    var contigs: seq<string>

    constructor(k: nat)
      ensures this.k == k && nodes == map[] && contigs == []
    {
      this.k := k;
      nodes := map[];
      contigs := [];
    }

    /** `nodes[key]!!.edges.add(e)`. */
    method AddEdgeTo(key: NodeKey, e: Edge) returns (found: bool)
      modifies this
      ensures found == (key in old(nodes))
      ensures nodes == Build.AddEdge(old(nodes), key, e) && contigs == old(contigs)
    {
      found := key in nodes;
      if found {
        nodes := nodes[key := nodes[key].(edges := nodes[key].edges + [e])];
      }
    }

    /** The prefix pair of round c (lines 44, 46-52) for the k-mer of code. ok is false
        where a `!!` lookup fails. */
    method AddPrefixEdges(kmers: set<nat>, code: nat, c: char) returns (ok: bool)
      requires k > 0 && Dna.IsBase(c)
      modifies this
      ensures var x := Build.NodeKmer(k, code);
        ok == Build.PairFound(k, kmers, old(nodes).Keys, code, NodeKey(x, 0), [c] + x[..k - 1], true)
      ensures ok ==> nodes == Build.AddPrefixPair(k, kmers, old(nodes), code, Build.NodeKmer(k, code), c)
      ensures nodes.Keys == old(nodes).Keys && contigs == old(contigs)
    {
      var kmer := Build.NodeKmer(k, code);
      var prefix := kmer[..k - 1];
      var (cp, cpr) := Dna.Canonical([c] + prefix);
      var cpCode := Codec.CanonicalOfString(k, cp).0;
      ok := true;
      if cpCode in kmers && Codec.Signed(cpCode) < Codec.Signed(code) {
        ok := AddEdgeTo(NodeKey(kmer, 0), Edge({}, {}, {}, [Dna.Comp(c)]));
        if !ok {
          return;
        }
        ok := AddEdgeTo(NodeKey(cp, Xor1(cpr)), Edge({}, {}, {}, [kmer[k - 1]]));
      }
    }

    /** The suffix pair of round c (lines 45, 53-59) for the k-mer of code. */
    method AddSuffixEdges(kmers: set<nat>, code: nat, c: char) returns (ok: bool)
      requires k > 0 && Dna.IsBase(c)
      modifies this
      ensures var x := Build.NodeKmer(k, code);
        ok == Build.PairFound(k, kmers, old(nodes).Keys, code, NodeKey(x, 1), x[1..] + [c], false)
      ensures ok ==> nodes == Build.AddSuffixPair(k, kmers, old(nodes), code, Build.NodeKmer(k, code), c)
      ensures nodes.Keys == old(nodes).Keys && contigs == old(contigs)
    {
      var kmer := Build.NodeKmer(k, code);
      var suffix := kmer[1..];
      var (sc, scr) := Dna.Canonical(suffix + [c]);
      var scCode := Codec.CanonicalOfString(k, sc).0;
      ok := true;
      if scCode in kmers && Codec.Signed(scCode) < Codec.Signed(code) {
        ok := AddEdgeTo(NodeKey(kmer, 1), Edge({}, {}, {}, [c]));
        if !ok {
          return;
        }
        ok := AddEdgeTo(NodeKey(sc, scr), Edge({}, {}, {}, [Dna.Comp(kmer[0])]));
      }
    }

    /** One round of `for (c in "ATCG")` (lines 44-59) for the k-mer of code. ok is false
        where a `!!` lookup fails, which ends construction with an exception. */
    method AddNeighbours(kmers: set<nat>, code: nat, c: char) returns (ok: bool)
      requires k > 0 && Dna.IsBase(c)
      modifies this
      ensures ok == Build.RoundFound(k, kmers, old(nodes).Keys, code, c)
      ensures ok ==> nodes == Build.Round(k, kmers, old(nodes), code, c)
      ensures nodes.Keys == old(nodes).Keys && contigs == old(contigs)
    {
      ok := AddPrefixEdges(kmers, code, c);
      if !ok {
        return;
      }
      ok := AddSuffixEdges(kmers, code, c);
    }

    /** The edges of one k-mer: `for (c in "ATCG")` (lines 43-60), stopping at the first
        round whose lookup fails. */
    method AddKmerEdges(kmers: set<nat>, code: nat) returns (ok: bool)
      requires k > 0
      modifies this
      ensures ok == Build.KmerFound(k, kmers, old(nodes).Keys, code)
      ensures ok ==> nodes == Build.KmerEdges(k, kmers, old(nodes), code, |Build.Bases|)
      ensures nodes.Keys == old(nodes).Keys && contigs == old(contigs)
    {
      ghost var g0 := nodes;
      var n := 0;
      while n < |Build.Bases|
        invariant 0 <= n <= |Build.Bases| && contigs == old(contigs)
        invariant nodes == Build.KmerEdges(k, kmers, g0, code, n)
        invariant Build.RoundsFound(k, kmers, g0.Keys, code, n)
      {
        ghost var cur := nodes;
        ok := AddNeighbours(kmers, code, Build.Bases[n]);
        Build.KmerEdgesNext(k, kmers, g0, code, n, cur, ok, nodes);
        if !ok {
          return;
        }
        n := n + 1;
      }
      ok := true;
    }

    /** The first loop of `constructGraphFromKmerSet` (lines 34-38): both ends of every
        k-mer as fresh nodes. */
    method CreateNodes(kmers: set<nat>, order: seq<nat>)
      requires k > 0
      requires forall i :: 0 <= i < |order| ==> order[i] in kmers
      requires forall c | c in kmers :: c in order
      modifies this
      ensures nodes == old(nodes) + Build.InitNodes(k, kmers)
      ensures contigs == old(contigs)
    {
      ghost var g0 := nodes;
      ghost var done: set<nat> := {};
      var i := 0;
      while i < |order|
        invariant 0 <= i <= |order| && contigs == old(contigs)
        invariant nodes == g0 + Build.InitNodes(k, done)
        invariant done <= kmers
        invariant forall j | 0 <= j < i :: order[j] in done
      {
        var kmer := Build.NodeKmer(k, order[i]);
        ghost var before := nodes;
        nodes := nodes[NodeKey(kmer, 0) := Node(kmer, 0, {}, {}, [])];
        nodes := nodes[NodeKey(kmer, 1) := Node(kmer, 1, {}, {}, [])];
        CreateStep(g0, k, done, order[i], before, nodes);
        done := done + {order[i]};
        i := i + 1;
      }
      assert done == kmers by {
        forall c | c in kmers ensures c in done {
          var j :| 0 <= j < |order| && order[j] == c;
        }
      }
    }

    /** `constructGraphFromKmerSet` (lines 34-61) on the parsed k-mer map, given as its set
        of canonical codes and the order its iteration visits them in. ok is false exactly
        when one of the `!!` lookups fails, which at odd K never happens. */
    method ConstructGraph(kmers: set<nat>, order: seq<nat>) returns (ok: bool)
      requires k > 0
      requires forall i :: 0 <= i < |order| ==> order[i] in kmers
      requires forall c | c in kmers :: c in order
      modifies this
      ensures ok == Build.EdgesFound(k, kmers, (old(nodes) + Build.InitNodes(k, kmers)).Keys, order)
      ensures ok ==> nodes == Build.BuildEdges(k, kmers, old(nodes) + Build.InitNodes(k, kmers), order)
      ensures contigs == old(contigs)
    {
      CreateNodes(kmers, order);
      ghost var g1 := nodes;
      var i := 0;
      while i < |order|
        invariant 0 <= i <= |order| && contigs == old(contigs)
        invariant nodes == Build.BuildEdges(k, kmers, g1, order[..i])
        invariant Build.EdgesFound(k, kmers, g1.Keys, order[..i])
      {
        ghost var h := nodes;
        ok := AddKmerEdges(kmers, order[i]);
        Build.EdgesFoundNext(k, kmers, g1.Keys, order, i, ok);
        if !ok {
          return;
        }
        BuildStep(k, kmers, g1, order, i, h, nodes);
        i := i + 1;
      }
      ok := true;
      assert order[..|order|] == order;
    }
  
    /** The first loop of lines 71-78: the left-most window of s whose node exists. */
    method LeftHit(s: string) returns (key: Option<NodeKey>)
      requires k > 0
      ensures key == Threading.LeftKey(nodes, k, s)
    {
      key := None;
      var i := 0;
      while i + k <= |s|
        invariant Threading.FirstHit(nodes, k, s, 0) == Threading.FirstHit(nodes, k, s, i)
        decreases |s| - i
      {
        var w := Graph.WindowKey(s[i..i + k]);
        if w in nodes {
          key := Some(w);
          break;
        }
        i := i + 1;
      }
    }

    /** The second loop (lines 79-86): the right-most window of s whose node exists. */
    method RightHit(s: string) returns (key: Option<NodeKey>)
      requires k > 0
      ensures key == Threading.RightKey(nodes, k, s)
    {
      key := None;
      var i: int := |s| - k;
      while i >= 0
        invariant |s| >= k ==> i + k <= |s| && Threading.LastHit(nodes, k, s, |s| - k) == Threading.LastHit(nodes, k, s, i)
        decreases i + 1
      {
        var w := Graph.WindowKey(s[i..i + k]);
        if w in nodes {
          key := Some(w);
          break;
        }
        i := i - 1;
      }
    }

    /** `node.readEnd.add(id)` and `node.otherEnd().readStart.add(id)` at the left hit. */
    method TagLeft(key: Option<NodeKey>, id: int)
      modifies this
      ensures nodes == Threading.TagLeft(old(nodes), key, id) && contigs == old(contigs)
    {
      if key.Some? {
        var n := key.value;
        if n in nodes {
          nodes := nodes[n := nodes[n].(readEnd := nodes[n].readEnd + {id})];
        }
        var o := OtherEnd(n);
        if o in nodes {
          nodes := nodes[o := nodes[o].(readStart := nodes[o].readStart + {id})];
        }
      }
    }

    /** `node.readStart.add(id)` and `node.otherEnd().readEnd.add(id)` at the right hit. */
    method TagRight(key: Option<NodeKey>, id: int)
      modifies this
      ensures nodes == Threading.TagRight(old(nodes), key, id) && contigs == old(contigs)
    {
      if key.Some? {
        var n := key.value;
        if n in nodes {
          nodes := nodes[n := nodes[n].(readStart := nodes[n].readStart + {id})];
        }
        var o := OtherEnd(n);
        if o in nodes {
          nodes := nodes[o := nodes[o].(readEnd := nodes[o].readEnd + {id})];
        }
      }
    }

    /** `loadReadEndsOnGraph` (lines 65-88) over the reads of the file, in order. It
        changes only node tag sets, so a graph ready for contraction stays ready. */
    method LoadReadEnds(input: seq<Threading.Read>)
      requires k > 0
      modifies this
      ensures nodes == Threading.TagReads(old(nodes), k, input) && contigs == old(contigs)
      ensures Threading.SameEdges(old(nodes), nodes)
    {
      var i := 0;
      while i < |input|
        invariant 0 <= i <= |input| && contigs == old(contigs)
        invariant Threading.TagReads(nodes, k, input[i..]) == Threading.TagReads(old(nodes), k, input)
      {
        var r := input[i];
        ghost var g := nodes;
        var left := LeftHit(r.bases);
        TagLeft(left, r.id);
        var right := RightHit(r.bases);
        TagRight(right, r.id);
        assert nodes == Threading.TagRead(g, k, r);
        assert input[i..][1..] == input[i + 1..];
        i := i + 1;
      }
      Threading.TagReadsSameEdges(old(nodes), k, input);
    }

    /** `node.edges.find { it.seq[0] == c }?.readSet?.add(id)` on node key. */
    method AddHop(key: NodeKey, c: Option<char>, id: int)
      modifies this
      ensures nodes == Threading.AddHop(old(nodes), key, c, id) && contigs == old(contigs)
    {
      if key in nodes {
        var found := Threading.FindEdge(nodes[key].edges, c, 0);
        if found.Some? {
          var j := found.value;
          var e := nodes[key].edges[j];
          nodes := nodes[key := nodes[key].(edges := nodes[key].edges[j := e.(readSet := e.readSet + {id})])];
        }
      }
    }

    /** One window, the one ending at i (lines 128-138). */
    method HopWindow(id: int, s: string, i: nat)
      requires 0 < k <= i <= |s|
      modifies this
      ensures nodes == Threading.HopAt(old(nodes), id, Threading.WindowEndingAt(s, k, i)) && contigs == old(contigs)
    {
      var key := Graph.WindowKey(s[i - k..i]);
      if key in nodes {
        if k < i {
          AddHop(key, Dna.ComplementOf(s[i - k - 1]), id);
        }
        ghost var g1 := nodes;
        assert g1 == Threading.AddHopIf(old(nodes), k < i, key, Threading.Before(s, k, i), id);
        if i < |s| {
          AddHop(OtherEnd(key), Some(s[i]), id);
        }
      }
    }

    /** The windows of one read (lines 127-139). */
    method HopRead(id: int, s: string)
      requires k > 0
      modifies this
      ensures nodes == Threading.Hops(old(nodes), k, id, s) && contigs == old(contigs)
    {
      ghost var ws := Threading.Windows(k, s);
      var i := k;
      while i <= |s|
        invariant k <= i && (i <= |s| + 1 || i == k) && i - k <= |ws| && contigs == old(contigs)
        invariant nodes == Threading.HopTo(old(nodes), id, ws, i - k)
        decreases |s| + 1 - i
      {
        HopWindow(id, s, i);
        Threading.WindowsAt(k, s, i);
        Threading.HopToNext(old(nodes), nodes, id, ws, i - k, Threading.WindowEndingAt(s, k, i));
        i := i + 1;
      }
    }

    /** `loadReadHopsOnGraph` (lines 121-141) over the reads of the file, in order. It
        changes only the edges' read-pass sets. */
    method LoadReadHops(input: seq<Threading.Read>)
      requires k > 0
      modifies this
      ensures nodes == Threading.HopReads(old(nodes), k, input) && contigs == old(contigs)
      ensures Threading.SameShape(old(nodes), nodes)
    {
      var i := 0;
      while i < |input|
        invariant 0 <= i <= |input| && contigs == old(contigs)
        invariant Threading.HopReads(nodes, k, input[i..]) == Threading.HopReads(old(nodes), k, input)
      {
        HopRead(input[i].id, input[i].bases);
        assert input[i..][1..] == input[i + 1..];
        i := i + 1;
      }
      Threading.HopReadsSameShape(old(nodes), k, input);
    }

    /** The first loop of `pathContraction` (lines 107-114): every node that is not interior
        gets each of its edges replaced by the compacted chain it starts. The node order of
        the map's iteration is left open; the result does not depend on it. */
    method CompactAll()
      requires WellFormed(k, nodes)
      modifies this
      ensures nodes == Contraction.Compacted(old(nodes)) && contigs == old(contigs)
    {
      ghost var g0 := nodes;
      var todo := nodes.Keys;
      PartlyStart(g0);
      while todo != {}
        invariant todo <= g0.Keys && nodes == Partly(g0, todo) && contigs == old(contigs)
        decreases |todo|
      {
        if forall y :: y !in todo { assert false; }
        var key :| key in todo;
        assert nodes[key] == g0[key] && |nodes[OtherEnd(key)].edges| == |g0[OtherEnd(key)].edges|;
        if |nodes[key].edges| != 1 || |nodes[OtherEnd(key)].edges| != 1 {
          assert Dna.IsCanonicalKmer(k, key.kmer);
          CompactNode(key, g0, todo);
        } else {
          PartlySkip(g0, todo, key);
        }
        todo := todo - {key};
      }
      PartlyEnd(g0);
    }

    /** The inner loop (lines 109-113) for one node that is not interior. */
    method CompactNode(key: NodeKey, ghost g0: Nodes, ghost todo: set<NodeKey>)
      requires key in todo && todo <= g0.Keys && nodes == Partly(g0, todo)
      requires !Contraction.Interior(g0, key) && |key.kmer| > 0
      modifies this
      ensures nodes == Partly(g0, todo - {key}) && contigs == old(contigs)
    {
      var n := |nodes[key].edges|;
      ghost var es := g0[key].edges;
      var i := 0;
      CompactNodeStart(g0, todo, key);
      while i < n
        invariant 0 <= i <= n == |es| && contigs == old(contigs)
        invariant nodes == Partly(g0, todo)[key := g0[key].(edges := Contraction.CompactEdges(g0, key, es[..i]) + es[i..])]
      {
        PartlyAgree(g0, todo, key, Contraction.CompactEdges(g0, key, es[..i]) + es[i..]);
        var e := nodes[key].edges[i];
        var ne := CompactEdgeAt(nodes, key, e);
        Contraction.AgreeCompactEdge(g0, nodes, key, e);
        ghost var h := nodes;
        nodes := nodes[key := nodes[key].(edges := nodes[key].edges[i := ne])];
        CompactNodeStep(g0, Partly(g0, todo), key, es, i, h, ne, nodes);
        i := i + 1;
      }
      CompactNodeDone(g0, todo, key);
    }

    /** The second loop of `pathContraction` (lines 115-119): over the end-0 keys, drop both
        ends of every k-mer whose two ends have one edge each. */
    method PruneChains()
      requires WellFormed(k, nodes)
      modifies this
      ensures nodes == Contraction.Prune(old(nodes)) && contigs == old(contigs)
    {
      ghost var h := nodes;
      var ends0 := set key | key in nodes && key.end == 0;
      ghost var all := ends0;
      ghost var done: set<NodeKey> := {};
      PrunedStart(h);
      while ends0 != {}
        invariant ends0 <= all && done == all - ends0
        invariant nodes == PrunedSome(h, done) && contigs == old(contigs)
        decreases |ends0|
      {
        if forall y :: y !in ends0 { assert false; }
        var key :| key in ends0;
        PruneKmer(key, h, done);
        ends0 := ends0 - {key};
        done := done + {key};
      }
      PrunedEnd(k, h, done);
    }

    /** One pass of the removal loop, for the end-0 key of one k-mer. */
    method PruneKmer(key: NodeKey, ghost h: Nodes, ghost done: set<NodeKey>)
      requires WellFormed(k, h) && key in h && key.end == 0 && key !in done
      requires nodes == PrunedSome(h, done)
      modifies this
      ensures nodes == PrunedSome(h, done + {key}) && contigs == old(contigs)
    {
      var kmer := key.kmer;
      PrunedAt(k, h, done, key);
      var interior := |nodes[NodeKey(kmer, 0)].edges| == 1 && |nodes[NodeKey(kmer, 1)].edges| == 1;
      if interior {
        nodes := nodes - {NodeKey(kmer, 0)};
        nodes := nodes - {NodeKey(kmer, 1)};
      }
      PrunedStep(k, h, done, key, interior, nodes, done + {key});
    }

    /** `pathContraction`: the graph after both loops is the contracted graph. */
    method PathContraction()
      requires WellFormed(k, nodes)
      modifies this
      ensures nodes == Contraction.Contracted(old(nodes)) && contigs == old(contigs)
    {
      CompactedWellFormed(k, nodes);
      CompactAll();
      PruneChains();
    }

    /** `dfs` (lines 145-168) from node start, sharing the `visit` map: it drains the
        read-pass sets of the edges it takes, and returns the bases it appended and the new
        `visit` map; None where a `!!` fails. */
    method Dfs(visit: map<string, int>, start: NodeKey) returns (r: Option<(string, map<string, int>)>)
      modifies this
      ensures contigs == old(contigs)
      ensures var t := Traversal.Traverse(Traversal.Walker(old(nodes), visit, start, "", {}, 0));
        t.None? <==> r.None?
      ensures var t := Traversal.Traverse(Traversal.Walker(old(nodes), visit, start, "", {}, 0));
        t.Some? ==> r == Some((t.value.sb, t.value.visit)) && nodes == t.value.g
    {
      ghost var w0 := Traversal.Walker(nodes, visit, start, "", {}, 0);
      var vis := visit;
      var at := start;
      var sb: string := "";
      var readSet: set<int> := {};
      var readCnt: nat := 0;
      while true
        invariant Traversal.Traverse(Traversal.Walker(nodes, vis, at, sb, readSet, readCnt)) == Traversal.Traverse(w0)
        invariant contigs == old(contigs)
        decreases Traversal.Measure(Traversal.Walker(nodes, vis, at, sb, readSet, readCnt))
      {
        ghost var w := Traversal.Walker(nodes, vis, at, sb, readSet, readCnt);
        if Traversal.VisitOf(vis, at.kmer) == readCnt {
          WalkHalts(w);
          return Some((sb, vis));
        }
        vis := vis[at.kmer := readCnt];
        if at !in nodes {
          WalkCrashes(w);
          return None;
        }
        var node := nodes[at];
        if |node.edges| == 0 {
          WalkHalts(w);
          return Some((sb, vis));
        }
        if |at.kmer| == 0 {
          WalkCrashes(w);
          return None;
        }
        readSet := readSet + node.readStart - node.readEnd;
        ghost var rs := readSet;
        var b := Traversal.BestBranch(readSet, node.edges);
        var e := node.edges[b];
        if e.readSet * readSet != {} {
          readCnt := readCnt + 1;
        }
        nodes := nodes[at := node.(edges := node.edges[b := e.(readSet := e.readSet - readSet)])];
        readSet := readSet + e.readStart - e.readEnd;
        sb := sb + (if at.end == 1 then e.bases else Dna.Reverse(e.bases));
        at := Graph.Dest(at, e.bases);
        ghost var t := Traversal.Walker(nodes, vis, at, sb, readSet, readCnt);
        TurnIs(w, rs, b, e, t);
        WalkMove(w, t);
      }
    }

    /** The leaf collection of `getContigByTraverse` (lines 170-174), over the node map in
        `order`: every dead end with the longest edge length of its other end; None when
        that other end is missing. */
    method CollectLeaves(order: seq<NodeKey>) returns (r: Option<seq<Traversal.Leaf>>)
      requires forall i :: 0 <= i < |order| ==> order[i] in nodes
      ensures r == Traversal.LeavesOf(nodes, order)
    {
      var leafs: seq<Traversal.Leaf> := [];
      var i := 0;
      assert order[..0] == [];
      while i < |order|
        invariant 0 <= i <= |order|
        invariant Traversal.LeavesOf(nodes, order[..i]) == Some(leafs)
      {
        var key := order[i];
        var node := nodes[key];
        ghost var was := leafs;
        if |node.edges| == 0 {
          if OtherEnd(key) !in nodes {
            LeavesFail(nodes, order, i);
            return None;
          }
          leafs := leafs + [Traversal.Leaf(key, Traversal.MaxLen(nodes[OtherEnd(key)].edges))];
        }
        LeavesStep(nodes, order, i, was, leafs);
        i := i + 1;
      }
      assert order[..|order|] == order;
      return Some(leafs);
    }

    /** The contig loop (lines 176-180) over the sorted leaves, from an empty `visit` map:
        a leaf whose k-mer some walk has entered is skipped, any other one adds the contig
        of the walk from its other end. The result says whether every `!!` held. */
    method AddContigs(sorted: seq<Traversal.Leaf>) returns (ok: bool)
      modifies this
      ensures var r := Traversal.Assemble(Traversal.Assembly(old(nodes), map[], old(contigs)), sorted);
        (ok <==> r.Some?) && (ok ==> nodes == r.value.g && contigs == r.value.contigs)
    {
      var visit: map<string, int> := map[];
      ghost var a0 := Traversal.Assembly(nodes, visit, contigs);
      var j := 0;
      while j < |sorted|
        invariant 0 <= j <= |sorted|
        invariant Traversal.Assemble(Traversal.Assembly(nodes, visit, contigs), sorted[j..]) == Traversal.Assemble(a0, sorted)
      {
        var l := sorted[j];
        ghost var a := Traversal.Assembly(nodes, visit, contigs);
        if l.key.kmer !in visit {
          var r := Dfs(visit, OtherEnd(l.key));
          if r.None? {
            AssembleFail(a, sorted, j);
            return false;
          }
          var head := if l.key.end == 1 then Dna.RevCompl(l.key.kmer) else l.key.kmer;
          LeafHead(l.key);
          contigs := contigs + [head + r.value.0];
          visit := r.value.1;
        }
        AssembleStep(a, sorted, j, Traversal.Assembly(nodes, visit, contigs));
        j := j + 1;
      }
      return true;
    }

    /** `getContigByTraverse` (lines 143-182) with the node map iterated in `order`: the
        leaves, sorted heaviest first (stably), then the contig loop. The result says
        whether every `!!` held. */
    method GetContigByTraverse(order: seq<NodeKey>) returns (ok: bool)
      requires forall i :: 0 <= i < |order| ==> order[i] in nodes
      modifies this
      ensures var r := Traversal.ContigsOf(old(nodes), order, old(contigs));
        (ok <==> r.Some?) && (ok ==> nodes == r.value.g && contigs == r.value.contigs)
    {
      var leafs := CollectLeaves(order);
      if leafs.None? {
        return false;
      }
      var sorted := Traversal.SortLeaves(leafs.value);
      ok := AddContigs(sorted);
    }

    /** `writeContigsToFasta` (lines 183-190): the text written for the contigs longer than
        the limit. The file is the caller's; the count it prints is `Fasta.CountLonger`. */
    method WriteContigsToFasta(limit: int) returns (text: string)
      ensures text == Fasta.FastaText(contigs, limit)
    {
      var kept := Fasta.Kept(contigs, limit);
      text := "";
      var counter := 0;
      while counter < |kept|
        invariant 0 <= counter <= |kept|
        invariant text + Fasta.Records(kept[counter..], counter) == Fasta.Records(kept, 0)
      {
        RecordsStep(kept, counter);
        ghost var rest := Fasta.Records(kept[counter + 1..], counter + 1);
        var r := Fasta.Record(counter, kept[counter]);
        assert (text + r) + rest == text + (r + rest);
        text := text + r;
        counter := counter + 1;
      }
      assert kept[counter..] == [];
      assert text + "" == text;
    }

    /** The iteration order of the `nodes` map: some enumeration of its keys, each once. */
    method KeyOrder() returns (order: seq<NodeKey>)
      ensures forall i :: 0 <= i < |order| ==> order[i] in nodes
      ensures forall key | key in nodes :: key in order
      ensures |order| == |nodes|
    {
      var rest := nodes.Keys;
      order := [];
      while rest != {}
        invariant rest <= nodes.Keys && |order| + |rest| == |nodes|
        invariant forall i :: 0 <= i < |order| ==> order[i] in nodes && order[i] !in rest
        invariant forall key | key in nodes :: key in order || key in rest
        decreases |rest|
      {
        if forall y :: y !in rest { assert false; }
        var key :| key in rest;
        order := order + [key];
        rest := rest - {key};
      }
    }

    /** `run` (lines 191-198) on a fresh assembler, with the k-mer file given as its codes
        (each a canonical code of length k, listed in `order`) and the read file as `input`.
        With an odd K of at most 32 no `!!` fails: the result is true, the text is the
        FASTA text of the contigs, and every contig starts from a dead end of the graph
        the traversal ran on. */
    method Run(kmers: set<nat>, order: seq<nat>, input: seq<Threading.Read>, limit: int) returns (ok: bool, text: string)
      requires nodes == map[] && Codec.ValidK(k) && k % 2 == 1 && Build.CanonicalCodes(k, kmers)
      requires forall i :: 0 <= i < |order| ==> order[i] in kmers
      requires forall c | c in kmers :: c in order
      modifies this
      ensures ok && text == Fasta.FastaText(contigs, limit) && old(contigs) <= contigs
      ensures forall j :: |old(contigs)| <= j < |contigs| ==> Traversal.FromDeadEnd(Threaded(k, kmers, order, input), contigs[j])
    {
      ThreadedClosed(k, kmers, order, input);
      Prepare(kmers, order, input);
      var keys := KeyOrder();
      Traversal.ContigsNoCrash(nodes, keys, contigs);
      ok := GetContigByTraverse(keys);
      text := WriteContigsToFasta(limit);
    }

    /** The four graph phases of `run`. */
    method Prepare(kmers: set<nat>, order: seq<nat>, input: seq<Threading.Read>)
      requires nodes == map[] && Codec.ValidK(k) && k % 2 == 1 && Build.CanonicalCodes(k, kmers)
      requires forall i :: 0 <= i < |order| ==> order[i] in kmers
      requires forall c | c in kmers :: c in order
      modifies this
      ensures nodes == Threaded(k, kmers, order, input) && contigs == old(contigs)
    {
      ghost var g0 := Build.BuildEdges(k, kmers, Build.InitNodes(k, kmers), order);
      assert map[] + Build.InitNodes(k, kmers) == Build.InitNodes(k, kmers);
      Build.EdgesFoundOdd(k, kmers, order);
      Build.InitKeys(k, kmers);
      var built := ConstructGraph(kmers, order);
      assert built;
      assert nodes == g0;
      LoadReadEnds(input);
      ghost var g1 := nodes;
      assert g1 == Threading.TagReads(g0, k, input);
      TaggedWellFormed(k, kmers, order, input);
      PathContraction();
      assert nodes == Contraction.Contracted(g1);
      LoadReadHops(input);
    }
  }
}
