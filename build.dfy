/** Graph construction of Assembler.kt (`constructGraphFromKmerSet`, lines 34-61) as
    specification functions over any processing order of the k-mer map, and the invariants
    every such order establishes. */
module Build {
  import opened Wrappers
  import opened Dna
  import opened Codec
  import opened Graph

  /** The bases tried on each side, in the order of the source loop. */
  const Bases: string := "ATCG"

  /** The node string of a code: `UtilString.canonical(Util.decode(code)).first`. */
  function NodeKmer(k: nat, code: nat): (r: string)
    requires k > 0
    ensures |r| == k && IsDna(r)
  {
    DecodeAt(k, code);
    CanonicalDna(Decode(k, code));
    Dna.Canonical(Decode(k, code)).0
  }

  /** The k-mer map is keyed by canonical codes (`kmers[Util.canonical(kmer)]`, line 31). */
  ghost predicate CanonicalCodes(k: nat, kmers: set<nat>) {
    forall c | c in kmers :: c < Pow4(k) && Codec.Canonical(k, c).0 == c
  }

  /** Both ends of every input k-mer. */
  function NodeKeys(k: nat, kmers: set<nat>): set<NodeKey>
    requires k > 0
  {
    (set c | c in kmers :: NodeKey(NodeKmer(k, c), 0)) + (set c | c in kmers :: NodeKey(NodeKmer(k, c), 1))
  }

  function EmptyNode(key: NodeKey): Node {
    Node(key.kmer, key.end, {}, {}, [])
  }

  /** The map after the first loop (lines 34-38). */
  function InitNodes(k: nat, kmers: set<nat>): Nodes
    requires k > 0
  {
    map key | key in NodeKeys(k, kmers) :: EmptyNode(key)
  }

  /** The first loop creates exactly the nodes of NodeKeys. */
  lemma InitKeys(k: nat, kmers: set<nat>)
    requires k > 0
    ensures (map[] + InitNodes(k, kmers)).Keys == NodeKeys(k, kmers)
  {
    assert map[] + InitNodes(k, kmers) == InitNodes(k, kmers);
  }

  /** `nodes[key]!!.edges.add(e)`. */
  function AddEdge(g: Nodes, key: NodeKey, e: Edge): (r: Nodes)
    ensures r.Keys == g.Keys
  {
    if key in g then g[key := g[key].(edges := g[key].edges + [e])] else g
  }

  /** Two edges added at once, one on each node of a pair. */
  function AddPair(g: Nodes, n1: NodeKey, e1: Edge, n2: NodeKey, e2: Edge): (r: Nodes)
    ensures r.Keys == g.Keys
  {
    AddEdge(AddEdge(g, n1, e1), n2, e2)
  }

  /** A fresh one-base edge with empty support sets. */
  function NewEdge(ch: char): Edge {
    Edge({}, {}, {}, [ch])
  }

  /** Lines 44, 46-52: the neighbour c + prefix, joined when its canonical code is in the map
      and below the current code. */
  function AddPrefixPair(k: nat, kmers: set<nat>, g: Nodes, code: nat, x: string, c: char): (r: Nodes)
    requires |x| == k > 0 && IsDna(x) && IsBase(c)
    ensures r.Keys == g.Keys
  {
    var w := [c] + x[..k - 1];
    var (cp, cpr) := Dna.Canonical(w);
    var n := CanonicalOfString(k, cp).0;
    if n in kmers && Signed(n) < Signed(code) then
      AddPair(g, NodeKey(x, 0), NewEdge(Comp(c)), NodeKey(cp, Xor1(cpr)), NewEdge(x[k - 1]))
    else g
  }

  /** Lines 45, 53-59: the neighbour suffix + c. */
  function AddSuffixPair(k: nat, kmers: set<nat>, g: Nodes, code: nat, x: string, c: char): (r: Nodes)
    requires |x| == k > 0 && IsDna(x) && IsBase(c)
    ensures r.Keys == g.Keys
  {
    var v := x[1..] + [c];
    var (sc, scr) := Dna.Canonical(v);
    var n := CanonicalOfString(k, sc).0;
    if n in kmers && Signed(n) < Signed(code) then
      AddPair(g, NodeKey(x, 1), NewEdge(c), NodeKey(sc, scr), NewEdge(Comp(x[0])))
    else g
  }

  /** One round of `for (c in "ATCG")` for one code: the prefix pair, then the suffix pair. */
  function Round(k: nat, kmers: set<nat>, g: Nodes, code: nat, c: char): (r: Nodes)
    requires k > 0 && IsBase(c)
    ensures r.Keys == g.Keys
  {
    var x := NodeKmer(k, code);
    AddSuffixPair(k, kmers, AddPrefixPair(k, kmers, g, code, x, c), code, x, c)
  }

  /** The first n rounds of `for (c in "ATCG")` for one code. */
  function KmerEdges(k: nat, kmers: set<nat>, g: Nodes, code: nat, n: nat): (r: Nodes)
    requires k > 0 && n <= |Bases|
    ensures r.Keys == g.Keys
  {
    if n == 0 then g
    else
      Round(k, kmers, KmerEdges(k, kmers, g, code, n - 1), code, Bases[n - 1])
  }

  /** The second loop (lines 39-61) over the codes in the given order. */
  function BuildEdges(k: nat, kmers: set<nat>, g: Nodes, order: seq<nat>): (r: Nodes)
    requires k > 0
    ensures r.Keys == g.Keys
  {
    if order == [] then g
    else KmerEdges(k, kmers, BuildEdges(k, kmers, g, order[..|order| - 1]), order[|order| - 1], |Bases|)
  }

  /** The second loop over a non-empty order ends with the visit of its last code. */
  lemma BuildEdgesSnoc(k: nat, kmers: set<nat>, g: Nodes, order: seq<nat>)
    requires k > 0 && |order| > 0
    ensures BuildEdges(k, kmers, g, order)
      == KmerEdges(k, kmers, BuildEdges(k, kmers, g, order[..|order| - 1]), order[|order| - 1], |Bases|)
  {
  }

  // ---------------------------------------------------------------------------
  // The `!!` lookups of construction

  /** The two `nodes[...]!!` lookups of one pair: when the canonical code of the neighbour w
      is in the map and below code, the node own and the end of w's node that the pair
      reaches (the other end when flip) are among keys. */
  predicate PairFound(k: nat, kmers: set<nat>, keys: set<NodeKey>, code: nat, own: NodeKey, w: string, flip: bool)
    requires |w| > 0
  {
    var (cp, cpr) := Dna.Canonical(w);
    var n := CanonicalOfString(k, cp).0;
    n in kmers && Signed(n) < Signed(code) ==> own in keys && NodeKey(cp, if flip then Xor1(cpr) else cpr) in keys
  }

  /** The four lookups of round c for code (lines 50-51 and 57-58) find their nodes. */
  predicate RoundFound(k: nat, kmers: set<nat>, keys: set<NodeKey>, code: nat, c: char)
    requires k > 0
  {
    var x := NodeKmer(k, code);
    PairFound(k, kmers, keys, code, NodeKey(x, 0), [c] + x[..k - 1], true)
    && PairFound(k, kmers, keys, code, NodeKey(x, 1), x[1..] + [c], false)
  }

  /** Every lookup of the first n rounds of the loop over "ATCG" for code finds its node. */
  predicate RoundsFound(k: nat, kmers: set<nat>, keys: set<NodeKey>, code: nat, n: nat)
    requires k > 0 && n <= |Bases|
  {
    n == 0 || (RoundsFound(k, kmers, keys, code, n - 1) && RoundFound(k, kmers, keys, code, Bases[n - 1]))
  }

  /** Every lookup of the loop over "ATCG" for code finds its node. */
  predicate KmerFound(k: nat, kmers: set<nat>, keys: set<NodeKey>, code: nat)
    requires k > 0
  {
    RoundsFound(k, kmers, keys, code, |Bases|)
  }

  /** Where the lookups of n rounds succeed, so do those of fewer. */
  lemma {:induction false} RoundsFoundPrefix(k: nat, kmers: set<nat>, keys: set<NodeKey>, code: nat, m: nat, n: nat)
    requires k > 0 && n <= m <= |Bases| && RoundsFound(k, kmers, keys, code, m)
    ensures RoundsFound(k, kmers, keys, code, n)
    decreases m
  {
    if n < m {
      RoundsFoundPrefix(k, kmers, keys, code, m - 1, n);
    }
  }

  /** Every lookup of the second loop, over the codes in the given order, finds its node. */
  predicate EdgesFound(k: nat, kmers: set<nat>, keys: set<NodeKey>, order: seq<nat>)
    requires k > 0
  {
    order == [] || (EdgesFound(k, kmers, keys, order[..|order| - 1]) && KmerFound(k, kmers, keys, order[|order| - 1]))
  }

  /** Where the lookups of an order succeed, so do those of each of its prefixes. */
  lemma EdgesFoundPrefix(k: nat, kmers: set<nat>, keys: set<NodeKey>, order: seq<nat>, j: nat)
    requires k > 0 && j <= |order| && EdgesFound(k, kmers, keys, order)
    ensures EdgesFound(k, kmers, keys, order[..j])
  {
    var m := |order|;
    assert order[..m] == order;
    while m > j
      invariant j <= m <= |order| && EdgesFound(k, kmers, keys, order[..m])
    {
      EdgesFoundStep(k, kmers, keys, order, m - 1);
      m := m - 1;
    }
  }

  /** The lookups of one more code extend those of a prefix of the order. */
  lemma EdgesFoundStep(k: nat, kmers: set<nat>, keys: set<NodeKey>, order: seq<nat>, i: nat)
    requires k > 0 && i < |order|
    ensures EdgesFound(k, kmers, keys, order[..i + 1])
      == (EdgesFound(k, kmers, keys, order[..i]) && KmerFound(k, kmers, keys, order[i]))
  {
    var o := order[..i + 1];
    assert o[..|o| - 1] == order[..i];
  }

  /** Adding the lookups of code order[i]: ok, their outcome, is the outcome of the first
      i + 1 codes, and where it fails, the whole order fails. */
  lemma EdgesFoundNext(k: nat, kmers: set<nat>, keys: set<NodeKey>, order: seq<nat>, i: nat, ok: bool)
    requires k > 0 && i < |order| && EdgesFound(k, kmers, keys, order[..i])
    requires ok == KmerFound(k, kmers, keys, order[i])
    ensures ok == EdgesFound(k, kmers, keys, order[..i + 1])
    ensures !ok ==> !EdgesFound(k, kmers, keys, order)
  {
    EdgesFoundStep(k, kmers, keys, order, i);
    if !ok && EdgesFound(k, kmers, keys, order) {
      EdgesFoundPrefix(k, kmers, keys, order, i + 1);
    }
  }

  /** At odd K no lookup of construction fails: every neighbour whose code is in the map
      has both its ends among the nodes of the first loop. */
  lemma {:induction false} EdgesFoundOdd(k: nat, kmers: set<nat>, order: seq<nat>)
    requires ValidK(k) && k % 2 == 1 && CanonicalCodes(k, kmers)
    requires forall i :: 0 <= i < |order| ==> order[i] in kmers
    ensures EdgesFound(k, kmers, NodeKeys(k, kmers), order)
  {
    if order != [] {
      EdgesFoundOdd(k, kmers, order[..|order| - 1]);
      RoundsFoundOdd(k, kmers, order[|order| - 1], |Bases|);
    }
  }

  /** At odd K the first n rounds for a code of the map find all their nodes. */
  lemma {:induction false} RoundsFoundOdd(k: nat, kmers: set<nat>, code: nat, n: nat)
    requires ValidK(k) && k % 2 == 1 && code in kmers && n <= |Bases|
    ensures RoundsFound(k, kmers, NodeKeys(k, kmers), code, n)
  {
    if n > 0 {
      RoundsFoundOdd(k, kmers, code, n - 1);
      RoundFoundOdd(k, kmers, code, Bases[n - 1]);
    }
  }

  /** One round of the loop at odd K finds all its nodes. */
  lemma RoundFoundOdd(k: nat, kmers: set<nat>, code: nat, c: char)
    requires ValidK(k) && k % 2 == 1 && code in kmers && IsBase(c)
    ensures RoundFound(k, kmers, NodeKeys(k, kmers), code, c)
  {
    var x := NodeKmer(k, code);
    var w, v := [c] + x[..k - 1], x[1..] + [c];
    NeighbourDna(x, c);
    assert NodeKey(x, 0) in NodeKeys(k, kmers);
    PairFoundOdd(k, kmers, code, NodeKey(x, 0), w, true);
    assert NodeKey(x, 1) in NodeKeys(k, kmers);
    PairFoundOdd(k, kmers, code, NodeKey(x, 1), v, false);
  }

  /** Both neighbour strings of a DNA k-mer are DNA k-mers. */
  lemma NeighbourDna(x: string, c: char)
    requires |x| > 0 && IsDna(x) && IsBase(c)
    ensures var w, v := [c] + x[..|x| - 1], x[1..] + [c];
      |w| == |v| == |x| && IsDna(w) && IsDna(v)
  {
    SliceDna(x, 0, |x| - 1);
    SliceDna(x, 1, |x|);
    ConsDna(c, x[..|x| - 1]);
    ConsDna(c, x[1..]);
  }

  /** At odd K the canonical form of a k-long neighbour string whose code is in the map
      names a node of the first loop, on either end. */
  lemma PairFoundOdd(k: nat, kmers: set<nat>, code: nat, own: NodeKey, w: string, flip: bool)
    requires ValidK(k) && k % 2 == 1 && |w| == k && IsDna(w) && own in NodeKeys(k, kmers)
    ensures PairFound(k, kmers, NodeKeys(k, kmers), code, own, w, flip)
  {
    CanonicalStrandSymmetric(w);
    var cp := Dna.Canonical(w).0;
    if CanonicalOfString(k, cp).0 in kmers {
      NodePresent(k, kmers, InitNodes(k, kmers), cp);
    }
  }

  /** A string no code of the map has as its node string names no node. */
  lemma NotNodeKey(k: nat, kmers: set<nat>, key: NodeKey)
    requires k > 0 && forall c | c in kmers :: NodeKmer(k, c) != key.kmer
    ensures key !in NodeKeys(k, kmers)
  {
  }

  /** At even K a lookup can fail. With K = 2 and the codes 3 ("AG") and 13 ("GC"), the
      node string of 3 is "CT", so the node ("AG", 1) is never created; the round 'T' of
      code 13 still reaches for it, since "C" + 'T' has the canonical form ("AG", 1) and
      3 < 13. */
  lemma EvenKFails()
    ensures CanonicalCodes(2, {3, 13})
    ensures !KmerFound(2, {3, 13}, NodeKeys(2, {3, 13}), 13)
  {
    EvenKCodes();
    EvenKInput();
    EvenKNeighbour();
    SuffixLookupFails(2, {3, 13}, NodeKeys(2, {3, 13}), 13, Bases[1], "AG", 1);
  }

  /** The neighbour of "GC" by 'T' has the canonical form ("AG", 1), which is no node. */
  lemma EvenKNeighbour()
    requires NodeKmer(2, 3) == "CT" && NodeKmer(2, 13) == "GC"
    ensures NodeKmer(2, 13)[1..] + [Bases[1]] == "CT"
    ensures Dna.Canonical("CT") == ("AG", 1)
    ensures NodeKey("AG", 1) !in NodeKeys(2, {3, 13})
  {
    assert "CT"[..1] == "C";
    assert RevCompl("C") == "G";
    assert RevCompl("CT") == "AG";
    forall c | c in {3, 13} ensures NodeKmer(2, c) != "AG" {
    }
    NotNodeKey(2, {3, 13}, NodeKey("AG", 1));
  }

  /** A round fails a lookup when the canonical form of suffix + c has its code in the map,
      below code, and its end is not a node. */
  lemma SuffixLookupFails(k: nat, kmers: set<nat>, keys: set<NodeKey>, code: nat, c: char, sc: string, scr: Bit)
    requires k > 0 && Dna.Canonical(NodeKmer(k, code)[1..] + [c]) == (sc, scr)
    requires CanonicalOfString(k, sc).0 in kmers && Signed(CanonicalOfString(k, sc).0) < Signed(code)
    requires NodeKey(sc, scr) !in keys
    ensures !RoundFound(k, kmers, keys, code, c)
  {
  }

  /** The input of the counterexample: both codes are canonical. */
  lemma EvenKCodes()
    ensures CanonicalCodes(2, {3, 13})
  {
    assert Codec.Reverse(2, 3) == 6 && Codec.Reverse(2, 13) == 13;
  }

  /** The node strings of the two codes, and the code of "AG". */
  lemma EvenKInput()
    ensures NodeKmer(2, 3) == "CT" && NodeKmer(2, 13) == "GC" && CanonicalOfString(2, "AG").0 == 3
  {
    assert Decode(2, 3) == "AG" && Decode(2, 13) == "GC";
    assert Encode("AG") == 3 && Codec.Reverse(2, 3) == 6;
  }

  // ---------------------------------------------------------------------------
  // Invariants of construction

  /** Every edge is one base with empty support sets. */
  ghost predicate UnitEdges(g: Nodes) {
    forall key, i | key in g && 0 <= i < |g[key].edges| ::
      |g[key].edges[i].bases| == 1 && g[key].edges[i].readStart == {}
      && g[key].edges[i].readSet == {} && g[key].edges[i].readEnd == {}
  }

  /** No edge joins a k-mer to itself. */
  ghost predicate NoSelfLoops(g: Nodes) {
    forall key, i | key in g && 0 <= i < |g[key].edges| && |key.kmer| > 0 ::
      Dest(key, g[key].edges[i].bases).kmer != key.kmer
  }

  /** No node carries read-end tags. */
  ghost predicate Untagged(g: Nodes) {
    forall key | key in g :: g[key].readStart == {} && g[key].readEnd == {}
  }

  /** What construction guarantees of its graph. */
  ghost predicate Inv(k: nat, kmers: set<nat>, g: Nodes)
    requires k > 0
  {
    g.Keys == NodeKeys(k, kmers) && WellFormed(k, g) && EdgesClosed(g) && Mirror(g)
    && UnitEdges(g) && NoSelfLoops(g) && Untagged(g)
  }

  /** h has the keys of g and only appends edges to its nodes. */
  ghost predicate Grows(g: Nodes, h: Nodes) {
    h.Keys == g.Keys
    && forall key | key in g ::
      h[key] == g[key].(edges := h[key].edges)
      && |g[key].edges| <= |h[key].edges| && h[key].edges[..|g[key].edges|] == g[key].edges
  }

  /** The nodes of `AddPair`: the two named nodes gain one edge each, the rest is kept. */
  lemma AddPairNodes(g: Nodes, n1: NodeKey, e1: Edge, n2: NodeKey, e2: Edge)
    requires n1 in g && n2 in g && n1 != n2
    ensures var h := AddPair(g, n1, e1, n2, e2);
      h.Keys == g.Keys
      && h[n1] == g[n1].(edges := g[n1].edges + [e1]) && h[n2] == g[n2].(edges := g[n2].edges + [e2])
      && forall key | key in g && key != n1 && key != n2 :: h[key] == g[key]
  {
  }

  lemma AddPairGrows(g: Nodes, n1: NodeKey, e1: Edge, n2: NodeKey, e2: Edge)
    requires n1 in g && n2 in g && n1 != n2
    ensures Grows(g, AddPair(g, n1, e1, n2, e2))
  {
    var h := AddPair(g, n1, e1, n2, e2);
    AddPairNodes(g, n1, e1, n2, e2);
    assert h[n1].edges[..|g[n1].edges|] == g[n1].edges;
    assert h[n2].edges[..|g[n2].edges|] == g[n2].edges;
  }

  /** Where edge i of a node of `AddPair` comes from. */
  lemma AddPairEdge(g: Nodes, n1: NodeKey, e1: Edge, n2: NodeKey, e2: Edge, key: NodeKey, i: int)
    requires n1 in g && n2 in g && n1 != n2
    requires key in g && 0 <= i < |AddPair(g, n1, e1, n2, e2)[key].edges|
    ensures var e := AddPair(g, n1, e1, n2, e2)[key].edges[i];
      (i < |g[key].edges| && e == g[key].edges[i]) || (key == n1 && e == e1) || (key == n2 && e == e2)
  {
    AddPairNodes(g, n1, e1, n2, e2);
  }

  lemma HasEdgeToGrows(g: Nodes, h: Nodes, a: NodeKey, b: NodeKey)
    requires Grows(g, h) && HasEdgeTo(g, a, b)
    ensures HasEdgeTo(h, a, b)
  {
    var j :| 0 <= j < |g[a].edges| && Dest(a, g[a].edges[j].bases) == b;
    assert h[a].edges[..|g[a].edges|][j] == h[a].edges[j];
  }

  /** Canonical codes and node strings correspond one to one. */
  lemma CodeOfNodeKmer(k: nat, code: nat)
    requires ValidK(k) && code < Pow4(k) && Codec.Canonical(k, code).0 == code
    ensures CanonicalOfString(k, NodeKmer(k, code)).0 == code
  {
    var s := Decode(k, code);
    DecodeAt(k, code);
    EncodeDecode(k, code);
    ReverseEncode(s);
    CanonicalSymmetric(k, code);
  }

  lemma NodeKmerOfCode(k: nat, y: string)
    requires ValidK(k) && k % 2 == 1 && IsCanonicalKmer(k, y)
    ensures var n := CanonicalOfString(k, y).0;
      n < Pow4(k) && Codec.Canonical(k, n).0 == n && NodeKmer(k, n) == y
  {
    var e := Encode(y);
    EncodeDigits(y);
    DecodeEncode(y);
    ReverseEncode(y);
    RevComplDna(y);
    DecodeEncode(RevCompl(y));
    CanonicalChoice(k, e);
    CanonicalSymmetric(k, e);
    ReverseInvolution(k, e);
    CanonicalOfCanonical(k, y);
    var n := Codec.Canonical(k, e).0;
    if n != e {
      CanonicalSymmetric(k, n);
    }
  }

  lemma InitInv(k: nat, kmers: set<nat>)
    requires ValidK(k) && k % 2 == 1
    ensures Inv(k, kmers, InitNodes(k, kmers))
  {
    var g := InitNodes(k, kmers);
    forall key | key in g ensures IsCanonicalKmer(k, key.kmer) && OtherEnd(key) in g {
      var c :| c in kmers && key.kmer == NodeKmer(k, c);
      DecodeAt(k, c);
      CanonicalStrandSymmetric(Decode(k, c));
    }
  }

  /** An old edge keeps its partner after `AddPair`. */
  lemma MirrorOldEdge(g: Nodes, h: Nodes, key: NodeKey, e: Edge)
    requires Mirror(g) && Grows(g, h) && key in g && |key.kmer| > 0 && e in g[key].edges
    ensures HasEdgeTo(h, OtherEnd(Dest(key, e.bases)), OtherEnd(key))
  {
    var i :| 0 <= i < |g[key].edges| && g[key].edges[i] == e;
    var t := OtherEnd(Dest(key, e.bases));
    assert HasEdgeTo(g, t, OtherEnd(key));
    HasEdgeToGrows(g, h, t, OtherEnd(key));
  }

  /** A node that gained edge e as its last edge has an edge to Dest(n, e). */
  lemma HasLastEdge(h: Nodes, n: NodeKey, e: Edge)
    requires n in h && |n.kmer| > 0 && |h[n].edges| > 0 && h[n].edges[|h[n].edges| - 1] == e
    ensures HasEdgeTo(h, n, Dest(n, e.bases))
  {
  }

  /** Each edge of `AddPair` has its mirrored partner. */
  lemma MirrorAddPairEdge(g: Nodes, n1: NodeKey, e1: Edge, n2: NodeKey, e2: Edge, key: NodeKey, i: int)
    requires Mirror(g) && n1 in g && n2 in g && n1 != n2 && |n1.kmer| > 0 && |n2.kmer| > 0
    requires Dest(n1, e1.bases) == OtherEnd(n2) && Dest(n2, e2.bases) == OtherEnd(n1)
    requires key in g && |key.kmer| > 0 && 0 <= i < |AddPair(g, n1, e1, n2, e2)[key].edges|
    ensures var h := AddPair(g, n1, e1, n2, e2);
      HasEdgeTo(h, OtherEnd(Dest(key, h[key].edges[i].bases)), OtherEnd(key))
  {
    var h := AddPair(g, n1, e1, n2, e2);
    AddPairNodes(g, n1, e1, n2, e2);
    AddPairEdge(g, n1, e1, n2, e2, key, i);
    var e := h[key].edges[i];
    if i < |g[key].edges| && e == g[key].edges[i] {
      AddPairGrows(g, n1, e1, n2, e2);
      MirrorOldEdge(g, h, key, e);
    } else if key == n1 && e == e1 {
      HasLastEdge(h, n2, e2);
      assert OtherEnd(Dest(key, e.bases)) == n2 && OtherEnd(key) == Dest(n2, e2.bases);
    } else {
      HasLastEdge(h, n1, e1);
      assert OtherEnd(Dest(key, e.bases)) == n1 && OtherEnd(key) == Dest(n1, e1.bases);
    }
  }

  /** Appending a mirrored pair keeps the mirror property. */
  lemma MirrorAddPair(g: Nodes, n1: NodeKey, e1: Edge, n2: NodeKey, e2: Edge)
    requires Mirror(g) && n1 in g && n2 in g && n1 != n2 && |n1.kmer| > 0 && |n2.kmer| > 0
    requires Dest(n1, e1.bases) == OtherEnd(n2) && Dest(n2, e2.bases) == OtherEnd(n1)
    ensures Mirror(AddPair(g, n1, e1, n2, e2))
  {
    var h := AddPair(g, n1, e1, n2, e2);
    AddPairNodes(g, n1, e1, n2, e2);
    forall key, i | key in h && 0 <= i < |h[key].edges| && |key.kmer| > 0
      ensures HasEdgeTo(h, OtherEnd(Dest(key, h[key].edges[i].bases)), OtherEnd(key))
    {
      MirrorAddPairEdge(g, n1, e1, n2, e2, key, i);
    }
  }

  lemma SingletonRevCompl(c: char)
    requires IsBase(c)
    ensures RevCompl([c]) == [Comp(c)]
  {
    assert [c][..0] == [];
  }

  lemma RevComplSnoc(q: string, c: char)
    requires IsBase(c)
    ensures RevCompl(q + [c]) == [Comp(c)] + RevCompl(q)
  {
    RevComplConcat(q, [c]);
    SingletonRevCompl(c);
  }

  lemma RevComplCons(c: char, q: string)
    requires IsBase(c)
    ensures RevCompl([c] + q) == RevCompl(q) + [Comp(c)]
  {
    RevComplConcat([c], q);
    SingletonRevCompl(c);
  }

  lemma TakeLastCons(a: char, r: string, k: nat)
    requires |r| == k
    ensures TakeLast([a] + r, k) == r
  {
    assert ([a] + r)[1..] == r;
  }

  lemma ConsDna(c: char, s: string)
    requires IsBase(c) && IsDna(s)
    ensures IsDna([c] + s) && IsDna(s + [c])
  {
    assert forall i | 0 < i < |s| + 1 :: ([c] + s)[i] == s[i - 1];
    assert forall i | 0 <= i < |s| :: (s + [c])[i] == s[i];
  }

  lemma SliceDna(s: string, i: nat, j: nat)
    requires IsDna(s) && i <= j <= |s|
    ensures IsDna(s[i..j])
  {
    assert forall t | 0 <= t < j - i :: s[i..j][t] == s[i + t];
  }

  /** Leaving x through end 0 by the complement of c reads the reverse complement of
      the neighbour w = c + prefix(x). */
  lemma PrefixOrientedStep(k: nat, x: string, c: char)
    requires |x| == k > 0 && IsDna(x) && IsBase(c)
    ensures TakeLast(Oriented(NodeKey(x, 0)) + [Comp(c)], k) == RevCompl([c] + x[..k - 1])
  {
    var p := x[..k - 1];
    assert x == p + [x[k - 1]];
    RevComplConcat(p, [x[k - 1]]);
    RevComplConcat([c], p);
    SingletonRevCompl(x[k - 1]);
    SingletonRevCompl(c);
    SliceDna(x, 0, k - 1);
    RevComplDna(p);
    assert RevCompl(x) + [Comp(c)] == [Comp(x[k - 1])] + RevCompl([c] + p);
  }

  /** The two edges of a prefix pair lead to each other's other ends. */
  lemma PrefixDests(k: nat, x: string, c: char)
    requires IsCanonicalKmer(k, x) && k % 2 == 1 && IsBase(c)
    ensures var w := [c] + x[..k - 1];
      IsDna(w) && |w| == k
      && Dest(NodeKey(x, 0), [Comp(c)]) == OtherEnd(KeyOf(w))
      && Dest(KeyOf(w), [x[k - 1]]) == NodeKey(x, 1)
  {
    var w := [c] + x[..k - 1];
    SliceDna(x, 0, k - 1);
    ConsDna(c, x[..k - 1]);
    PrefixDestOut(k, x, c, w);
    PrefixDestBack(k, x, c, w);
  }

  /** Leaving x's end 0 by the complement of c reaches the other end of w's node. */
  lemma PrefixDestOut(k: nat, x: string, c: char, w: string)
    requires IsCanonicalKmer(k, x) && k % 2 == 1 && IsBase(c)
    requires w == [c] + x[..k - 1] && IsDna(w)
    ensures Dest(NodeKey(x, 0), [Comp(c)]) == OtherEnd(KeyOf(w))
  {
    PrefixOrientedStep(k, x, c);
    KeyOfRevCompl(w);
  }

  /** Leaving w's node by the last base of x reaches x's end 1. */
  lemma PrefixDestBack(k: nat, x: string, c: char, w: string)
    requires IsCanonicalKmer(k, x) && k % 2 == 1 && IsBase(c)
    requires w == [c] + x[..k - 1] && IsDna(w)
    ensures Dest(KeyOf(w), [x[k - 1]]) == NodeKey(x, 1)
  {
    OrientedKeyOf(w);
    assert x[..k - 1] + [x[k - 1]] == x;
    ConcatAssoc([c], x[..k - 1], [x[k - 1]]);
    assert TakeLast(w + [x[k - 1]], k) == x;
    CanonicalOfCanonical(k, x);
  }

  /** Leaving the node of v = suffix(x) + c through its other end by the complement of
      x[0] reads the reverse complement of x. */
  lemma SuffixOrientedStep(k: nat, x: string, c: char)
    requires |x| == k > 0 && IsDna(x) && IsBase(c)
    ensures TakeLast(RevCompl(x[1..] + [c]) + [Comp(x[0])], k) == RevCompl(x)
  {
    var q := x[1..];
    assert [x[0]] + q == x;
    RevComplSnoc(q, c);
    RevComplCons(x[0], q);
    RevComplLength(x);
    var r := RevCompl(q);
    assert ([Comp(c)] + r) + [Comp(x[0])] == [Comp(c)] + (r + [Comp(x[0])]);
    TakeLastCons(Comp(c), RevCompl(x), k);
  }

  /** The two edges of a suffix pair lead to each other's other ends. */
  lemma SuffixDests(k: nat, x: string, c: char)
    requires IsCanonicalKmer(k, x) && k % 2 == 1 && IsBase(c)
    ensures var v := x[1..] + [c];
      IsDna(v) && |v| == k
      && Dest(NodeKey(x, 1), [c]) == KeyOf(v)
      && Dest(OtherEnd(KeyOf(v)), [Comp(x[0])]) == NodeKey(x, 0)
  {
    var v := x[1..] + [c];
    SliceDna(x, 1, k);
    ConsDna(c, x[1..]);
    assert TakeLast(x + [c], k) == v;
    OrientedKeyOf(v);
    OrientedOtherEnd(KeyOf(v));
    SuffixOrientedStep(k, x, c);
    KeyOfRevCompl(x);
    CanonicalOfCanonical(k, x);
  }

  lemma AddPairClosed(g: Nodes, n1: NodeKey, e1: Edge, n2: NodeKey, e2: Edge)
    requires EdgesClosed(g) && n1 in g && n2 in g && n1 != n2 && |n1.kmer| > 0 && |n2.kmer| > 0
    requires |e1.bases| > 0 && IsDna(e1.bases) && Dest(n1, e1.bases) in g
    requires |e2.bases| > 0 && IsDna(e2.bases) && Dest(n2, e2.bases) in g
    ensures EdgesClosed(AddPair(g, n1, e1, n2, e2))
  {
    var h := AddPair(g, n1, e1, n2, e2);
    forall key, i | key in h && 0 <= i < |h[key].edges|
      ensures |key.kmer| > 0 && |h[key].edges[i].bases| > 0 && IsDna(h[key].edges[i].bases)
      ensures Dest(key, h[key].edges[i].bases) in h
    {
      AddPairEdgeClosed(g, n1, e1, n2, e2, key, i);
    }
  }

  /** AddPairClosed at one edge. */
  lemma AddPairEdgeClosed(g: Nodes, n1: NodeKey, e1: Edge, n2: NodeKey, e2: Edge, key: NodeKey, i: int)
    requires EdgesClosed(g) && n1 in g && n2 in g && n1 != n2 && |n1.kmer| > 0 && |n2.kmer| > 0
    requires |e1.bases| > 0 && IsDna(e1.bases) && Dest(n1, e1.bases) in g
    requires |e2.bases| > 0 && IsDna(e2.bases) && Dest(n2, e2.bases) in g
    requires var h := AddPair(g, n1, e1, n2, e2); key in h && 0 <= i < |h[key].edges|
    ensures var h := AddPair(g, n1, e1, n2, e2);
      |key.kmer| > 0 && |h[key].edges[i].bases| > 0 && IsDna(h[key].edges[i].bases)
      && Dest(key, h[key].edges[i].bases) in h
  {
    var h := AddPair(g, n1, e1, n2, e2);
    AddPairNodes(g, n1, e1, n2, e2);
    assert key in g;
    AddPairEdge(g, n1, e1, n2, e2, key, i);
    var e := h[key].edges[i];
    if i < |g[key].edges| && e == g[key].edges[i] {
      ClosedEdge(g, key, i);
    } else if key == n1 && e == e1 {
    } else {
      assert key == n2 && e == e2;
    }
    assert Dest(key, e.bases) in g;
  }

  lemma ClosedEdge(g: Nodes, key: NodeKey, i: int)
    requires EdgesClosed(g) && key in g && 0 <= i < |g[key].edges|
    ensures var e := g[key].edges[i]; |key.kmer| > 0 && |e.bases| > 0 && IsDna(e.bases) && Dest(key, e.bases) in g
  {
  }

  lemma AddPairUnit(g: Nodes, n1: NodeKey, ch1: char, n2: NodeKey, ch2: char)
    requires UnitEdges(g) && n1 in g && n2 in g && n1 != n2
    ensures UnitEdges(AddPair(g, n1, NewEdge(ch1), n2, NewEdge(ch2)))
  {
    var h := AddPair(g, n1, NewEdge(ch1), n2, NewEdge(ch2));
    forall key, i | key in h && 0 <= i < |h[key].edges|
      ensures |h[key].edges[i].bases| == 1 && h[key].edges[i].readStart == {}
      ensures h[key].edges[i].readSet == {} && h[key].edges[i].readEnd == {}
    {
      AddPairEdge(g, n1, NewEdge(ch1), n2, NewEdge(ch2), key, i);
    }
  }

  lemma AddPairNoSelfLoops(g: Nodes, n1: NodeKey, e1: Edge, n2: NodeKey, e2: Edge)
    requires NoSelfLoops(g) && n1 in g && n2 in g && n1 != n2 && |n1.kmer| > 0 && |n2.kmer| > 0
    requires Dest(n1, e1.bases).kmer != n1.kmer && Dest(n2, e2.bases).kmer != n2.kmer
    ensures NoSelfLoops(AddPair(g, n1, e1, n2, e2))
  {
    var h := AddPair(g, n1, e1, n2, e2);
    forall key, i | key in h && 0 <= i < |h[key].edges| && |key.kmer| > 0
      ensures Dest(key, h[key].edges[i].bases).kmer != key.kmer
    {
      AddPairEdge(g, n1, e1, n2, e2, key, i);
    }
  }

  /** One added pair keeps every construction invariant. */
  lemma AddPairInv(k: nat, kmers: set<nat>, g: Nodes, n1: NodeKey, ch1: char, n2: NodeKey, ch2: char)
    requires k > 0 && Inv(k, kmers, g) && n1 in g && n2 in g && n1.kmer != n2.kmer
    requires IsBase(ch1) && IsBase(ch2)
    requires Dest(n1, [ch1]) == OtherEnd(n2) && Dest(n2, [ch2]) == OtherEnd(n1)
    ensures Inv(k, kmers, AddPair(g, n1, NewEdge(ch1), n2, NewEdge(ch2)))
  {
    var e1, e2 := NewEdge(ch1), NewEdge(ch2);
    assert IsDna(e1.bases) && IsDna(e2.bases);
    AddPairNodes(g, n1, e1, n2, e2);
    MirrorAddPair(g, n1, e1, n2, e2);
    AddPairClosed(g, n1, e1, n2, e2);
    AddPairUnit(g, n1, ch1, n2, ch2);
    AddPairNoSelfLoops(g, n1, e1, n2, e2);
    AddPairWellFormed(k, g, n1, e1, n2, e2);
  }

  lemma AddPairWellFormed(k: nat, g: Nodes, n1: NodeKey, e1: Edge, n2: NodeKey, e2: Edge)
    requires WellFormed(k, g) && Untagged(g) && n1 in g && n2 in g && n1 != n2
    ensures var h := AddPair(g, n1, e1, n2, e2);
      h.Keys == g.Keys && WellFormed(k, h) && Untagged(h)
  {
    AddPairNodes(g, n1, e1, n2, e2);
  }

  /** Both ends of a canonical k-mer whose code is in the map are nodes. */
  lemma NodePresent(k: nat, kmers: set<nat>, g: Nodes, y: string)
    requires ValidK(k) && k % 2 == 1 && IsCanonicalKmer(k, y) && CanonicalOfString(k, y).0 in kmers
    requires g.Keys == NodeKeys(k, kmers)
    ensures NodeKey(y, 0) in g && NodeKey(y, 1) in g
  {
    NodeKmerOfCode(k, y);
  }

  lemma PrefixPairInv(k: nat, kmers: set<nat>, g: Nodes, code: nat, c: char)
    requires ValidK(k) && k % 2 == 1 && CanonicalCodes(k, kmers) && code in kmers && IsBase(c)
    requires Inv(k, kmers, g)
    ensures Inv(k, kmers, AddPrefixPair(k, kmers, g, code, NodeKmer(k, code), c))
  {
    var x := NodeKmer(k, code);
    var w := [c] + x[..k - 1];
    var (cp, cpr) := Dna.Canonical(w);
    var n := CanonicalOfString(k, cp).0;
    if n in kmers && Signed(n) < Signed(code) {
      assert NodeKey(x, 0) in g;
      PrefixDests(k, x, c);
      CanonicalStrandSymmetric(w);
      NodePresent(k, kmers, g, cp);
      CodeOfNodeKmer(k, code);
      AddPairInv(k, kmers, g, NodeKey(x, 0), Comp(c), KeyOf(w), x[k - 1]);
    }
  }

  lemma SuffixPairInv(k: nat, kmers: set<nat>, g: Nodes, code: nat, c: char)
    requires ValidK(k) && k % 2 == 1 && CanonicalCodes(k, kmers) && code in kmers && IsBase(c)
    requires Inv(k, kmers, g)
    ensures Inv(k, kmers, AddSuffixPair(k, kmers, g, code, NodeKmer(k, code), c))
  {
    var x := NodeKmer(k, code);
    var v := x[1..] + [c];
    var (sc, scr) := Dna.Canonical(v);
    var n := CanonicalOfString(k, sc).0;
    if n in kmers && Signed(n) < Signed(code) {
      assert NodeKey(x, 1) in g;
      SuffixDests(k, x, c);
      CanonicalStrandSymmetric(v);
      NodePresent(k, kmers, g, sc);
      CodeOfNodeKmer(k, code);
      AddPairInv(k, kmers, g, NodeKey(x, 1), c, OtherEnd(KeyOf(v)), Comp(x[0]));
    }
  }

  lemma KmerEdgesInv(k: nat, kmers: set<nat>, g: Nodes, code: nat, n: nat, h: Nodes)
    requires ValidK(k) && k % 2 == 1 && CanonicalCodes(k, kmers) && code in kmers && n <= |Bases|
    requires Inv(k, kmers, g) && h == KmerEdges(k, kmers, g, code, n)
    ensures Inv(k, kmers, h)
  {
    var cur := g;
    for i := 0 to n
      invariant cur == KmerEdges(k, kmers, g, code, i) && Inv(k, kmers, cur)
    {
      var next := KmerEdges(k, kmers, g, code, i + 1);
      KmerEdgesUnfold(k, kmers, g, code, i + 1, cur, next);
      PairsInv(k, kmers, cur, code, Bases[i], next);
      cur := next;
    }
  }

  lemma KmerEdgesUnfold(k: nat, kmers: set<nat>, g: Nodes, code: nat, n: nat, g1: Nodes, h: Nodes)
    requires k > 0 && 0 < n <= |Bases|
    requires g1 == KmerEdges(k, kmers, g, code, n - 1) && h == KmerEdges(k, kmers, g, code, n)
    ensures IsBase(Bases[n - 1]) && h == Round(k, kmers, g1, code, Bases[n - 1])
  {
  }

  /** One more round of the base loop: where its lookups succeed, the rounds so far extend
      by one; where they fail, the loop fails. */
  lemma KmerEdgesNext(k: nat, kmers: set<nat>, g: Nodes, code: nat, n: nat, cur: Nodes, ok: bool, next: Nodes)
    requires k > 0 && n < |Bases| && cur == KmerEdges(k, kmers, g, code, n)
    requires RoundsFound(k, kmers, g.Keys, code, n)
    requires ok == RoundFound(k, kmers, cur.Keys, code, Bases[n])
    requires ok ==> next == Round(k, kmers, cur, code, Bases[n])
    ensures ok ==> next == KmerEdges(k, kmers, g, code, n + 1) && RoundsFound(k, kmers, g.Keys, code, n + 1)
    ensures !ok ==> !KmerFound(k, kmers, g.Keys, code)
  {
    assert cur.Keys == g.Keys;
    if ok {
      KmerEdgesUnfold(k, kmers, g, code, n + 1, cur, KmerEdges(k, kmers, g, code, n + 1));
    } else if KmerFound(k, kmers, g.Keys, code) {
      RoundsFoundPrefix(k, kmers, g.Keys, code, |Bases|, n + 1);
    }
  }

  /** Both edge pairs of one base keep the invariant. */
  lemma PairsInv(k: nat, kmers: set<nat>, g: Nodes, code: nat, c: char, h: Nodes)
    requires ValidK(k) && k % 2 == 1 && CanonicalCodes(k, kmers) && code in kmers && IsBase(c)
    requires Inv(k, kmers, g)
    requires h == Round(k, kmers, g, code, c)
    ensures Inv(k, kmers, h)
  {
    PrefixPairInv(k, kmers, g, code, c);
    SuffixPairInv(k, kmers, AddPrefixPair(k, kmers, g, code, NodeKmer(k, code), c), code, c);
  }

  /** Construction, in any order of the k-mer map: both ends of every k-mer exist and pair
      up, every edge is one base with empty support sets and leads to a node of the graph,
      no edge joins a k-mer to itself, and every edge has its mirrored partner. */
  lemma {:induction false} BuildInv(k: nat, kmers: set<nat>, order: seq<nat>)
    requires ValidK(k) && k % 2 == 1 && CanonicalCodes(k, kmers)
    requires forall i :: 0 <= i < |order| ==> order[i] in kmers
    ensures Inv(k, kmers, BuildEdges(k, kmers, InitNodes(k, kmers), order))
  {
    if order == [] {
      InitInv(k, kmers);
    } else {
      BuildInv(k, kmers, order[..|order| - 1]);
      KmerEdgesInv(k, kmers, BuildEdges(k, kmers, InitNodes(k, kmers), order[..|order| - 1]), order[|order| - 1], |Bases|,
        BuildEdges(k, kmers, InitNodes(k, kmers), order));
    }
  }
}
