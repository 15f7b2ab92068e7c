/** The bidirected de Bruijn graph of Assembler.kt: nodes keyed by (canonical k-mer, end),
    edges carrying an appended sequence and three read-id sets, the `dest` and
    `otherEnd` navigation, and the invariants the assembler relies on. */
module Graph {
  import opened Wrappers
  import opened Dna

  /** `Pair<String, Int>`: a canonical k-mer and one of its two ends. */
  datatype NodeKey = NodeKey(kmer: string, end: Bit)

  /** `Assembler.Edge`: reads starting, passing and ending here, and the bases appended
      after the oriented k-mer of the node the edge leaves. */
  datatype Edge = Edge(readStart: set<int>, readSet: set<int>, readEnd: set<int>, bases: string)

  /** `Assembler.Node`. */
  datatype Node = Node(kmer: string, end: Bit, readStart: set<int>, readEnd: set<int>, edges: seq<Edge>)

  /** The `nodes` map. */
  type Nodes = map<NodeKey, Node>

  /** `Node.otherEnd`. */
  function OtherEnd(key: NodeKey): (r: NodeKey)
    ensures r.kmer == key.kmer && r.end != key.end
  {
    NodeKey(key.kmer, Xor1(key.end))
  }

  /** The k-mer as read when leaving through this end: reverse-complemented at end 0. */
  function Oriented(key: NodeKey): string
  {
    if key.end == 0 then RevCompl(key.kmer) else key.kmer
  }

  lemma ConcatAssoc(a: string, b: string, c: string)
    ensures a + (b + c) == (a + b) + c
  {
  }

  /** `takeLast(n)`. */
  function TakeLast(s: string, n: nat): (r: string)
    ensures |r| == if |s| <= n then |s| else n
  {
    if |s| <= n then s else s[|s| - n..]
  }

  /** The node whose oriented k-mer is t: `UtilString.canonical(t)` with its flag `xor 1`. */
  function KeyOf(t: string): NodeKey
    requires |t| > 0
  {
    var c := Canonical(t);
    NodeKey(c.0, Xor1(c.1))
  }

  /** The key `nodes[UtilString.canonical(w)]` looks up for a read window w. */
  function WindowKey(w: string): NodeKey
    requires |w| > 0
  {
    var c := Canonical(w);
    NodeKey(c.0, c.1)
  }

  /** `Node.dest`: the node reached by appending bases to the oriented k-mer. */
  function Dest(key: NodeKey, bases: string): NodeKey
    requires |key.kmer| > 0
  {
    KeyOf(TakeLast(Oriented(key) + bases, |key.kmer|))
  }

  // ---------------------------------------------------------------------------
  // Invariants

  /** Keys are canonical k-mers, each node records its own key, and both ends of a k-mer
      are present together. */
  ghost predicate WellFormed(k: nat, g: Nodes) {
    forall key | key in g ::
      IsCanonicalKmer(k, key.kmer) && g[key].kmer == key.kmer && g[key].end == key.end
      && OtherEnd(key) in g
  }

  /** Every edge carries a non-empty DNA sequence and leads to a node of the graph. */
  ghost predicate EdgesClosed(g: Nodes) {
    forall key, i | key in g && 0 <= i < |g[key].edges| ::
      |key.kmer| > 0 && |g[key].edges[i].bases| > 0 && IsDna(g[key].edges[i].bases)
      && Dest(key, g[key].edges[i].bases) in g
  }

  /** `key` has an edge leading to `target`. */
  ghost predicate HasEdgeTo(g: Nodes, key: NodeKey, target: NodeKey) {
    key in g && |key.kmer| > 0
    && exists j :: 0 <= j < |g[key].edges| && Dest(key, g[key].edges[j].bases) == target
  }

  /** The mirror property: an edge n -> m has a partner otherEnd(m) -> otherEnd(n). */
  ghost predicate Mirror(g: Nodes) {
    forall key, i | key in g && 0 <= i < |g[key].edges| && |key.kmer| > 0 ::
      HasEdgeTo(g, OtherEnd(Dest(key, g[key].edges[i].bases)), OtherEnd(key))
  }

  // ---------------------------------------------------------------------------
  // Orientation lemmas (odd K)

  lemma OrientedDna(k: nat, key: NodeKey)
    requires IsCanonicalKmer(k, key.kmer)
    ensures |Oriented(key)| == k && IsDna(Oriented(key))
  {
    RevComplDna(key.kmer);
  }

  lemma OrientedOtherEnd(key: NodeKey)
    requires IsDna(key.kmer)
    ensures Oriented(OtherEnd(key)) == RevCompl(Oriented(key))
  {
    RevComplInvolution(key.kmer);
  }

  /** A node is the node of its own oriented k-mer. */
  lemma KeyOfOriented(k: nat, key: NodeKey)
    requires IsCanonicalKmer(k, key.kmer) && k % 2 == 1
    ensures KeyOf(Oriented(key)) == key
  {
    CanonicalOfCanonical(k, key.kmer);
    RevComplDna(key.kmer);
  }

  /** The node of an odd-length DNA string t is a canonical key whose oriented k-mer is t. */
  lemma OrientedKeyOf(t: string)
    requires IsDna(t) && |t| % 2 == 1
    ensures IsCanonicalKmer(|t|, KeyOf(t).kmer) && Oriented(KeyOf(t)) == t
  {
    CanonicalStrandSymmetric(t);
    RevComplDna(t);
    RevComplInvolution(t);
  }

  /** Reading t from the other strand reaches the other end of the same k-mer. */
  lemma KeyOfRevCompl(t: string)
    requires IsDna(t) && |t| % 2 == 1
    ensures KeyOf(RevCompl(t)) == OtherEnd(KeyOf(t))
  {
    CanonicalStrandSymmetric(t);
    RevComplDna(t);
  }

  /** The window lookup of a read finds the other end of the window's node. */
  lemma WindowKeyIsOtherEnd(w: string)
    requires |w| > 0
    ensures WindowKey(w) == OtherEnd(KeyOf(w))
  {
  }

  /** The oriented k-mer of dest(n, s) is the last K bases of n's oriented k-mer
      followed by the edge bases. */
  lemma DestOriented(k: nat, key: NodeKey, bases: string)
    requires IsCanonicalKmer(k, key.kmer) && k % 2 == 1 && IsDna(bases)
    ensures var t := TakeLast(Oriented(key) + bases, k);
      |t| == k && IsDna(t) && Oriented(Dest(key, bases)) == t
      && IsCanonicalKmer(k, Dest(key, bases).kmer)
  {
    OrientedDna(k, key);
    var u := Oriented(key) + bases;
    var t := TakeLast(u, k);
    assert IsDna(t) by {
      forall i | 0 <= i < |t| ensures IsBase(t[i]) {
        assert t[i] == u[|u| - k + i];
      }
    }
    OrientedKeyOf(t);
  }
}
