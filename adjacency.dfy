/** Which edges graph construction (Assembler.kt lines 34-61) creates: at odd K, with
    every k-mer of the map visited once, each end of a node has exactly one edge per base
    that leads to another node of the graph, and no other edge. The proof follows the
    second loop pair by pair: each edge is added while the larger of its two k-mers (in
    the signed order of the codes) is visited, in a round and on a side fixed by the edge. */
module Adjacency {
  import opened Wrappers
  import opened Dna
  import opened Codec
  import opened Graph
  import opened Build

  /** The number of edges of es whose bases are exactly the one base b. */
  function CountBase(es: seq<Edge>, b: char): nat
  {
    if es == [] then 0 else CountBase(es[..|es| - 1], b) + (if es[|es| - 1].bases == [b] then 1 else 0)
  }

  lemma CountSnoc(es: seq<Edge>, e: Edge, b: char)
    ensures CountBase(es + [e], b) == CountBase(es, b) + (if e.bases == [b] then 1 else 0)
  {
    assert (es + [e])[..|es|] == es;
  }

  /** The code of a node's k-mer, `Util.canonical` of its string. */
  function Code(k: nat, key: NodeKey): nat
  {
    CanonicalOfString(k, key.kmer).0
  }

  /** Leaving key by base b reaches a node of keys on another k-mer. */
  predicate Linked(keys: set<NodeKey>, key: NodeKey, b: char) {
    |key.kmer| > 0 && Dest(key, [b]) in keys && Dest(key, [b]).kmer != key.kmer
  }

  /** The k-mer of key is the larger of the two, in the signed order the source compares. */
  predicate Own(k: nat, key: NodeKey, b: char)
    requires |key.kmer| > 0
  {
    Signed(Code(k, Dest(key, [b]))) < Signed(Code(k, key))
  }

  /** The code whose visit adds the edge from key by b: the larger of the two codes. */
  function Larger(k: nat, key: NodeKey, b: char): nat
    requires |key.kmer| > 0
  {
    if Own(k, key, b) then Code(k, key) else Code(k, Dest(key, [b]))
  }

  /** The position of a base in "ATCG", the order of the rounds. */
  function Idx(c: char): nat
  {
    if c == 'A' then 0 else if c == 'T' then 1 else if c == 'C' then 2 else 3
  }

  lemma IdxOfBases(j: nat)
    requires j < |Bases|
    ensures IsBase(Bases[j]) && Idx(Bases[j]) == j
  {
  }

  /** The step of the visit of Larger at which the edge is added: the prefix pair of round
      c is step 2 Idx(c), the suffix pair step 2 Idx(c) + 1. On the larger k-mer the edge is
      the first of its pair (end 0 by the complement of c, end 1 by c); on the smaller one
      it is the second, and c is read off the oriented k-mer. */
  function Pos(k: nat, key: NodeKey, b: char): nat
    requires |key.kmer| > 0 && IsBase(b)
  {
    if Own(k, key, b) then
      (if key.end == 0 then 2 * Idx(Comp(b)) else 2 * Idx(b) + 1)
    else
      var o := Oriented(key);
      if |o| == 0 || !IsBase(o[0]) then 0
      else if Dest(key, [b]).end == 1 then 2 * Idx(o[0])
      else 2 * Idx(Comp(o[0])) + 1
  }

  /** The edge from key by b has been added once the visits of the codes in done are over
      and the visit of z has finished its first p steps. */
  function Target(k: nat, keys: set<NodeKey>, done: set<nat>, z: nat, p: nat, key: NodeKey, b: char): nat
    requires IsBase(b)
  {
    if Linked(keys, key, b) && (Larger(k, key, b) in done || (Larger(k, key, b) == z && Pos(k, key, b) < p)) then 1 else 0
  }

  /** Every node of g has, per base, exactly the edges added so far. */
  ghost predicate Counted(k: nat, keys: set<NodeKey>, g: Nodes, done: set<nat>, z: nat, p: nat) {
    g.Keys == keys
    && forall key, b {:trigger CountBase(g[key].edges, b)} | key in g && IsBase(b) ::
         CountBase(g[key].edges, b) == Target(k, keys, done, z, p, key, b)
  }

  /** The edge from key by b is added at step p of the visit of z. */
  predicate AddedAt(k: nat, keys: set<NodeKey>, z: nat, p: nat, key: NodeKey, b: char)
    requires IsBase(b)
  {
    Linked(keys, key, b) && Larger(k, key, b) == z && Pos(k, key, b) == p
  }

  // ---------------------------------------------------------------------------
  // Nodes and codes

  lemma NodeKmerCanonical(k: nat, code: nat)
    requires ValidK(k) && k % 2 == 1
    ensures IsCanonicalKmer(k, NodeKmer(k, code))
  {
    DecodeAt(k, code);
    CanonicalStrandSymmetric(Decode(k, code));
  }

  /** A node of the first loop carries the node string of its code, which is in the map. */
  lemma KeyCode(k: nat, kmers: set<nat>, key: NodeKey)
    requires ValidK(k) && k % 2 == 1 && CanonicalCodes(k, kmers) && key in NodeKeys(k, kmers)
    ensures Code(k, key) in kmers && NodeKmer(k, Code(k, key)) == key.kmer
    ensures IsCanonicalKmer(k, key.kmer) && Code(k, key) < 0x1_0000_0000_0000_0000
  {
    var c :| c in kmers && key.kmer == NodeKmer(k, c);
    CodeOfNodeKmer(k, c);
    NodeKmerCanonical(k, c);
    CodeFits(k, c);
  }

  /** A canonical k-mer whose code is in the map is a node, on both ends. */
  lemma CodeKey(k: nat, kmers: set<nat>, y: string)
    requires ValidK(k) && k % 2 == 1 && IsCanonicalKmer(k, y) && CanonicalOfString(k, y).0 in kmers
    ensures NodeKey(y, 0) in NodeKeys(k, kmers) && NodeKey(y, 1) in NodeKeys(k, kmers)
  {
    NodeKmerOfCode(k, y);
  }

  /** Two nodes share a code exactly when they share a k-mer. */
  lemma SameCode(k: nat, kmers: set<nat>, a: NodeKey, b: NodeKey)
    requires ValidK(k) && k % 2 == 1 && CanonicalCodes(k, kmers)
    requires a in NodeKeys(k, kmers) && b in NodeKeys(k, kmers)
    ensures Code(k, a) == Code(k, b) <==> a.kmer == b.kmer
    ensures Signed(Code(k, a)) == Signed(Code(k, b)) <==> a.kmer == b.kmer
  {
    KeyCode(k, kmers, a);
    KeyCode(k, kmers, b);
  }

  // ---------------------------------------------------------------------------
  // The edges that lead to a given end

  /** An edge into end 1 of x carries the last base of x, and leaves the node whose
      oriented k-mer is some base followed by the first K-1 bases of x. */
  lemma PredEnd1(k: nat, key: NodeKey, b: char, x: string)
    requires k % 2 == 1 && IsCanonicalKmer(k, key.kmer) && IsCanonicalKmer(k, x) && IsBase(b)
    requires Dest(key, [b]) == NodeKey(x, 1)
    ensures var o := Oriented(key);
      |o| == k && IsBase(o[0]) && b == x[k - 1] && key == KeyOf([o[0]] + x[..k - 1])
  {
    var o := Oriented(key);
    OrientedDna(k, key);
    DestOriented(k, key, [b]);
    assert x == (o + [b])[1..];
    assert (o + [b])[1..] == o[1..] + [b];
    assert x[..k - 1] == o[1..];
    assert [o[0]] + o[1..] == o;
    KeyOfOriented(k, key);
  }

  /** An edge into end 0 of x carries the complement of the first base of x, and leaves the
      other end of the node of suffix(x) + the complement of the first base of the edge's
      oriented k-mer. */
  lemma PredEnd0(k: nat, key: NodeKey, b: char, x: string)
    requires k % 2 == 1 && IsCanonicalKmer(k, key.kmer) && IsCanonicalKmer(k, x) && IsBase(b)
    requires Dest(key, [b]) == NodeKey(x, 0)
    ensures var o := Oriented(key);
      |o| == k && IsBase(o[0]) && b == Comp(x[0]) && IsDna(x[1..] + [Comp(o[0])])
      && key == OtherEnd(KeyOf(x[1..] + [Comp(o[0])]))
  {
    var o := Oriented(key);
    OrientedDna(k, key);
    DestOriented(k, key, [b]);
    assert (o + [b])[1..] == o[1..] + [b];
    PredEnd0Strings(k, x, o, b);
    var v := x[1..] + [Comp(o[0])];
    KeyOfRevCompl(v);
    KeyOfOriented(k, key);
  }

  /** The string facts behind PredEnd0: if the reverse complement of x is the tail of o
      followed by b, then b complements the first base of x, and o is the reverse complement
      of suffix(x) + the complement of o's first base. */
  lemma PredEnd0Strings(k: nat, x: string, o: string, b: char)
    requires |x| == k > 0 && IsDna(x) && |o| == k && IsDna(o) && IsBase(b)
    requires RevCompl(x) == o[1..] + [b]
    ensures b == Comp(x[0])
    ensures var v := x[1..] + [Comp(o[0])]; |v| == k && IsDna(v) && RevCompl(v) == o
  {
    PredEnd0Head(k, x, o, b);
    SliceDna(x, 1, k);
    PredEnd0Tail(x[1..], o);
  }

  /** The last base of the reverse complement of x complements x[0]; the rest is the
      reverse complement of suffix(x). */
  lemma PredEnd0Head(k: nat, x: string, o: string, b: char)
    requires |x| == k > 0 && IsDna(x) && |o| == k
    requires RevCompl(x) == o[1..] + [b]
    ensures b == Comp(x[0]) && RevCompl(x[1..]) == o[1..]
  {
    var q := x[1..];
    assert [x[0]] + q == x;
    RevComplCons(x[0], q);
    SliceDna(x, 1, k);
    RevComplDna(q);
    var r := RevCompl(x);
    assert r == RevCompl(q) + [Comp(x[0])];
    assert r[k - 1] == b && r[..k - 1] == o[1..];
    assert r[k - 1] == Comp(x[0]) && r[..k - 1] == RevCompl(q);
  }

  /** Appending the complement of o's first base to a string whose reverse complement is
      the tail of o gives the string whose reverse complement is o. */
  lemma PredEnd0Tail(q: string, o: string)
    requires IsDna(q) && |o| == |q| + 1 && IsDna(o) && RevCompl(q) == o[1..]
    ensures var v := q + [Comp(o[0])]; IsDna(v) && RevCompl(v) == o
  {
    var c := Comp(o[0]);
    assert IsBase(c) && Comp(c) == o[0] by {
      ComplementInvolution(o[0]);
    }
    ConsDna(c, q);
    RevComplSnoc(q, c);
    calc {
      RevCompl(q + [c]);
      [Comp(c)] + RevCompl(q);
      [o[0]] + o[1..];
      { assert [o[0]] + o[1..] == o; }
      o;
    }
  }

  lemma IdxInjective(a: char, b: char)
    requires IsBase(a) && IsBase(b) && Idx(a) == Idx(b)
    ensures a == b
  {
  }

  // ---------------------------------------------------------------------------
  // The pairs of one round

  /** The condition of lines 46 and 53 for the neighbour w: its canonical code is in the
      map and below code. */
  predicate Joins(k: nat, kmers: set<nat>, code: nat, w: string)
    requires |w| > 0
  {
    var n := CanonicalOfString(k, Dna.Canonical(w).0).0;
    n in kmers && Signed(n) < Signed(code)
  }

  /** The prefix pair of round c adds, when it joins, the edge of end 0 of x by the
      complement of c and the edge of the neighbour's node by the last base of x, both at
      step 2 Idx(c) of the visit of code. */
  lemma PrefixSound(k: nat, kmers: set<nat>, z: nat, c: char)
    requires ValidK(k) && k % 2 == 1 && CanonicalCodes(k, kmers) && z in kmers && IsBase(c)
    requires var x := NodeKmer(k, z); Joins(k, kmers, z, [c] + x[..k - 1])
    ensures var x := NodeKmer(k, z); var w := [c] + x[..k - 1]; var keys := NodeKeys(k, kmers);
      KeyOf(w) in keys && KeyOf(w).kmer != x && IsBase(x[k - 1])
      && AddedAt(k, keys, z, 2 * Idx(c), NodeKey(x, 0), Comp(c))
      && AddedAt(k, keys, z, 2 * Idx(c), KeyOf(w), x[k - 1])
  {
    var x := NodeKmer(k, z);
    var w := [c] + x[..k - 1];
    NodeKmerCanonical(k, z);
    CodeOfNodeKmer(k, z);
    PrefixDests(k, x, c);
    OrientedKeyOf(w);
    CodeKey(k, kmers, KeyOf(w).kmer);
    PrefixOwnSound(k, NodeKeys(k, kmers), kmers, z, c, x, w);
    PrefixOtherSound(k, NodeKeys(k, kmers), kmers, z, c, x, w);
  }

  lemma PrefixOwnSound(k: nat, keys: set<NodeKey>, kmers: set<nat>, z: nat, c: char, x: string, w: string)
    requires |x| > 0 && |w| > 0 && IsBase(c)
    requires Joins(k, kmers, z, w) && Code(k, NodeKey(x, 0)) == z
    requires Dest(NodeKey(x, 0), [Comp(c)]) == OtherEnd(KeyOf(w)) && OtherEnd(KeyOf(w)) in keys
    ensures AddedAt(k, keys, z, 2 * Idx(c), NodeKey(x, 0), Comp(c))
  {
    var d := OtherEnd(KeyOf(w));
    assert Code(k, d) == CanonicalOfString(k, Dna.Canonical(w).0).0;
    assert d.kmer != x;
    assert Own(k, NodeKey(x, 0), Comp(c));
    ComplementInvolution(c);
  }

  lemma PrefixOtherSound(k: nat, keys: set<NodeKey>, kmers: set<nat>, z: nat, c: char, x: string, w: string)
    requires |x| > 0 && |w| > 0 && w[0] == c && IsBase(c) && IsBase(x[|x| - 1])
    requires Joins(k, kmers, z, w) && Code(k, NodeKey(x, 1)) == z
    requires Dest(KeyOf(w), [x[|x| - 1]]) == NodeKey(x, 1) && NodeKey(x, 1) in keys
    requires Oriented(KeyOf(w)) == w
    ensures AddedAt(k, keys, z, 2 * Idx(c), KeyOf(w), x[|x| - 1])
  {
    var key := KeyOf(w);
    assert Code(k, key) == CanonicalOfString(k, Dna.Canonical(w).0).0;
    assert key.kmer != x;
    assert !Own(k, key, x[|x| - 1]);
  }

  /** Only those two edges are added at that step. */
  lemma PrefixComplete(k: nat, kmers: set<nat>, z: nat, c: char, key: NodeKey, b: char)
    requires ValidK(k) && k % 2 == 1 && CanonicalCodes(k, kmers) && z in kmers && IsBase(c)
    requires key in NodeKeys(k, kmers) && IsBase(b) && AddedAt(k, NodeKeys(k, kmers), z, 2 * Idx(c), key, b)
    ensures var x := NodeKmer(k, z); var w := [c] + x[..k - 1];
      Joins(k, kmers, z, w) && ((key == NodeKey(x, 0) && b == Comp(c)) || (key == KeyOf(w) && b == x[k - 1]))
  {
    var x := NodeKmer(k, z);
    var w := [c] + x[..k - 1];
    var d := Dest(key, [b]);
    KeyCode(k, kmers, key);
    KeyCode(k, kmers, d);
    SameCode(k, kmers, key, d);
    NodeKmerCanonical(k, z);
    PrefixDests(k, x, c);
    OrientedKeyOf(w);
    if Own(k, key, b) {
      assert key.kmer == x && key.end == 0;
      ComplementInvolution(b);
      IdxInjective(Comp(b), c);
    } else {
      assert d.kmer == x;
      OrientedDna(k, key);
      assert d.end == 1;
      PredEnd1(k, key, b, x);
      IdxInjective(Oriented(key)[0], c);
    }
  }

  /** The suffix pair of round c adds, when it joins, the edge of end 1 of x by c and the
      edge of the other end of the neighbour's node by the complement of the first base of
      x, both at step 2 Idx(c) + 1 of the visit of code. */
  lemma SuffixSound(k: nat, kmers: set<nat>, z: nat, c: char)
    requires ValidK(k) && k % 2 == 1 && CanonicalCodes(k, kmers) && z in kmers && IsBase(c)
    requires var x := NodeKmer(k, z); Joins(k, kmers, z, x[1..] + [c])
    ensures var x := NodeKmer(k, z); var v := x[1..] + [c]; var keys := NodeKeys(k, kmers);
      OtherEnd(KeyOf(v)) in keys && KeyOf(v).kmer != x && IsBase(Comp(x[0]))
      && AddedAt(k, keys, z, 2 * Idx(c) + 1, NodeKey(x, 1), c)
      && AddedAt(k, keys, z, 2 * Idx(c) + 1, OtherEnd(KeyOf(v)), Comp(x[0]))
  {
    var x := NodeKmer(k, z);
    var v := x[1..] + [c];
    NodeKmerCanonical(k, z);
    CodeOfNodeKmer(k, z);
    SuffixDests(k, x, c);
    OrientedKeyOf(v);
    OrientedOtherEnd(KeyOf(v));
    RevComplDna(v);
    CodeKey(k, kmers, KeyOf(v).kmer);
    SuffixOwnSound(k, NodeKeys(k, kmers), kmers, z, c, x, v);
    SuffixOtherSound(k, NodeKeys(k, kmers), kmers, z, c, x, v);
  }

  lemma SuffixOwnSound(k: nat, keys: set<NodeKey>, kmers: set<nat>, z: nat, c: char, x: string, v: string)
    requires |x| > 0 && |v| > 0 && IsBase(c)
    requires Joins(k, kmers, z, v) && Code(k, NodeKey(x, 1)) == z
    requires Dest(NodeKey(x, 1), [c]) == KeyOf(v) && KeyOf(v) in keys
    ensures AddedAt(k, keys, z, 2 * Idx(c) + 1, NodeKey(x, 1), c)
  {
    var d := KeyOf(v);
    assert Code(k, d) == CanonicalOfString(k, Dna.Canonical(v).0).0;
    assert d.kmer != x;
    assert Own(k, NodeKey(x, 1), c);
  }

  lemma SuffixOtherSound(k: nat, keys: set<NodeKey>, kmers: set<nat>, z: nat, c: char, x: string, v: string)
    requires |x| > 0 && |v| > 0 && IsBase(c) && IsBase(x[0])
    requires Joins(k, kmers, z, v) && Code(k, NodeKey(x, 0)) == z
    requires Dest(OtherEnd(KeyOf(v)), [Comp(x[0])]) == NodeKey(x, 0) && NodeKey(x, 0) in keys
    requires |Oriented(OtherEnd(KeyOf(v)))| > 0 && Oriented(OtherEnd(KeyOf(v)))[0] == Comp(c)
    ensures AddedAt(k, keys, z, 2 * Idx(c) + 1, OtherEnd(KeyOf(v)), Comp(x[0]))
  {
    var key := OtherEnd(KeyOf(v));
    assert Code(k, key) == CanonicalOfString(k, Dna.Canonical(v).0).0;
    assert key.kmer != x;
    assert !Own(k, key, Comp(x[0]));
    ComplementInvolution(c);
  }

  /** Only those two edges are added at that step. */
  lemma SuffixComplete(k: nat, kmers: set<nat>, z: nat, c: char, key: NodeKey, b: char)
    requires ValidK(k) && k % 2 == 1 && CanonicalCodes(k, kmers) && z in kmers && IsBase(c)
    requires key in NodeKeys(k, kmers) && IsBase(b) && AddedAt(k, NodeKeys(k, kmers), z, 2 * Idx(c) + 1, key, b)
    ensures var x := NodeKmer(k, z); var v := x[1..] + [c];
      Joins(k, kmers, z, v) && ((key == NodeKey(x, 1) && b == c) || (key == OtherEnd(KeyOf(v)) && b == Comp(x[0])))
  {
    var x := NodeKmer(k, z);
    var d := Dest(key, [b]);
    KeyCode(k, kmers, key);
    KeyCode(k, kmers, d);
    SameCode(k, kmers, key, d);
    NodeKmerCanonical(k, z);
    if Own(k, key, b) {
      assert Code(k, key) == z;
      SuffixDests(k, x, c);
      SuffixOwnComplete(k, kmers, z, c, key, b, x, x[1..] + [c]);
    } else {
      assert Code(k, d) == z;
      SuffixOtherComplete(k, kmers, z, c, key, b, x);
    }
  }

  /** The edge of the larger k-mer at an odd step is that of end 1 by c. */
  lemma SuffixOwnComplete(k: nat, kmers: set<nat>, z: nat, c: char, key: NodeKey, b: char, x: string, v: string)
    requires |key.kmer| > 0 && |v| > 0 && IsBase(b) && IsBase(c)
    requires Own(k, key, b) && Pos(k, key, b) == 2 * Idx(c) + 1 && key.kmer == x
    requires Dest(NodeKey(x, 1), [c]) == KeyOf(v)
    requires Code(k, Dest(key, [b])) in kmers && Code(k, key) == z
    ensures Joins(k, kmers, z, v) && key == NodeKey(x, 1) && b == c
  {
    PosOwn(k, key, b);
    assert key.end == 1;
    IdxInjective(b, c);
    assert Code(k, KeyOf(v)) == CanonicalOfString(k, Dna.Canonical(v).0).0;
  }

  /** The edge of the smaller k-mer at an odd step leads into end 0 of x, from the other end
      of the node of suffix(x) + c, by the complement of the first base of x. */
  lemma SuffixOtherComplete(k: nat, kmers: set<nat>, z: nat, c: char, key: NodeKey, b: char, x: string)
    requires k % 2 == 1 && IsCanonicalKmer(k, key.kmer) && IsCanonicalKmer(k, x) && IsBase(b) && IsBase(c)
    requires !Own(k, key, b) && Pos(k, key, b) == 2 * Idx(c) + 1 && Dest(key, [b]).kmer == x
    requires Code(k, key) in kmers && Signed(Code(k, key)) < Signed(z)
    ensures var v := x[1..] + [c];
      Joins(k, kmers, z, v) && key == OtherEnd(KeyOf(v)) && b == Comp(x[0])
  {
    var d := Dest(key, [b]);
    OrientedDna(k, key);
    PosOther(k, key, b);
    assert d.end == 0;
    assert d == NodeKey(x, 0);
    PredEnd0(k, key, b, x);
    IdxInjective(Comp(Oriented(key)[0]), c);
    var v := x[1..] + [c];
    assert Code(k, key) == CanonicalOfString(k, Dna.Canonical(v).0).0;
  }

  /** The step of an edge of the larger k-mer: even from end 0, odd from end 1. */
  lemma PosOwn(k: nat, key: NodeKey, b: char)
    requires |key.kmer| > 0 && IsBase(b) && Own(k, key, b)
    ensures key.end == 0 ==> Pos(k, key, b) == 2 * Idx(Comp(b))
    ensures key.end == 1 ==> Pos(k, key, b) == 2 * Idx(b) + 1
  {
  }

  /** The step of an edge of the smaller k-mer: even into end 1, odd into end 0. */
  lemma PosOther(k: nat, key: NodeKey, b: char)
    requires |key.kmer| > 0 && IsBase(b) && !Own(k, key, b)
    requires |Oriented(key)| > 0 && IsBase(Oriented(key)[0])
    ensures Dest(key, [b]).end == 1 ==> Pos(k, key, b) == 2 * Idx(Oriented(key)[0])
    ensures Dest(key, [b]).end == 0 ==> Pos(k, key, b) == 2 * Idx(Comp(Oriented(key)[0])) + 1
  {
  }

  // ---------------------------------------------------------------------------
  // Steps of a visit

  /** One step of the visit of z adds exactly the edges added at that step. */
  lemma TargetStep(k: nat, keys: set<NodeKey>, done: set<nat>, z: nat, p: nat, key: NodeKey, b: char)
    requires IsBase(b) && z !in done
    ensures Target(k, keys, done, z, p + 1, key, b)
      == Target(k, keys, done, z, p, key, b) + (if AddedAt(k, keys, z, p, key, b) then 1 else 0)
  {
  }

  /** A pair whose two edges are exactly those of step p advances the count by one step. */
  lemma PairStep(k: nat, keys: set<NodeKey>, g: Nodes, done: set<nat>, z: nat, p: nat,
                 n1: NodeKey, b1: char, n2: NodeKey, b2: char)
    requires Counted(k, keys, g, done, z, p) && z !in done
    requires n1 in g && n2 in g && n1 != n2
    requires forall key, b | key in keys && IsBase(b) ::
      AddedAt(k, keys, z, p, key, b) <==> ((key == n1 && b == b1) || (key == n2 && b == b2))
    ensures Counted(k, keys, AddPair(g, n1, NewEdge(b1), n2, NewEdge(b2)), done, z, p + 1)
  {
    var h := AddPair(g, n1, NewEdge(b1), n2, NewEdge(b2));
    AddPairNodes(g, n1, NewEdge(b1), n2, NewEdge(b2));
    forall key, b | key in h && IsBase(b)
      ensures CountBase(h[key].edges, b) == Target(k, keys, done, z, p + 1, key, b)
    {
      TargetStep(k, keys, done, z, p, key, b);
      if key == n1 {
        CountSnoc(g[key].edges, NewEdge(b1), b);
      } else if key == n2 {
        CountSnoc(g[key].edges, NewEdge(b2), b);
      }
    }
  }

  /** A step that adds nothing. */
  lemma SkipStep(k: nat, keys: set<NodeKey>, g: Nodes, done: set<nat>, z: nat, p: nat)
    requires Counted(k, keys, g, done, z, p) && z !in done
    requires forall key, b | key in keys && IsBase(b) :: !AddedAt(k, keys, z, p, key, b)
    ensures Counted(k, keys, g, done, z, p + 1)
  {
    forall key, b | key in g && IsBase(b)
      ensures CountBase(g[key].edges, b) == Target(k, keys, done, z, p + 1, key, b)
    {
      TargetStep(k, keys, done, z, p, key, b);
    }
  }

  /** The prefix pair of round c, in terms of Joins and KeyOf. */
  lemma PrefixPairIs(k: nat, kmers: set<nat>, g: Nodes, z: nat, c: char)
    requires k > 0 && IsBase(c)
    ensures var x := NodeKmer(k, z); var w := [c] + x[..k - 1];
      AddPrefixPair(k, kmers, g, z, x, c)
      == if Joins(k, kmers, z, w) then AddPair(g, NodeKey(x, 0), NewEdge(Comp(c)), KeyOf(w), NewEdge(x[k - 1])) else g
  {
  }

  /** When the prefix pair joins, the edges of step 2 Idx(c) are exactly its two edges. */
  lemma PrefixTokens(k: nat, kmers: set<nat>, z: nat, c: char)
    requires ValidK(k) && k % 2 == 1 && CanonicalCodes(k, kmers) && z in kmers && IsBase(c)
    requires var x := NodeKmer(k, z); Joins(k, kmers, z, [c] + x[..k - 1])
    ensures var x := NodeKmer(k, z); var w := [c] + x[..k - 1]; var keys := NodeKeys(k, kmers);
      NodeKey(x, 0) in keys && KeyOf(w) in keys && NodeKey(x, 0) != KeyOf(w)
      && (forall key, b | key in keys && IsBase(b) :: AddedAt(k, keys, z, 2 * Idx(c), key, b)
            <==> ((key == NodeKey(x, 0) && b == Comp(c)) || (key == KeyOf(w) && b == x[k - 1])))
  {
    var keys := NodeKeys(k, kmers);
    var x := NodeKmer(k, z);
    var w := [c] + x[..k - 1];
    PrefixSound(k, kmers, z, c);
    NodeKmerCanonical(k, z);
    CodeOfNodeKmer(k, z);
    CodeKey(k, kmers, x);
    forall key, b | key in keys && IsBase(b) && AddedAt(k, keys, z, 2 * Idx(c), key, b)
      ensures (key == NodeKey(x, 0) && b == Comp(c)) || (key == KeyOf(w) && b == x[k - 1])
    {
      PrefixComplete(k, kmers, z, c, key, b);
    }
  }

  /** When it does not join, nothing is added at step 2 Idx(c). */
  lemma PrefixNone(k: nat, kmers: set<nat>, z: nat, c: char)
    requires ValidK(k) && k % 2 == 1 && CanonicalCodes(k, kmers) && z in kmers && IsBase(c)
    requires var x := NodeKmer(k, z); !Joins(k, kmers, z, [c] + x[..k - 1])
    ensures var keys := NodeKeys(k, kmers);
      forall key, b | key in keys && IsBase(b) :: !AddedAt(k, keys, z, 2 * Idx(c), key, b)
  {
    var keys := NodeKeys(k, kmers);
    forall key, b | key in keys && IsBase(b) && AddedAt(k, keys, z, 2 * Idx(c), key, b)
      ensures false
    {
      PrefixComplete(k, kmers, z, c, key, b);
    }
  }

  /** The prefix pair of round c is step 2 Idx(c) of the visit of z. */
  lemma PrefixStep(k: nat, kmers: set<nat>, g: Nodes, done: set<nat>, z: nat, c: char)
    requires ValidK(k) && k % 2 == 1 && CanonicalCodes(k, kmers) && z in kmers && z !in done && IsBase(c)
    requires Counted(k, NodeKeys(k, kmers), g, done, z, 2 * Idx(c))
    ensures Counted(k, NodeKeys(k, kmers), AddPrefixPair(k, kmers, g, z, NodeKmer(k, z), c), done, z, 2 * Idx(c) + 1)
  {
    var keys := NodeKeys(k, kmers);
    var x := NodeKmer(k, z);
    var w := [c] + x[..k - 1];
    PrefixPairIs(k, kmers, g, z, c);
    if Joins(k, kmers, z, w) {
      PrefixTokens(k, kmers, z, c);
      PairStep(k, keys, g, done, z, 2 * Idx(c), NodeKey(x, 0), Comp(c), KeyOf(w), x[k - 1]);
    } else {
      PrefixNone(k, kmers, z, c);
      SkipStep(k, keys, g, done, z, 2 * Idx(c));
    }
  }

  /** The suffix pair of round c, in terms of Joins and KeyOf. */
  lemma SuffixPairIs(k: nat, kmers: set<nat>, g: Nodes, z: nat, c: char)
    requires k > 0 && IsBase(c)
    ensures var x := NodeKmer(k, z); var v := x[1..] + [c];
      AddSuffixPair(k, kmers, g, z, x, c)
      == if Joins(k, kmers, z, v) then AddPair(g, NodeKey(x, 1), NewEdge(c), OtherEnd(KeyOf(v)), NewEdge(Comp(x[0]))) else g
  {
    var x := NodeKmer(k, z);
    var v := x[1..] + [c];
    var (sc, scr) := Dna.Canonical(v);
    assert NodeKey(sc, scr) == OtherEnd(KeyOf(v));
  }

  /** The edges of step 2 Idx(c) + 1 are exactly the two of the suffix pair, when it joins. */
  lemma SuffixTokens(k: nat, kmers: set<nat>, z: nat, c: char)
    requires ValidK(k) && k % 2 == 1 && CanonicalCodes(k, kmers) && z in kmers && IsBase(c)
    ensures var x := NodeKmer(k, z); var v := x[1..] + [c]; var keys := NodeKeys(k, kmers);
      forall key, b | key in keys && IsBase(b) :: AddedAt(k, keys, z, 2 * Idx(c) + 1, key, b)
        <==> Joins(k, kmers, z, v) && ((key == NodeKey(x, 1) && b == c) || (key == OtherEnd(KeyOf(v)) && b == Comp(x[0])))
  {
    var keys := NodeKeys(k, kmers);
    var x := NodeKmer(k, z);
    var v := x[1..] + [c];
    forall key, b | key in keys && IsBase(b)
      ensures AddedAt(k, keys, z, 2 * Idx(c) + 1, key, b)
        <==> Joins(k, kmers, z, v) && ((key == NodeKey(x, 1) && b == c) || (key == OtherEnd(KeyOf(v)) && b == Comp(x[0])))
    {
      if AddedAt(k, keys, z, 2 * Idx(c) + 1, key, b) {
        SuffixComplete(k, kmers, z, c, key, b);
      } else if Joins(k, kmers, z, v) {
        SuffixSound(k, kmers, z, c);
      }
    }
  }

  /** The suffix pair of round c is step 2 Idx(c) + 1 of the visit of z. */
  lemma SuffixStep(k: nat, kmers: set<nat>, g: Nodes, done: set<nat>, z: nat, c: char)
    requires ValidK(k) && k % 2 == 1 && CanonicalCodes(k, kmers) && z in kmers && z !in done && IsBase(c)
    requires Counted(k, NodeKeys(k, kmers), g, done, z, 2 * Idx(c) + 1)
    ensures Counted(k, NodeKeys(k, kmers), AddSuffixPair(k, kmers, g, z, NodeKmer(k, z), c), done, z, 2 * Idx(c) + 2)
  {
    var keys := NodeKeys(k, kmers);
    var x := NodeKmer(k, z);
    var v := x[1..] + [c];
    SuffixPairIs(k, kmers, g, z, c);
    SuffixTokens(k, kmers, z, c);
    if Joins(k, kmers, z, v) {
      SuffixSound(k, kmers, z, c);
      NodeKmerCanonical(k, z);
      CodeOfNodeKmer(k, z);
      CodeKey(k, kmers, x);
      PairStep(k, keys, g, done, z, 2 * Idx(c) + 1, NodeKey(x, 1), c, OtherEnd(KeyOf(v)), Comp(x[0]));
    } else {
      SkipStep(k, keys, g, done, z, 2 * Idx(c) + 1);
    }
  }

  // ---------------------------------------------------------------------------
  // Visits and the whole second loop

  /** One round of the visit of z covers its two steps. */
  lemma RoundStep(k: nat, kmers: set<nat>, g: Nodes, done: set<nat>, z: nat, c: char)
    requires ValidK(k) && k % 2 == 1 && CanonicalCodes(k, kmers) && z in kmers && z !in done && IsBase(c)
    requires Counted(k, NodeKeys(k, kmers), g, done, z, 2 * Idx(c))
    ensures Counted(k, NodeKeys(k, kmers), Round(k, kmers, g, z, c), done, z, 2 * Idx(c) + 2)
  {
    PrefixStep(k, kmers, g, done, z, c);
    SuffixStep(k, kmers, AddPrefixPair(k, kmers, g, z, NodeKmer(k, z), c), done, z, c);
  }

  /** The first n rounds of the visit of z are its first 2 n steps. */
  lemma {:induction false} KmerCounted(k: nat, kmers: set<nat>, g: Nodes, done: set<nat>, z: nat, n: nat, h: Nodes)
    requires ValidK(k) && k % 2 == 1 && CanonicalCodes(k, kmers) && z in kmers && z !in done && n <= |Bases|
    requires Counted(k, NodeKeys(k, kmers), g, done, z, 0) && h == KmerEdges(k, kmers, g, z, n)
    ensures Counted(k, NodeKeys(k, kmers), h, done, z, 2 * n)
  {
    if n > 0 {
      KmerCounted(k, kmers, g, done, z, n - 1, KmerEdges(k, kmers, g, z, n - 1));
      KmerStep(k, kmers, g, done, z, n);
    }
  }

  /** Round n of the visit of z is its steps 2 n - 2 and 2 n - 1. */
  lemma KmerStep(k: nat, kmers: set<nat>, g: Nodes, done: set<nat>, z: nat, n: nat)
    requires ValidK(k) && k % 2 == 1 && CanonicalCodes(k, kmers) && z in kmers && z !in done && 0 < n <= |Bases|
    requires Counted(k, NodeKeys(k, kmers), KmerEdges(k, kmers, g, z, n - 1), done, z, 2 * (n - 1))
    ensures Counted(k, NodeKeys(k, kmers), KmerEdges(k, kmers, g, z, n), done, z, 2 * n)
  {
    var g1 := KmerEdges(k, kmers, g, z, n - 1);
    KmerEdgesUnfold(k, kmers, g, z, n, g1, KmerEdges(k, kmers, g, z, n));
    IdxOfBases(n - 1);
    RoundStep(k, kmers, g1, done, z, Bases[n - 1]);
  }

  /** Every edge is added within the eight steps of a visit. */
  lemma PosBound(k: nat, key: NodeKey, b: char)
    requires |key.kmer| > 0 && IsBase(b)
    ensures Pos(k, key, b) < 2 * |Bases|
  {
    var o := Oriented(key);
    assert Idx(b) < 4 && Idx(Comp(b)) < 4;
    if |o| > 0 && IsBase(o[0]) {
      assert Idx(o[0]) < 4 && Idx(Comp(o[0])) < 4;
    }
  }

  /** After the eight steps of z, z is done, and the next visit starts from step 0. */
  lemma Rollover(k: nat, keys: set<NodeKey>, g: Nodes, done: set<nat>, z: nat, z2: nat)
    requires Counted(k, keys, g, done, z, 2 * |Bases|)
    ensures Counted(k, keys, g, done + {z}, z2, 0)
  {
    forall key, b | key in g && IsBase(b)
      ensures CountBase(g[key].edges, b) == Target(k, keys, done + {z}, z2, 0, key, b)
    {
      if |key.kmer| > 0 {
        PosBound(k, key, b);
      }
    }
  }

  /** Before the second loop, no node has an edge. */
  lemma InitCounted(k: nat, kmers: set<nat>, z: nat)
    requires k > 0
    ensures Counted(k, NodeKeys(k, kmers), InitNodes(k, kmers), {}, z, 0)
  {
    var g := InitNodes(k, kmers);
    forall key, b | key in g && IsBase(b)
      ensures CountBase(g[key].edges, b) == Target(k, NodeKeys(k, kmers), {}, z, 0, key, b)
    {
      assert g[key].edges == [];
    }
  }

  /** The codes of an order. */
  function Elems(order: seq<nat>): set<nat> {
    set i | 0 <= i < |order| :: order[i]
  }

  lemma ElemsSnoc(order: seq<nat>)
    requires |order| > 0
    ensures Elems(order) == Elems(order[..|order| - 1]) + {order[|order| - 1]}
  {
    var front := order[..|order| - 1];
    forall y | y in Elems(front) ensures y in Elems(order) {
      var i :| 0 <= i < |front| && front[i] == y;
      assert order[i] == y;
    }
  }

  lemma LastFresh(order: seq<nat>)
    requires |order| > 0 && forall i, j :: 0 <= i < j < |order| ==> order[i] != order[j]
    ensures order[|order| - 1] !in Elems(order[..|order| - 1])
  {
    var front := order[..|order| - 1];
    forall i | 0 <= i < |front| ensures front[i] != order[|order| - 1] {
      assert front[i] == order[i];
    }
  }

  /** After visiting a repetition-free order, exactly the edges whose larger k-mer is in it exist. */
  lemma {:induction false} BuildCounted(k: nat, kmers: set<nat>, order: seq<nat>, z: nat)
    requires ValidK(k) && k % 2 == 1 && CanonicalCodes(k, kmers)
    requires forall i :: 0 <= i < |order| ==> order[i] in kmers
    requires forall i, j :: 0 <= i < j < |order| ==> order[i] != order[j]
    ensures Counted(k, NodeKeys(k, kmers), BuildEdges(k, kmers, InitNodes(k, kmers), order), Elems(order), z, 0)
    decreases |order|
  {
    if order == [] {
      InitCounted(k, kmers, z);
    } else {
      var front, last := order[..|order| - 1], order[|order| - 1];
      BuildCounted(k, kmers, front, last);
      LastFresh(order);
      ElemsSnoc(order);
      var h := BuildEdges(k, kmers, InitNodes(k, kmers), order);
      KmerCounted(k, kmers, BuildEdges(k, kmers, InitNodes(k, kmers), front), Elems(front), last, |Bases|, h);
      Rollover(k, NodeKeys(k, kmers), h, Elems(front), last, z);
    }
  }

  /** Both k-mers of a link are in the map, so the larger one is. */
  lemma LargerIn(k: nat, kmers: set<nat>, key: NodeKey, b: char)
    requires ValidK(k) && k % 2 == 1 && CanonicalCodes(k, kmers) && IsBase(b)
    requires key in NodeKeys(k, kmers) && Linked(NodeKeys(k, kmers), key, b)
    ensures Larger(k, key, b) in kmers
  {
    KeyCode(k, kmers, key);
    KeyCode(k, kmers, Dest(key, [b]));
  }

  /** Once the larger k-mer of every link is done, every link has its one edge. */
  lemma AllDone(k: nat, keys: set<NodeKey>, g: Nodes, done: set<nat>, z: nat)
    requires Counted(k, keys, g, done, z, 0) && forall key | key in keys :: |key.kmer| > 0
    requires forall key, b | key in keys && IsBase(b) && Linked(keys, key, b) :: Larger(k, key, b) in done
    ensures forall key, b | key in g && IsBase(b) ::
      CountBase(g[key].edges, b) == if Dest(key, [b]) in g && Dest(key, [b]).kmer != key.kmer then 1 else 0
  {
    forall key, b | key in g && IsBase(b)
      ensures CountBase(g[key].edges, b) == if Dest(key, [b]) in g && Dest(key, [b]).kmer != key.kmer then 1 else 0
    {
      assert CountBase(g[key].edges, b) == Target(k, keys, done, z, 0, key, b);
    }
  }

  /** Construction visiting every k-mer of the map once: the nodes are both ends of every
      k-mer, and each end has, for each base, one edge with that base when it leads to a node
      on another k-mer and none otherwise. */
  lemma BuildAdjacency(k: nat, kmers: set<nat>, order: seq<nat>)
    requires ValidK(k) && k % 2 == 1 && CanonicalCodes(k, kmers)
    requires forall i :: 0 <= i < |order| ==> order[i] in kmers
    requires forall i, j :: 0 <= i < j < |order| ==> order[i] != order[j]
    requires forall c | c in kmers :: c in order
    ensures var g := BuildEdges(k, kmers, InitNodes(k, kmers), order);
      g.Keys == NodeKeys(k, kmers)
      && forall key, b | key in g && IsBase(b) ::
           CountBase(g[key].edges, b) == if Dest(key, [b]) in g && Dest(key, [b]).kmer != key.kmer then 1 else 0
  {
    var keys := NodeKeys(k, kmers);
    BuildCounted(k, kmers, order, 0);
    forall key, b | key in keys && IsBase(b) && Linked(keys, key, b)
      ensures Larger(k, key, b) in Elems(order)
    {
      LargerIn(k, kmers, key, b);
      var i :| 0 <= i < |order| && order[i] == Larger(k, key, b);
    }
    forall key | key in keys ensures |key.kmer| > 0 {
      KeyCode(k, kmers, key);
    }
    AllDone(k, keys, BuildEdges(k, kmers, InitNodes(k, kmers), order), Elems(order), 0);
  }
}
