/** Read threading of Assembler.kt: the read-end tags of `loadReadEndsOnGraph`
    (lines 65-88) and the edge hop tags of `loadReadHopsOnGraph` (lines 121-141), as
    specification functions over a snapshot of the `nodes` map. */
module Threading {
  import opened Wrappers
  import opened Dna
  import opened Graph

  /** A read: its id (the hash of file path and read name) and its bases. */
  datatype Read = Read(id: int, bases: string)

  /** The node the window s[i..i+k] is looked up under. */
  function WindowAt(s: string, k: nat, i: nat): NodeKey
    requires k > 0 && i + k <= |s|
  {
    WindowKey(s[i..i + k])
  }

  /** The first window at or after i, scanning left to right, whose node exists. */
  function FirstHit(g: Nodes, k: nat, s: string, i: nat): (r: Option<nat>)
    requires k > 0
    ensures r.Some? ==> i <= r.value && r.value + k <= |s| && WindowAt(s, k, r.value) in g
    ensures r.Some? ==> forall j :: i <= j < r.value ==> WindowAt(s, k, j) !in g
    ensures r.None? ==> forall j :: i <= j && j + k <= |s| ==> WindowAt(s, k, j) !in g
    decreases |s| - i
  {
    if i + k > |s| then None
    else if WindowAt(s, k, i) in g then Some(i)
    else FirstHit(g, k, s, i + 1)
  }

  /** The first window at or before i, scanning right to left, whose node exists. */
  function LastHit(g: Nodes, k: nat, s: string, i: int): (r: Option<nat>)
    requires k > 0 && i + k <= |s|
    ensures r.Some? ==> r.value <= i && WindowAt(s, k, r.value) in g
    ensures r.Some? ==> forall j :: r.value < j <= i ==> WindowAt(s, k, j) !in g
    ensures r.None? ==> forall j :: 0 <= j <= i ==> WindowAt(s, k, j) !in g
    decreases i + 1
  {
    if i < 0 then None
    else if WindowAt(s, k, i) in g then Some(i)
    else LastHit(g, k, s, i - 1)
  }

  /** `node.readStart.add(id)`. */
  function AddReadStart(g: Nodes, key: NodeKey, id: int): Nodes {
    if key in g then g[key := g[key].(readStart := g[key].readStart + {id})] else g
  }

  /** `node.readEnd.add(id)`. */
  function AddReadEnd(g: Nodes, key: NodeKey, id: int): Nodes {
    if key in g then g[key := g[key].(readEnd := g[key].readEnd + {id})] else g
  }

  /** The left hit's node, if any. */
  function LeftKey(g: Nodes, k: nat, s: string): Option<NodeKey>
    requires k > 0
  {
    match FirstHit(g, k, s, 0)
    case None => None
    case Some(i) => Some(WindowAt(s, k, i))
  }

  /** The right hit's node, if any. */
  function RightKey(g: Nodes, k: nat, s: string): Option<NodeKey>
    requires k > 0
  {
    if |s| < k then None
    else match LastHit(g, k, s, |s| - k)
      case None => None
      case Some(i) => Some(WindowAt(s, k, i))
  }

  /** Lines 71-78: the left hit gets the id as a read end, its other end as a read start. */
  function TagLeft(g: Nodes, key: Option<NodeKey>, id: int): Nodes {
    match key
    case None => g
    case Some(n) => AddReadStart(AddReadEnd(g, n, id), OtherEnd(n), id)
  }

  /** Lines 79-86: the right hit gets the id as a read start, its other end as a read end. */
  function TagRight(g: Nodes, key: Option<NodeKey>, id: int): Nodes {
    match key
    case None => g
    case Some(n) => AddReadEnd(AddReadStart(g, n, id), OtherEnd(n), id)
  }

  /** Both tags of one read. */
  function TagRead(g: Nodes, k: nat, r: Read): Nodes
    requires k > 0
  {
    var g1 := TagLeft(g, LeftKey(g, k, r.bases), r.id);
    TagRight(g1, RightKey(g1, k, r.bases), r.id)
  }

  /** `loadReadEndsOnGraph` over a sequence of reads, in order. */
  function TagReads(g: Nodes, k: nat, rs: seq<Read>): Nodes
    requires k > 0
    decreases |rs|
  {
    if rs == [] then g else TagReads(TagRead(g, k, rs[0]), k, rs[1..])
  }

  // ---------------------------------------------------------------------------
  // Effect of the read-end tags

  /** g and h have the same nodes up to their read-end tags. */
  ghost predicate SameEdges(g: Nodes, h: Nodes) {
    g.Keys == h.Keys
    && forall key | key in g :: h[key] == g[key].(readStart := h[key].readStart, readEnd := h[key].readEnd)
  }

  lemma SameEdgesTrans(a: Nodes, b: Nodes, c: Nodes)
    requires SameEdges(a, b) && SameEdges(b, c)
    ensures SameEdges(a, c)
  {
  }

  /** The ids a tag adds to one set of one node: {id} at the nodes a and b. */
  function Gain(key: NodeKey, a: Option<NodeKey>, b: Option<NodeKey>, id: int): set<int> {
    if Some(key) == a || Some(key) == b then {id} else {}
  }

  function OtherOf(key: Option<NodeKey>): Option<NodeKey> {
    match key
    case None => None
    case Some(n) => Some(OtherEnd(n))
  }

  lemma AddReadEndEffect(g: Nodes, n: NodeKey, id: int)
    ensures var h := AddReadEnd(g, n, id);
      SameEdges(g, h)
      && forall key | key in g ::
        h[key].readStart == g[key].readStart && h[key].readEnd == g[key].readEnd + Gain(key, Some(n), None, id)
  {
  }

  lemma AddReadStartEffect(g: Nodes, n: NodeKey, id: int)
    ensures var h := AddReadStart(g, n, id);
      SameEdges(g, h)
      && forall key | key in g ::
        h[key].readEnd == g[key].readEnd && h[key].readStart == g[key].readStart + Gain(key, Some(n), None, id)
  {
  }

  lemma TagLeftEffect(g: Nodes, L: Option<NodeKey>, id: int)
    ensures TagsGained(g, TagLeft(g, L, id), L, None, id)
  {
    if L.Some? {
      var n := L.value;
      var g1 := AddReadEnd(g, n, id);
      AddReadEndEffect(g, n, id);
      AddReadStartEffect(g1, OtherEnd(n), id);
      SameEdgesTrans(g, g1, TagLeft(g, L, id));
    }
  }

  lemma TagRightEffect(g: Nodes, R: Option<NodeKey>, id: int)
    ensures TagsGained(g, TagRight(g, R, id), None, R, id)
  {
    if R.Some? {
      var n := R.value;
      var g1 := AddReadStart(g, n, id);
      AddReadStartEffect(g, n, id);
      AddReadEndEffect(g1, OtherEnd(n), id);
      SameEdgesTrans(g, g1, TagRight(g, R, id));
    }
  }

  /** The left hit and the right hit exist together, the left one not after the right one. */
  lemma HitsTogether(g: Nodes, k: nat, s: string)
    requires k > 0
    ensures LeftKey(g, k, s).Some? <==> RightKey(g, k, s).Some?
    ensures FirstHit(g, k, s, 0).Some? ==>
      LastHit(g, k, s, |s| - k).Some? && FirstHit(g, k, s, 0).value <= LastHit(g, k, s, |s| - k).value
  {
    var f := FirstHit(g, k, s, 0);
    if f.Some? {
      var l := LastHit(g, k, s, |s| - k);
      assert WindowAt(s, k, f.value) in g;
    }
  }

  lemma {:induction false} FirstHitSameKeys(g: Nodes, h: Nodes, k: nat, s: string, i: nat)
    requires k > 0 && g.Keys == h.Keys
    ensures FirstHit(g, k, s, i) == FirstHit(h, k, s, i)
    decreases |s| - i
  {
    if i + k <= |s| && WindowAt(s, k, i) !in g {
      FirstHitSameKeys(g, h, k, s, i + 1);
    }
  }

  lemma {:induction false} LastHitSameKeys(g: Nodes, h: Nodes, k: nat, s: string, i: int)
    requires k > 0 && i + k <= |s| && g.Keys == h.Keys
    ensures LastHit(g, k, s, i) == LastHit(h, k, s, i)
    decreases i + 1
  {
    if i >= 0 && WindowAt(s, k, i) !in g {
      LastHitSameKeys(g, h, k, s, i - 1);
    }
  }

  /** Hits depend only on which nodes exist. */
  lemma HitsSameKeys(g: Nodes, h: Nodes, k: nat, s: string)
    requires k > 0 && g.Keys == h.Keys
    ensures LeftKey(g, k, s) == LeftKey(h, k, s) && RightKey(g, k, s) == RightKey(h, k, s)
  {
    FirstHitSameKeys(g, h, k, s, 0);
    if |s| >= k { LastHitSameKeys(g, h, k, s, |s| - k); }
  }

  /** One read's tags, exactly: with L the left hit and R the right hit of the read, L and
      the other end of R gain the id as a read end, R and the other end of L as a read
      start, and nothing else changes. */
  lemma TagReadEffect(g: Nodes, k: nat, r: Read)
    requires k > 0
    ensures TagsGained(g, TagRead(g, k, r), LeftKey(g, k, r.bases), RightKey(g, k, r.bases), r.id)
  {
    var L := LeftKey(g, k, r.bases);
    var g1 := TagLeft(g, L, r.id);
    TagLeftEffect(g, L, r.id);
    HitsSameKeys(g, g1, k, r.bases);
    var R := RightKey(g1, k, r.bases);
    TagRightEffect(g1, R, r.id);
    TagsGainedTrans(g, g1, TagRead(g, k, r), L, R, r.id);
  }

  /** The left tag followed by the right tag. */
  lemma TagsGainedTrans(g: Nodes, g1: Nodes, h: Nodes, L: Option<NodeKey>, R: Option<NodeKey>, id: int)
    requires TagsGained(g, g1, L, None, id) && TagsGained(g1, h, None, R, id)
    ensures TagsGained(g, h, L, R, id)
  {
    SameEdgesTrans(g, g1, h);
    ReadsGainedTrans(g, g1, h, L, R, id);
  }

  lemma ReadsGainedTrans(g: Nodes, g1: Nodes, h: Nodes, L: Option<NodeKey>, R: Option<NodeKey>, id: int)
    requires g.Keys <= g1.Keys && g1.Keys <= h.Keys && ReadsGained(g, g1, L, None, id) && ReadsGained(g1, h, None, R, id)
    ensures ReadsGained(g, h, L, R, id)
  {
    forall key | key in g
      ensures h[key].readEnd == g[key].readEnd + Gain(key, L, OtherOf(R), id)
      ensures h[key].readStart == g[key].readStart + Gain(key, OtherOf(L), R, id)
    {
      assert key in g1;
      var n0, n1, n := g[key], g1[key], h[key];
      assert n1.readEnd == n0.readEnd + Gain(key, L, None, id);
      assert n.readEnd == n1.readEnd + Gain(key, None, OtherOf(R), id);
      UnionAssoc(n0.readEnd, Gain(key, L, None, id), Gain(key, None, OtherOf(R), id));
      GainUnion(key, L, OtherOf(R), id);
      assert OtherOf(None) == None;
      assert n1.readStart == n0.readStart + Gain(key, OtherOf(L), None, id);
      assert n.readStart == n1.readStart + Gain(key, None, R, id);
      UnionAssoc(n0.readStart, Gain(key, OtherOf(L), None, id), Gain(key, None, R, id));
      GainUnion(key, OtherOf(L), R, id);
    }
  }

  lemma UnionAssoc(a: set<int>, b: set<int>, c: set<int>)
    ensures (a + b) + c == a + (b + c)
  {
  }

  lemma GainUnion(key: NodeKey, a: Option<NodeKey>, b: Option<NodeKey>, id: int)
    ensures Gain(key, a, None, id) + Gain(key, None, b, id) == Gain(key, a, b, id)
  {
  }

  /** h is g with the tags of one read whose left hit is L and right hit is R: L and the
      other end of R gain the id as a read end, R and the other end of L as a read start,
      and nothing else changes. */
  ghost predicate TagsGained(g: Nodes, h: Nodes, L: Option<NodeKey>, R: Option<NodeKey>, id: int) {
    SameEdges(g, h) && ReadsGained(g, h, L, R, id)
  }

  ghost predicate ReadsGained(g: Nodes, h: Nodes, L: Option<NodeKey>, R: Option<NodeKey>, id: int)
    requires g.Keys <= h.Keys
  {
    forall key | key in g ::
      h[key].readEnd == g[key].readEnd + Gain(key, L, OtherOf(R), id)
      && h[key].readStart == g[key].readStart + Gain(key, OtherOf(L), R, id)
  }

  /** Tagging reads never changes the nodes' edges. */
  lemma {:induction false} TagReadsSameEdges(g: Nodes, k: nat, rs: seq<Read>)
    requires k > 0
    ensures SameEdges(g, TagReads(g, k, rs))
    decreases |rs|
  {
    if rs != [] {
      var g1 := TagRead(g, k, rs[0]);
      TagReadEffect(g, k, rs[0]);
      TagReadsSameEdges(g1, k, rs[1..]);
      SameEdgesTrans(g, g1, TagReads(g, k, rs));
    }
  }

  // ---------------------------------------------------------------------------
  // Edge hops

  /** `edges.find { it.seq[0] == c }`: the first edge whose sequence starts with c. */
  function FindEdge(edges: seq<Edge>, c: Option<char>, from: nat): (r: Option<nat>)
    ensures r.Some? ==>
      (from <= r.value < |edges| && |edges[r.value].bases| > 0 && Some(edges[r.value].bases[0]) == c)
    ensures r.Some? ==>
      (forall j :: from <= j < r.value ==> !(|edges[j].bases| > 0 && Some(edges[j].bases[0]) == c))
    ensures r.None? ==>
      (forall j :: from <= j < |edges| ==> !(|edges[j].bases| > 0 && Some(edges[j].bases[0]) == c))
    decreases |edges| - from
  {
    if from >= |edges| then None
    else if |edges[from].bases| > 0 && Some(edges[from].bases[0]) == c then Some(from)
    else FindEdge(edges, c, from + 1)
  }

  /** `?.readSet?.add(id)` on the found edge of node key. */
  function AddHop(g: Nodes, key: NodeKey, c: Option<char>, id: int): Nodes {
    if key !in g then g
    else match FindEdge(g[key].edges, c, 0)
      case None => g
      case Some(j) =>
        var e := g[key].edges[j];
        g[key := g[key].(edges := g[key].edges[j := e.(readSet := e.readSet + {id})])]
  }

  /** What the window ending at i contributes (lines 128-138): its node, whether there is
      a base before it and the complement of that base, whether there is a base after it
      and that base. */
  datatype Window = Window(key: NodeKey, hasBefore: bool, before: Option<char>, hasAfter: bool, after: Option<char>)

  function WindowEndingAt(s: string, k: nat, i: nat): Window
    requires 0 < k <= i <= |s|
  {
    Window(WindowKey(s[i - k..i]), k < i, Before(s, k, i), i < |s|, After(s, i))
  }

  /** The complement of the base before the window ending at i, if there is one. */
  function Before(s: string, k: nat, i: nat): Option<char>
    requires k <= i <= |s|
  {
    if k < i then ComplementOf(s[i - k - 1]) else None
  }

  /** The base after the window ending at i, if there is one. */
  function After(s: string, i: nat): Option<char> {
    if i < |s| then Some(s[i]) else None
  }

  /** The windows of a read, ending at k, k+1, ..., |s| (none when the read is shorter
      than k). */
  function Windows(k: nat, s: string): (ws: seq<Window>)
    requires k > 0
    ensures |ws| == if k <= |s| then |s| - k + 1 else 0
    ensures forall t | 0 <= t < |ws| :: ws[t] == WindowEndingAt(s, k, k + t)
  {
    if k <= |s| then seq(|s| - k + 1, t requires 0 <= t < |s| - k + 1 => WindowEndingAt(s, k, k + t)) else []
  }

  /** The window ending at i is the (i-k)-th of the read. */
  lemma WindowsAt(k: nat, s: string, i: nat)
    requires 0 < k <= i <= |s|
    ensures i - k < |Windows(k, s)| && Windows(k, s)[i - k] == WindowEndingAt(s, k, i)
  {
    assert k + (i - k) == i;
  }

  /** One window: if its node is in the graph, on that node the edge of the complement of
      the base before the window, on its other end the edge of the base after it. */
  function HopAt(g: Nodes, id: int, w: Window): Nodes {
    if w.key !in g then g
    else
      var g1 := AddHopIf(g, w.hasBefore, w.key, w.before, id);
      AddHopIf(g1, w.hasAfter, OtherEnd(w.key), w.after, id)
  }

  function AddHopIf(g: Nodes, b: bool, key: NodeKey, c: Option<char>, id: int): Nodes {
    if b then AddHop(g, key, c, id) else g
  }

  /** The first n windows of ws, in order: what the read loop has done after n windows. */
  function HopTo(g: Nodes, id: int, ws: seq<Window>, n: nat): Nodes
    requires n <= |ws|
  {
    if n == 0 then g else HopAt(HopTo(g, id, ws, n - 1), id, ws[n - 1])
  }

  /** One more window of the read loop. */
  lemma HopToNext(g: Nodes, h: Nodes, id: int, ws: seq<Window>, n: nat, w: Window)
    requires n < |ws| && ws[n] == w && h == HopAt(HopTo(g, id, ws, n), id, w)
    ensures h == HopTo(g, id, ws, n + 1)
  {
  }

  /** The windows of one read (lines 127-139). */
  function Hops(g: Nodes, k: nat, id: int, s: string): Nodes
    requires k > 0
  {
    var ws := Windows(k, s);
    HopTo(g, id, ws, |ws|)
  }

  /** `loadReadHopsOnGraph` over a sequence of reads, in order. */
  function HopReads(g: Nodes, k: nat, rs: seq<Read>): Nodes
    requires k > 0
    decreases |rs|
  {
    if rs == [] then g else HopReads(Hops(g, k, rs[0].id, rs[0].bases), k, rs[1..])
  }

  /** Edges with their read-pass sets cleared. */
  function Shapes(es: seq<Edge>): seq<Edge> {
    seq(|es|, j requires 0 <= j < |es| => es[j].(readSet := {}))
  }

  /** g and h agree on everything but the edges' read-pass sets. */
  ghost predicate SameShape(g: Nodes, h: Nodes) {
    g.Keys == h.Keys
    && forall key | key in g :: h[key].(edges := []) == g[key].(edges := []) && Shapes(h[key].edges) == Shapes(g[key].edges)
  }

  lemma SameShapeTrans(a: Nodes, b: Nodes, c: Nodes)
    requires SameShape(a, b) && SameShape(b, c)
    ensures SameShape(a, c)
  {
  }

  /** `find` looks only at the edges' sequences. */
  lemma {:induction false} FindEdgeShapes(es: seq<Edge>, fs: seq<Edge>, c: Option<char>, from: nat)
    requires Shapes(es) == Shapes(fs)
    ensures FindEdge(es, c, from) == FindEdge(fs, c, from)
    decreases |es| - from
  {
    assert |es| == |Shapes(es)| == |fs|;
    if from < |es| {
      assert es[from].bases == Shapes(es)[from].bases == fs[from].bases;
      FindEdgeShapes(es, fs, c, from + 1);
    }
  }

  /** Exactly the found edge gains the id. */
  lemma AddHopIfEffect(g: Nodes, b: bool, key: NodeKey, c: Option<char>, id: int)
    ensures SameShape(g, AddHopIf(g, b, key, c, id))
    ensures var h := AddHopIf(g, b, key, c, id);
      forall n, j | n in g && 0 <= j < |g[n].edges| ::
        |h[n].edges| == |g[n].edges|
        && h[n].edges[j].readSet == g[n].edges[j].readSet + (if b && n == key && FindEdge(g[n].edges, c, 0) == Some(j) then {id} else {})
  {
    var h := AddHopIf(g, b, key, c, id);
    if b && key in g && FindEdge(g[key].edges, c, 0).Some? {
      var j := FindEdge(g[key].edges, c, 0).value;
      var es := g[key].edges;
      var e := es[j];
      var fs := es[j := e.(readSet := e.readSet + {id})];
      assert h == g[key := g[key].(edges := fs)];
      assert |Shapes(fs)| == |Shapes(es)|;
      assert forall t | 0 <= t < |es| :: Shapes(fs)[t] == Shapes(es)[t];
      assert Shapes(fs) == Shapes(es);
      forall n, t | n in g && 0 <= t < |g[n].edges|
        ensures h[n].edges[t].readSet == g[n].edges[t].readSet + (if n == key && FindEdge(g[n].edges, c, 0) == Some(t) then {id} else {})
      {
        if n == key && t != j { assert fs[t] == es[t]; }
      }
    } else {
      assert h == g;
      forall n, t | n in g && 0 <= t < |g[n].edges|
        ensures h[n].edges[t].readSet == g[n].edges[t].readSet + (if b && n == key && FindEdge(g[n].edges, c, 0) == Some(t) then {id} else {})
      {
      }
    }
  }

  /** Edge j of node key is the edge window w tags. */
  ghost predicate TaggedAt(g: Nodes, w: Window, key: NodeKey, j: nat) {
    w.key in g && key in g
    && ((w.hasBefore && key == w.key && FindEdge(g[key].edges, w.before, 0) == Some(j))
        || (w.hasAfter && key == OtherEnd(w.key) && FindEdge(g[key].edges, w.after, 0) == Some(j)))
  }

  /** One of the first n windows tags edge j of node key. */
  ghost predicate TaggedBefore(g: Nodes, ws: seq<Window>, n: nat, key: NodeKey, j: nat) {
    exists t :: 0 <= t < n && t < |ws| && TaggedAt(g, ws[t], key, j)
  }

  lemma TaggedAtSameShape(g: Nodes, h: Nodes, w: Window, n: NodeKey, j: nat)
    requires SameShape(g, h)
    ensures TaggedAt(g, w, n, j) <==> TaggedAt(h, w, n, j)
  {
    if n in g {
      FindEdgeShapes(g[n].edges, h[n].edges, w.before, 0);
      FindEdgeShapes(g[n].edges, h[n].edges, w.after, 0);
    }
  }

  /** One edge under the two hops of a window. */
  lemma HopAtEdge(g: Nodes, id: int, w: Window, n: NodeKey, j: int)
    requires w.key in g && n in g && 0 <= j < |g[n].edges|
    ensures var h := HopAt(g, id, w);
      SameShape(g, h) && |h[n].edges| == |g[n].edges|
      && h[n].edges[j].readSet == g[n].edges[j].readSet + (if TaggedAt(g, w, n, j) then {id} else {})
  {
    var g1 := AddHopIf(g, w.hasBefore, w.key, w.before, id);
    var h := AddHopIf(g1, w.hasAfter, OtherEnd(w.key), w.after, id);
    assert HopAt(g, id, w) == h;
    HopAtShape(g, id, w);
    AddHopIfAt(g, w.hasBefore, w.key, w.before, id, n, j);
    AddHopIfAt(g1, w.hasAfter, OtherEnd(w.key), w.after, id, n, j);
    FindEdgeShapes(g[n].edges, g1[n].edges, w.after, 0);
    var a := w.hasBefore && n == w.key && FindEdge(g[n].edges, w.before, 0) == Some(j);
    var b := w.hasAfter && n == OtherEnd(w.key) && FindEdge(g1[n].edges, w.after, 0) == Some(j);
    IfUnion(g[n].edges[j].readSet, a, b, id);
    assert TaggedAt(g, w, n, j) == (a || b);
  }

  /** The two hops of a window keep the graph's shape. */
  lemma HopAtShape(g: Nodes, id: int, w: Window)
    ensures SameShape(g, HopAt(g, id, w))
  {
    if w.key in g {
      var g1 := AddHopIf(g, w.hasBefore, w.key, w.before, id);
      AddHopIfEffect(g, w.hasBefore, w.key, w.before, id);
      AddHopIfEffect(g1, w.hasAfter, OtherEnd(w.key), w.after, id);
      SameShapeTrans(g, g1, HopAt(g, id, w));
    }
  }

  /** `AddHopIfEffect` at one edge. */
  lemma AddHopIfAt(g: Nodes, b: bool, key: NodeKey, c: Option<char>, id: int, n: NodeKey, j: int)
    requires n in g && 0 <= j < |g[n].edges|
    ensures var h := AddHopIf(g, b, key, c, id);
      n in h && Shapes(h[n].edges) == Shapes(g[n].edges) && |h[n].edges| == |g[n].edges|
      && h[n].edges[j].readSet == g[n].edges[j].readSet + (if b && n == key && FindEdge(g[n].edges, c, 0) == Some(j) then {id} else {})
  {
    AddHopIfEffect(g, b, key, c, id);
  }

  lemma IfUnion(x: set<int>, a: bool, b: bool, id: int)
    ensures (x + (if a then {id} else {})) + (if b then {id} else {}) == x + (if a || b then {id} else {})
  {
  }

  /** HopAtEffect at one edge. */
  lemma HopAtOne(g: Nodes, id: int, w: Window, n: NodeKey, j: nat)
    requires n in g && j < |g[n].edges|
    ensures var h := HopAt(g, id, w);
      n in h && |h[n].edges| == |g[n].edges|
      && h[n].edges[j].readSet == g[n].edges[j].readSet + (if TaggedAt(g, w, n, j) then {id} else {})
  {
    if w.key in g {
      HopAtEdge(g, id, w, n, j);
    }
  }

  /** One window, exactly: an edge gains the read id iff the window tags it; nothing else
      changes. */
  lemma HopAtEffect(g: Nodes, id: int, w: Window)
    ensures var h := HopAt(g, id, w);
      SameShape(g, h)
      && forall n, j | n in g && 0 <= j < |g[n].edges| ::
        |h[n].edges| == |g[n].edges|
        && h[n].edges[j].readSet == g[n].edges[j].readSet + (if TaggedAt(g, w, n, j) then {id} else {})
  {
    HopAtShape(g, id, w);
    forall n, j | n in g && 0 <= j < |g[n].edges|
      ensures var h := HopAt(g, id, w);
        |h[n].edges| == |g[n].edges|
        && h[n].edges[j].readSet == g[n].edges[j].readSet + (if TaggedAt(g, w, n, j) then {id} else {})
    {
      HopAtOne(g, id, w, n, j);
    }
  }

  /** The hops of a read's first n windows, exactly: an edge gains the read id iff one of
      those windows tags it (the edge found by the complement of the base before the
      window on the window's node, or by the base after it on the other end); nothing
      else changes. */
  lemma HopToEffect(g: Nodes, id: int, ws: seq<Window>, n: nat)
    requires n <= |ws|
    ensures var h := HopTo(g, id, ws, n);
      SameShape(g, h)
      && forall key, j | key in g && 0 <= j < |g[key].edges| ::
        |h[key].edges| == |g[key].edges|
        && h[key].edges[j].readSet == g[key].edges[j].readSet + (if TaggedBefore(g, ws, n, key, j) then {id} else {})
  {
    HopToShape(g, id, ws, n);
    forall key, j | key in g && 0 <= j < |g[key].edges|
      ensures var h := HopTo(g, id, ws, n);
        |h[key].edges| == |g[key].edges|
        && h[key].edges[j].readSet == g[key].edges[j].readSet + (if TaggedBefore(g, ws, n, key, j) then {id} else {})
    {
      HopToEdge(g, id, ws, n, key, j);
    }
  }

  /** The first windows of a read keep the graph's shape. */
  lemma {:induction false} HopToShape(g: Nodes, id: int, ws: seq<Window>, n: nat)
    requires n <= |ws|
    ensures SameShape(g, HopTo(g, id, ws, n))
  {
    if n > 0 {
      var g1 := HopTo(g, id, ws, n - 1);
      HopToShape(g, id, ws, n - 1);
      HopAtShape(g1, id, ws[n - 1]);
      SameShapeTrans(g, g1, HopTo(g, id, ws, n));
    }
  }

  /** HopToEffect at one edge. */
  lemma {:induction false} HopToEdge(g: Nodes, id: int, ws: seq<Window>, n: nat, key: NodeKey, j: nat)
    requires n <= |ws| && key in g && j < |g[key].edges|
    ensures var h := HopTo(g, id, ws, n);
      key in h && |h[key].edges| == |g[key].edges|
      && h[key].edges[j].readSet == g[key].edges[j].readSet + (if TaggedBefore(g, ws, n, key, j) then {id} else {})
  {
    if n > 0 {
      var g1 := HopTo(g, id, ws, n - 1);
      HopToEdge(g, id, ws, n - 1, key, j);
      HopToShape(g, id, ws, n - 1);
      HopAtOne(g1, id, ws[n - 1], key, j);
      TaggedBeforeStep(g, g1, ws, n, key, j);
      IfUnion(g[key].edges[j].readSet, TaggedBefore(g, ws, n - 1, key, j), TaggedAt(g1, ws[n - 1], key, j), id);
    }
  }

  /** Splitting off the last window of TaggedBefore, over a graph of the same shape. */
  lemma TaggedBeforeStep(g: Nodes, g1: Nodes, ws: seq<Window>, n: nat, key: NodeKey, j: nat)
    requires 0 < n <= |ws| && SameShape(g, g1)
    ensures TaggedBefore(g, ws, n, key, j) <==> TaggedBefore(g, ws, n - 1, key, j) || TaggedAt(g1, ws[n - 1], key, j)
  {
    TaggedAtSameShape(g, g1, ws[n - 1], key, j);
    if TaggedBefore(g, ws, n, key, j) && !TaggedAt(g, ws[n - 1], key, j) {
      var t :| 0 <= t < n && t < |ws| && TaggedAt(g, ws[t], key, j);
      assert t < n - 1;
    }
  }

  /** Loading hops onto any sequence of reads changes only the edges' read-pass sets. */
  lemma {:induction false} HopReadsSameShape(g: Nodes, k: nat, rs: seq<Read>)
    requires k > 0
    ensures SameShape(g, HopReads(g, k, rs))
    decreases |rs|
  {
    if rs != [] {
      var g1 := Hops(g, k, rs[0].id, rs[0].bases);
      var ws := Windows(k, rs[0].bases);
      HopToShape(g, rs[0].id, ws, |ws|);
      HopReadsSameShape(g1, k, rs[1..]);
      SameShapeTrans(g, g1, HopReads(g, k, rs));
    }
  }

  /** A graph with the same shape keeps its well-formedness and its closed edges. */
  lemma SameShapeKeeps(k: nat, g: Nodes, h: Nodes)
    requires SameShape(g, h)
    ensures WellFormed(k, g) ==> WellFormed(k, h)
    ensures EdgesClosed(g) ==> EdgesClosed(h)
  {
    forall key, i | key in g && 0 <= i < |g[key].edges|
      ensures |h[key].edges| == |g[key].edges| && h[key].edges[i].bases == g[key].edges[i].bases
    {
      assert |Shapes(h[key].edges)| == |Shapes(g[key].edges)|;
      assert Shapes(h[key].edges)[i] == Shapes(g[key].edges)[i];
    }
    forall key | key in g ensures h[key].kmer == g[key].kmer && h[key].end == g[key].end && |h[key].edges| == |g[key].edges| {
      assert h[key].(edges := []) == g[key].(edges := []);
      assert |Shapes(h[key].edges)| == |Shapes(g[key].edges)|;
    }
  }
}
