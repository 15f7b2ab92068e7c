# Desirable: a verified model of the differential de Bruijn assembler

Desirable reconstructs contigs that occur in a target sequencing sample but not in the
background samples. It selects the k-mers exclusive to the target from k-mer count files
(`KmerAnalyzer`). From those k-mers it builds a bidirected de Bruijn graph. It then loads
read ends onto the graph, contracts non-branching chains into long edges, and loads the
windows of every read onto the edges as read hops. Finally it walks the graph from its dead
ends, letting read support choose between branches, and writes the contigs as FASTA
(`Assembler`).

The Dafny model follows the Kotlin sources file by file:

| Dafny module (file) | models |
|---|---|
| `Wrappers` (wrappers.dfy) | `Option`, `Result`, and the 0/1 orientation and end flag with its `xor 1` |
| `Dna` (dna.dfy) | the `complement` table, `String.revCompl`, `UtilString.reverse` and the middle-base `UtilString.canonical` of Util.kt |
| `Codec` (codec.dfy) | the 2-bit codec `Util.encode/decode/reverse/canonical`, and the rolling `ReadFileReader.decomposeKmer` as a method with a loop |
| `Graph` (graph.dfy) | node keys `(k-mer, end)`, `Edge` and `Node` records, `dest` and `otherEnd`, and the graph invariants |
| `Build` (build.dfy) | `constructGraphFromKmerSet` as a function over any iteration order of the k-mer map, where its `!!` lookups fail, and its invariants |
| `Adjacency` (adjacency.dfy) | which edges construction creates: one per base and end exactly where it leads to another node |
| `Threading` (threading.dfy) | `loadReadEndsOnGraph` and `loadReadHopsOnGraph` as functions and their exact effect |
| `Contraction` (contraction.dfy) | `pathContraction` and `compactChain`: the chain walk, its termination, and the contracted graph |
| `Traversal` (traversal.dfy) | `getContigByTraverse` and its `dfs`: one loop turn as a step function, the walk to its end, and the leaves and their sort |
| `Fasta` (fasta.dfy) | the text `writeContigsToFasta` writes, and a parser that reads it back |
| `Assembly` (assembler.dfy) | the `Assembler` class; each phase is a method whose loops are proved to compute the function of that phase |
| `KmerAnalysis` (kmer_analyzer.dfy) | the spectrum, trough and peak, the merge in `filterTargetKmerByControl`, the read screen and the final pass in `filterTargetByControl` |
| `Cli` (cli.dfy) | `tokenizer`, the `-k` validation and the counter's format argument from Desirable.kt |

The code has `while` and `for` loops that update state. Those loops are Dafny methods with
loop invariants. Each method's `ensures` ties its result or new state to a specification
function, and lemmas prove what the assembler relies on about those functions:

- **Construction.** At odd K no `!!` lookup fails; at even K one can. The graph keeps both ends of every k-mer, and each end has one edge per base exactly where that base leads to a node on another k-mer. Every edge is one base and leads to a node of the graph. No edge joins a k-mer to itself. The mirror property holds: an edge n → m has a partner otherEnd(m) → otherEnd(n).
- **Contraction.** The chain walk terminates within |g| nodes. It spells the chain's bases and gathers exactly the read tags of the interior nodes. The contracted graph is well formed, its edges stay inside it, and no interior node remains.
- **Traversal.** The walk always ends, by a measure that every turn decreases. On the contracted graph it never fails. Every contig starts from a dead end.
- **Round trips.** The codec and the FASTA text both round-trip exactly.

Behaviour of the code worth noting:

- **Canonical forms.** Node keys use the middle-base canonical form of `UtilString.canonical`. The numeric minimum with `Util.canonical` is used only for k-mer codes.
- **Read threading.** The code tags the first and the last window of a read that hits a node: read ends and starts on nodes. It then tags every window's neighbouring edges: read passes on edges. The code has no hop transitions and no boundary extension, and it drops no short reads.
- **Empty input.** Construction on an empty k-mer set does not fail; it gives an empty graph.
- **Repeated contraction.** Contraction is not a no-op when run twice. A second run replaces every long edge by the single base of the node it enters.
- **Degree test.** The branch-or-dead-end test of contraction is `edges.size != 1` on either end (line 108).

## Model

| member | source | states |
|---|---|---|
| Dna.ComplementOf | src/edu/nus/Util.kt:9 | the complement table is defined exactly on A, C, G, T and sends each base to a different base |
| Dna.ComplementInvolution | src/edu/nus/Util.kt:9 | complementing a base twice gives it back |
| Dna.RevCompl | src/edu/nus/Util.kt:10 | the reverse complement is never shorter than its input (a character outside the table becomes the four characters "null") |
| Dna.RevComplLength | src/edu/nus/Util.kt:10 | on DNA the reverse complement has the input's length |
| Dna.RevComplConcat | src/edu/nus/Util.kt:10 | revCompl(a + b) = revCompl(b) + revCompl(a) for all strings, including the "null" rendering of characters outside the table |
| Dna.ReverseIsRevCompl | src/edu/nus/Util.kt:10-12 | `UtilString.reverse` (reverse, then complement) and `String.revCompl` (complement, then reverse) agree on every string |
| Dna.RevComplDna | src/edu/nus/Util.kt:10 | on DNA, the reverse complement keeps the length, is DNA, and holds at position i the complement of position \|s\|-1-i |
| Dna.RevComplInvolution | src/edu/nus/Util.kt:10 | the reverse complement of the reverse complement of a DNA string is the string |
| Dna.CanonicalDna | src/edu/nus/Util.kt:13 | the canonical form of a non-empty DNA string is DNA of the same length |
| Dna.CanonicalStrandSymmetric | src/edu/nus/Util.kt:13 | for odd length the canonical form has A or C in the middle, and a string and its reverse complement get the same canonical string with opposite flags |
| Dna.CanonicalOfCanonical | src/edu/nus/Util.kt:13 | a canonical k-mer of odd length maps to itself with flag 0, and its reverse complement maps back to it with flag 1 |
| Codec.SymOfTable | src/edu/nus/Util.kt:18-20 | the entry of `decodeTable` at a 2-bit value is a base whose symbol is that value |
| Codec.TableOfSym | src/edu/nus/Util.kt:18-22 | `decodeTable` gives back the base of a symbol, and `xor 2` on a symbol gives the symbol of the complementary base |
| Codec.Flip | src/edu/nus/Util.kt:22 | `xor 2` sends a 2-bit symbol to a different 2-bit symbol |
| Codec.EncodeDigits | src/edu/nus/Util.kt:20 | the code of s is below 4^\|s\|, and its digit j is the symbol of position \|s\|-1-j |
| Codec.EncodeAppend | src/edu/nus/Util.kt:20 | appending a character multiplies the code by 4 and adds the character's symbol |
| Codec.DecodeAt | src/edu/nus/Util.kt:21 | decoding gives k DNA characters; position i is digit k-1-i looked up in `decodeTable` |
| Codec.Decode | src/edu/nus/Util.kt:21 | decoding a code at length k gives exactly k characters |
| Codec.DecodeEncode | src/edu/nus/Util.kt:20-21 | decode(encode(s)) = s for every DNA string s |
| Codec.EncodeDecode | src/edu/nus/Util.kt:20-21 | encode(decode(c)) = c for every code below 4^k |
| Codec.ReverseDigits | src/edu/nus/Util.kt:22 | reverse(c) is below 4^k, and its digit j is digit k-1-j of c, complemented |
| Codec.ReverseInvolution | src/edu/nus/Util.kt:22 | reverse is an involution on the codes below 4^k |
| Codec.ReverseEncode | src/edu/nus/Util.kt:22 | the numeric reverse of a DNA string's code is the code of its reverse complement |
| Codec.DecodeReverse | src/edu/nus/Util.kt:21-22 | decode(reverse(c)) = revCompl(decode(c)) |
| Codec.NoReversePalindrome | src/edu/nus/Util.kt:22 | for odd k no code equals its own reverse |
| Codec.CanonicalChoice | src/edu/nus/Util.kt:24-27 | the canonical code is c or reverse(c), is below 4^k and is not above c in signed 64-bit order; the flag is 0 exactly when c is kept because it is below its reverse |
| Codec.CanonicalSymmetric | src/edu/nus/Util.kt:23-27 | c and reverse(c) have the same canonical code; their flags differ exactly when c differs from reverse(c), which always holds for odd k |
| Codec.DecomposeKmer | src/edu/nus/Util.kt:55-63 | None exactly for a read shorter than K-1 (where the first slice of line 58 fails); otherwise one code per K-long window of the read, left to right, each the canonical code of that window's encoding |
| Codec.WindowCodesStep | src/edu/nus/Util.kt:58-61 | appending the canonical code of the next window keeps the list equal, position by position, to the canonical codes of the windows so far |
| Codec.RollWindow | src/edu/nus/Util.kt:58-60 | one rolling step turns the code of the last K-1 characters into the code of the next window, and that code reduced mod 4^(K-1) is the code of its last K-1 characters |
| Codec.RollAsWrittenBelow32 | src/edu/nus/Util.kt:57-60 | for 1 <= K <= 31 the mask as written is 4^K - 1, and the rolling step as written is the intended one |
| Codec.RollAsWrittenAt32 | src/edu/nus/Util.kt:57-60 | at K = 32 the mask as written is 0, so a step keeps only the new symbol: a read of 32 G's gets code 3 instead of its encoding |
| Codec.Pow4Fits | src/edu/nus/Desirable.kt:18 | 4^k fits in 64 bits for every k the validation accepts (k <= 32) |
| Codec.CodeFits | src/edu/nus/Desirable.kt:18 | every code of a valid K fits in 64 bits |
| Cli.ValidateKBound | src/edu/nus/Desirable.kt:18 | the validation fails exactly for K > 32; the positive values it accepts are exactly the K the 2-bit codec handles |
| Cli.IllegalFilesExact | src/edu/nus/Desirable.kt:26 | the refused paths are exactly the tokens that are neither "+" nor "-" and fail the file test |
| Cli.GroupsCount | src/edu/nus/Desirable.kt:28-32 | there are as many groups as "+" and "-" markers |
| Cli.GroupsFlatten | src/edu/nus/Desirable.kt:31-32 | when the first token is a marker, the groups laid end to end are the file tokens in their order, so none is lost or added |
| Cli.GroupsPlace | src/edu/nus/Desirable.kt:31-32 | a file token belongs to the group of the most recent marker before it |
| Cli.GroupsOwner | src/edu/nus/Desirable.kt:31-32 | every member of group j is a file token whose most recent marker opened group j |
| Cli.GroupsGrow | src/edu/nus/Desirable.kt:31-32 | reading one more token only extends the groups already open |
| Cli.FillGroups | src/edu/nus/Desirable.kt:28-32 | the grouping loop with its `row` counter yields exactly the groups of the list |
| Cli.Tokenizer | src/edu/nus/Desirable.kt:25-36 | the refused paths come first, as WrongFilePath with their list; then an empty list gives NoTokens; then a first token other than "+" gives TargetNotFirst; otherwise the result is the groups |
| Cli.FormatNames | src/edu/nus/Desirable.kt:40 | the format argument is one of fastq, fasta, fastqgz and fastagz |
| Cli.FormatExamples | src/edu/nus/Desirable.kt:40 | the usage text's file names get the formats fastq and fastqgz |
| Cli.Format | src/edu/nus/Desirable.kt:40 | the format starts with fastq exactly when the name contains fastq or fq (fasta otherwise), and ends in gz exactly when the name ends in .gz |
| Cli.ValidateK | src/edu/nus/Desirable.kt:18 | an accepted K is returned unchanged |
| Wrappers.Xor1 | src/edu/nus/Assembler.kt:25 | `xor 1` on an end flag gives the other flag |
| Graph.OtherEnd | src/edu/nus/Assembler.kt:25 | the other end has the same k-mer and the other flag |
| Graph.TakeLast | src/edu/nus/Assembler.kt:17 | `takeLast(n)` has length n, or the whole length of a shorter string |
| Graph.OrientedOtherEnd | src/edu/nus/Assembler.kt:17 | the k-mer read when leaving through the other end is the reverse complement |
| Graph.KeyOfOriented | src/edu/nus/Assembler.kt:16-19 | a node is the node of its own oriented k-mer |
| Graph.OrientedKeyOf | src/edu/nus/Assembler.kt:18 | the node of an odd-length DNA string t has a canonical k-mer, and its oriented k-mer is t |
| Graph.KeyOfRevCompl | src/edu/nus/Assembler.kt:18 | reading a k-mer from the other strand reaches the other end of the same node |
| Graph.WindowKeyIsOtherEnd | src/edu/nus/Assembler.kt:72 | a read window is looked up under the other end of the node whose oriented k-mer it is |
| Graph.DestOriented | src/edu/nus/Assembler.kt:16-19 | the oriented k-mer of dest(n, s) is the last K bases of n's oriented k-mer followed by s, and it is a canonical key |
| Build.NodeKmer | src/edu/nus/Assembler.kt:35 | the node string of a code is a DNA string of length K |
| Build.CodeOfNodeKmer | src/edu/nus/Assembler.kt:40-46 | the canonical code of the node string of a canonical code is that code |
| Build.NodeKmerOfCode | src/edu/nus/Assembler.kt:40-46 | the code of a canonical k-mer string is a canonical code, and its node string is the k-mer |
| Build.InitInv | src/edu/nus/Assembler.kt:34-38 | after the first loop, both ends of every k-mer exist, untagged and without edges, with every invariant of construction |
| Build.AddPairNodes | src/edu/nus/Assembler.kt:50-51 | adding an edge pair changes only its two nodes, each gaining its edge at the end of its list |
| Build.PrefixDests | src/edu/nus/Assembler.kt:44-51 | the two edges of a prefix pair lead to each other's other ends |
| Build.SuffixDests | src/edu/nus/Assembler.kt:53-58 | the two edges of a suffix pair lead to each other's other ends |
| Build.MirrorAddPair | src/edu/nus/Assembler.kt:46-58 | adding such a mirrored pair keeps the mirror property |
| Build.AddPairClosed | src/edu/nus/Assembler.kt:46-58 | adding a pair of DNA edges into the graph keeps every edge non-empty DNA that leads inside the graph |
| Build.AddPairNoSelfLoops | src/edu/nus/Assembler.kt:46-58 | adding a pair that joins distinct k-mers keeps the graph free of self loops |
| Build.AddPairInv | src/edu/nus/Assembler.kt:46-58 | one added mirrored pair of one-base edges keeps every invariant of construction |
| Build.PrefixPairInv | src/edu/nus/Assembler.kt:44-52 | the prefix neighbour step keeps every invariant of construction |
| Build.SuffixPairInv | src/edu/nus/Assembler.kt:53-59 | the suffix neighbour step keeps every invariant of construction |
| Build.KmerEdgesInv | src/edu/nus/Assembler.kt:43-60 | every prefix of the `for (c in "ATCG")` loop keeps every invariant of construction |
| Build.BuildInv | src/edu/nus/Assembler.kt:27-63 | in any iteration order of the k-mer map, both ends of every k-mer exist; every edge is one base with empty support sets and leads inside the graph; no edge joins a k-mer to itself; every edge has its mirrored partner |
| Build.SuffixLookupFails | src/edu/nus/Assembler.kt:53-58 | a round fails its lookup when the neighbour `suffix + c` has a code in the map below the k-mer's code but its node end was never created |
| Build.EvenKFails | src/edu/nus/Assembler.kt:53-58 | at K = 2 with the canonical codes {3, 13}, the round 'T' of code 13 dereferences the missing node ("AG", 1), so the `!!` of line 58 fails |
| Build.RoundFoundOdd | src/edu/nus/Assembler.kt:44-59 | at odd K every lookup of one round finds its node |
| Build.RoundsFoundOdd | src/edu/nus/Assembler.kt:43-60 | at odd K every lookup of the first n rounds finds its node |
| Build.EdgesFoundOdd | src/edu/nus/Assembler.kt:39-61 | at odd K no `!!` lookup of the second loop fails, in any order of the map |
| Build.RoundsFoundPrefix | src/edu/nus/Assembler.kt:43-60 | where the lookups of n rounds succeed, so do those of fewer rounds |
| Build.EdgesFoundPrefix | src/edu/nus/Assembler.kt:39-61 | where the lookups of an order succeed, so do those of each prefix of it |
| Build.EdgesFoundNext | src/edu/nus/Assembler.kt:39-61 | the lookups of the first i + 1 codes succeed exactly when those of the first i do and those of code i do; a failure there fails the whole order |
| Build.KmerEdgesNext | src/edu/nus/Assembler.kt:43-60 | one more round whose lookups succeed extends the rounds so far; one whose lookups fail fails the k-mer |
| Adjacency.BuildAdjacency | src/edu/nus/Assembler.kt:34-61 | at odd K, visiting every k-mer of the map once, the nodes are both ends of every k-mer, and each end has for each base exactly one edge with that base when it leads to a node on another k-mer, and none otherwise |
| Adjacency.BuildCounted | src/edu/nus/Assembler.kt:39-61 | after visiting a repetition-free order, each end has, per base, exactly one edge for each link whose larger k-mer (in the signed order of line 46) has been visited |
| Adjacency.AllDone | src/edu/nus/Assembler.kt:39-61 | once the larger k-mer of every link has been visited, each end has one edge by a base that links it to another node, and none by any other base |
| Adjacency.LargerIn | src/edu/nus/Assembler.kt:46 | both k-mers of a link are in the map, so the larger one is visited |
| Adjacency.KmerCounted | src/edu/nus/Assembler.kt:43-60 | the first n rounds of a k-mer's visit add exactly the edges of its first 2n steps |
| Adjacency.PrefixSound | src/edu/nus/Assembler.kt:44-52 | when the prefix pair joins, its two edges are links of the graph: end 0 of the k-mer by the complement of c, and the neighbour's node by the k-mer's last base |
| Adjacency.PrefixComplete | src/edu/nus/Assembler.kt:44-52 | only the prefix pair's two edges are due at its step |
| Adjacency.PrefixStep | src/edu/nus/Assembler.kt:44-52 | the prefix pair of round c adds exactly the edges of its step, and nothing else |
| Adjacency.SuffixSound | src/edu/nus/Assembler.kt:53-59 | when the suffix pair joins, its two edges are links of the graph: end 1 of the k-mer by c, and the other end of the neighbour's node by the complement of the k-mer's first base |
| Adjacency.SuffixComplete | src/edu/nus/Assembler.kt:53-59 | only the suffix pair's two edges are due at its step |
| Adjacency.SuffixStep | src/edu/nus/Assembler.kt:53-59 | the suffix pair of round c adds exactly the edges of its step, and nothing else |
| Adjacency.InitCounted | src/edu/nus/Assembler.kt:34-38 | before the second loop no node has an edge |
| Threading.FirstHit | src/edu/nus/Assembler.kt:71-78 | the first window at or after i whose node exists, with no hit before it; None exactly when no window hits |
| Threading.LastHit | src/edu/nus/Assembler.kt:79-86 | the last window at or before i whose node exists, with no hit after it; None exactly when no window hits |
| Threading.HitsTogether | src/edu/nus/Assembler.kt:71-86 | the left hit and the right hit exist together, and the left one is not after the right one |
| Threading.HitsSameKeys | src/edu/nus/Assembler.kt:71-86 | the hits depend only on which nodes exist |
| Threading.AddReadEndEffect | src/edu/nus/Assembler.kt:74 | only the named node gains the id, in its read-end set; no edge changes |
| Threading.AddReadStartEffect | src/edu/nus/Assembler.kt:75 | only the named node gains the id, in its read-start set; no edge changes |
| Threading.TagLeftEffect | src/edu/nus/Assembler.kt:73-77 | the left hit gains the id as a read end and its other end gains it as a read start; nothing else changes |
| Threading.TagRightEffect | src/edu/nus/Assembler.kt:81-85 | the right hit gains the id as a read start and its other end gains it as a read end; nothing else changes |
| Threading.TagReadEffect | src/edu/nus/Assembler.kt:68-87 | for one read, the left hit and the right hit's other end gain the id as a read end, and the right hit and the left hit's other end gain it as a read start; nothing else changes |
| Threading.TagReadsSameEdges | src/edu/nus/Assembler.kt:65-88 | loading read ends never changes any node's edges or the set of nodes |
| Threading.FindEdge | src/edu/nus/Assembler.kt:132 | the index of the first edge whose sequence starts with c; None exactly when no edge does |
| Threading.FindEdgeShapes | src/edu/nus/Assembler.kt:132 | the edge found depends only on the edges' sequences, not on their read sets |
| Threading.AddHopIfEffect | src/edu/nus/Assembler.kt:132-136 | exactly the found edge of the named node gains the id in its read-pass set |
| Threading.HopAtEdge | src/edu/nus/Assembler.kt:128-138 | under one window, an edge gains the id exactly when the window tags it (by the complement of the base before the window on the window's node, or by the base after it on the node's other end) |
| Threading.HopAtEffect | src/edu/nus/Assembler.kt:128-138 | one window changes only read-pass sets, each edge gaining the id exactly when the window tags it |
| Threading.HopToEffect | src/edu/nus/Assembler.kt:127-139 | after the first n windows of a read, an edge gains the id exactly when one of those windows tags it; the nodes and edge sequences stay as they were |
| Threading.HopReadsSameShape | src/edu/nus/Assembler.kt:121-141 | loading hops for any sequence of reads changes only the edges' read-pass sets |
| Threading.SameShapeKeeps | src/edu/nus/Assembler.kt:121-141 | a graph changed only in read-pass sets stays well formed and keeps its edges inside it |
| Contraction.Succ | src/edu/nus/Assembler.kt:98-103 | the successor map has an entry exactly for the interior nodes, those whose two ends each have one edge |
| Contraction.Trail | src/edu/nus/Assembler.kt:95-104 | a walk that ends stops at a node of the graph that has no successor |
| Contraction.Walk | src/edu/nus/Assembler.kt:95-104 | a chain walk that ends stops at a node of the graph that is not interior |
| Contraction.InteriorOtherEnd | src/edu/nus/Assembler.kt:116 | being interior is a property of the k-mer, the same at both ends |
| Contraction.PredOf | src/edu/nus/Assembler.kt:98-103 | with the mirror property, the node before an interior node is determined: the other end of where that node's other end leads |
| Contraction.SuccInjective | src/edu/nus/Assembler.kt:98-103 | distinct interior nodes have distinct successors |
| Contraction.ChaseDistinct | src/edu/nus/Assembler.kt:98-103 | a chain entered at a node without predecessor never revisits a node |
| Contraction.EntryHasNoPredecessor | src/edu/nus/Assembler.kt:107-111 | an interior node entered from a branching node is the successor of no interior node |
| Contraction.WalkTerminates | src/edu/nus/Assembler.kt:95-104 | entered through an edge of a branching node, the chain walk reaches a branching node within \|g\| steps |
| Contraction.TrailDest | src/edu/nus/Assembler.kt:97-103 | after the bases a walk appends, the last K bases spell the oriented k-mer of the node the walk stopped at |
| Contraction.TrailSpells | src/edu/nus/Assembler.kt:95-104 | the walk passes n interior nodes and stops at the next one; it appends one base per node, the last base of that node's oriented k-mer, and gathers the read starts and ends of exactly the nodes it passed |
| Contraction.Trim | src/edu/nus/Assembler.kt:112-113 | after trimming, a read id is in the start set exactly when it starts but does not end in the chain, and symmetrically for the end set; the two sets are disjoint and the pass set is empty |
| Contraction.TrimSpells | src/edu/nus/Assembler.kt:95-113 | the trimmed edge of a walk has those bases, and read sets that hold the ids starting or ending (not both) at the nodes passed |
| Contraction.CompactEdgeDest | src/edu/nus/Assembler.kt:109-111 | the new edge is the trimmed walk from the old edge's destination; its bases are DNA, begin with the old edge's base, and lead to the node the walk stopped at |
| Contraction.CompactEdgeChain | src/edu/nus/Assembler.kt:91-111 | the new edge stands for n+1 nodes: n interior ones, then the first node that is not interior, which the edge leads to |
| Contraction.CompactEdgeBases | src/edu/nus/Assembler.kt:97 | base i of the new edge is the base appended for the i-th node of the chain |
| Contraction.CompactEdgeReads | src/edu/nus/Assembler.kt:99-113 | the new edge has no read passes; a read id is in its start set exactly when the read starts, but does not end, at an interior node of the chain, and symmetrically for its end set |
| Contraction.CompactEdges | src/edu/nus/Assembler.kt:109-111 | each edge of a node is replaced, in place and in order, by its compacted edge |
| Contraction.Compacted | src/edu/nus/Assembler.kt:107-114 | compaction keeps the node set |
| Contraction.Prune | src/edu/nus/Assembler.kt:115-119 | the removal keeps exactly the nodes that are not interior |
| Contraction.CompactedInterior | src/edu/nus/Assembler.kt:107-116 | compaction keeps every node's number of edges, so it keeps which nodes are interior |
| Contraction.ContractedNode | src/edu/nus/Assembler.kt:107-119 | a surviving node is a non-interior node of the input, with its k-mer, end and tags, and its edges compacted in order |
| Contraction.ContractedKeys | src/edu/nus/Assembler.kt:115-119 | interior k-mers are removed with both ends, and every other node stays |
| Contraction.ContractedWellFormed | src/edu/nus/Assembler.kt:90-120 | the contracted graph is well formed; its edges lead inside it and have disjoint start and end sets and no passes; no interior node remains |
| Contraction.AgreeCompactEdge | src/edu/nus/Assembler.kt:107-114 | compacting some nodes first does not change the walks or the new edges of the others, so the map's iteration order does not matter |
| Contraction.SameEdgesReady | src/edu/nus/Assembler.kt:193-194 | loading read ends keeps a graph ready for contraction |
| Traversal.BestBranch | src/edu/nus/Assembler.kt:159 | the index of the first edge with the largest overlap with the walker's read set |
| Traversal.DrainEffect | src/edu/nus/Assembler.kt:160 | draining an edge keeps all nodes and edge sequences; it removes read-pass entries exactly when the edge shares ids with the read set |
| Traversal.MoveParts | src/edu/nus/Assembler.kt:152-166 | a turn that goes on drains the best branch, marks the k-mer with `readCnt`, and moves to the branch's destination; `readCnt` grows exactly when the branch shared ids with the read set |
| Traversal.StepOk | src/edu/nus/Assembler.kt:154-166 | a turn that goes on keeps the walker on a node of a graph whose edges lead inside it |
| Traversal.StepDecreases | src/edu/nus/Assembler.kt:152-166 | every turn that goes on decreases a measure of read-pass entries and unmarked nodes, so the `while (true)` loop ends |
| Traversal.HaltReason | src/edu/nus/Assembler.kt:152-156 | the walk stops exactly when the k-mer was marked with the current `readCnt` or the node has no edges; on a well-placed walker it never fails |
| Traversal.Traverse | src/edu/nus/Assembler.kt:145-169 | the walk always ends; it only appends bases, keeps the node set and earlier marks, marks the start, and stops on a k-mer marked with the final `readCnt`; from a well-placed walker it does not fail |
| Traversal.MaxLen | src/edu/nus/Assembler.kt:173 | the longest edge length of a list, or 0 for no edges |
| Traversal.LeavesOf | src/edu/nus/Assembler.kt:170-174 | every dead end of the map is listed as a leaf with the weight the source gives it, and only those; None exactly when some dead end lacks its other end |
| Traversal.InsertLeafPermutes | src/edu/nus/Assembler.kt:175 | inserting a leaf adds exactly that leaf |
| Traversal.SortLeavesFacts | src/edu/nus/Assembler.kt:175 | `sortBy { -weight }` orders the leaves heaviest first, loses and invents none, and keeps their order within each weight (a stable sort) |
| Traversal.SortedLeavesOf | src/edu/nus/Assembler.kt:170-175 | sorting keeps every leaf a dead end of the graph |
| Traversal.LeafStep | src/edu/nus/Assembler.kt:176-180 | a leaf whose k-mer was entered is skipped; any other adds one contig that starts with the leaf's k-mer read towards the walk; it does not fail when edges lead inside the graph |
| Traversal.Assemble | src/edu/nus/Assembler.kt:176-180 | the leaf loop only appends contigs, at most one per leaf and each from a leaf; it leaves every leaf's k-mer marked and never fails on a graph whose edges lead inside it |
| Traversal.ContigsNoCrash | src/edu/nus/Assembler.kt:143-182 | on a graph with both ends of every node and edges leading inside it, the traversal never fails and every contig starts from a dead end |
| Fasta.NatToString | src/edu/nus/Assembler.kt:187 | a number is written as a numeral without leading zeros |
| Fasta.ParseNatToString | src/edu/nus/Assembler.kt:187 | reading a written number back gives the number |
| Fasta.NatToStringParse | src/edu/nus/Assembler.kt:187 | writing the value of a numeral without leading zeros gives the numeral |
| Fasta.KeptFacts | src/edu/nus/Assembler.kt:184-186 | the kept contigs are exactly those longer than the limit, and their number is the printed count |
| Fasta.KeptSingle | src/edu/nus/Assembler.kt:186 | one contig is kept exactly when it is longer than the limit |
| Fasta.KeptConcat | src/edu/nus/Assembler.kt:184-186 | the filter keeps order: filtering a concatenation is filtering each part and concatenating the results |
| Fasta.RecordRoundTrip | src/edu/nus/Assembler.kt:187 | a record `>ExSeq<counter>_<length>` reads back as its counter and sequence, whatever follows it |
| Fasta.RecordsRoundTrip | src/edu/nus/Assembler.kt:186-188 | consecutive records read back as the numbered contigs |
| Fasta.FastaRoundTrip | src/edu/nus/Assembler.kt:183-190 | the written text reads back as the kept contigs numbered from 0 |
| Assembly.NodeDest | src/edu/nus/Assembler.kt:101 | `node.dest(0)` of an interior node is its successor |
| Assembly.CompactChain | src/edu/nus/Assembler.kt:91-106 | the loop of `compactChain` builds exactly the edge of the chain walk from its start node |
| Assembly.CompactEdgeAt | src/edu/nus/Assembler.kt:110-113 | the replacement edge with the ids shared by start and end removed is the compacted edge |
| Assembly.LeafHead | src/edu/nus/Assembler.kt:178 | a contig's head is the leaf's k-mer, reverse-complemented at end 1, as the oriented k-mer of the leaf's other end |
| Assembly.ThreadedClosed | src/edu/nus/Assembler.kt:191-195 | the graph handed to the traversal (built, end-tagged, contracted, hop-tagged) is well formed with edges leading inside it |
| Assembly.TaggedWellFormed | src/edu/nus/Assembler.kt:192-193 | the end-tagged graph is well formed, as contraction requires |
| Assembly.CompactedWellFormed | src/edu/nus/Assembler.kt:107-114 | compaction keeps a graph well formed |
| Assembly.WalkMove | src/edu/nus/Assembler.kt:152-166 | a turn that goes on leaves the rest of the walk unchanged and lowers the measure |
| Assembly.WalkHalts | src/edu/nus/Assembler.kt:152-156 | a walker on a k-mer marked with the current `readCnt` stops as it is; a walker on a node without edges stops after marking it |
| Assembly.WalkCrashes | src/edu/nus/Assembler.kt:154 | a walker on an unmarked k-mer whose node is missing fails the `!!` |
| Assembly.Assembler.constructor | src/edu/nus/Assembler.kt:6-8 | a new assembler has empty `nodes` and `contigs` |
| Assembly.Assembler.AddEdgeTo | src/edu/nus/Assembler.kt:50 | the `!!` lookup succeeds exactly when the key is a node; the edge is then appended to that node, and nothing else changes |
| Assembly.Assembler.AddPrefixEdges | src/edu/nus/Assembler.kt:44-52 | ok exactly when the two lookups of the prefix pair find their nodes; then the pair is added |
| Assembly.Assembler.AddSuffixEdges | src/edu/nus/Assembler.kt:53-59 | ok exactly when the two lookups of the suffix pair find their nodes; then the pair is added |
| Assembly.Assembler.AddNeighbours | src/edu/nus/Assembler.kt:44-59 | ok exactly when the four lookups of the round find their nodes; then the round adds the prefix pair, then the suffix pair |
| Assembly.Assembler.AddKmerEdges | src/edu/nus/Assembler.kt:43-60 | ok exactly when every lookup of the four rounds finds its node; then the base loop adds the edges of all four rounds |
| Assembly.Assembler.CreateNodes | src/edu/nus/Assembler.kt:34-38 | the first loop adds both ends of every k-mer as fresh nodes and nothing else |
| Assembly.Assembler.ConstructGraph | src/edu/nus/Assembler.kt:27-63 | ok exactly when no `!!` lookup fails over the map's iteration order; then the new `nodes` is the construction function over that order, so `Build.BuildInv` and `Adjacency.BuildAdjacency` apply |
| Assembly.Assembler.LeftHit | src/edu/nus/Assembler.kt:71-78 | the left-to-right loop finds the left hit |
| Assembly.Assembler.RightHit | src/edu/nus/Assembler.kt:79-86 | the right-to-left loop finds the right hit |
| Assembly.Assembler.TagLeft | src/edu/nus/Assembler.kt:74-75 | the left tags, applied in place |
| Assembly.Assembler.TagRight | src/edu/nus/Assembler.kt:82-83 | the right tags, applied in place |
| Assembly.Assembler.LoadReadEnds | src/edu/nus/Assembler.kt:65-88 | the read loop applies every read's end tags in order and changes no edge |
| Assembly.Assembler.AddHop | src/edu/nus/Assembler.kt:132 | the found edge's read-pass set gains the id, in place |
| Assembly.Assembler.HopWindow | src/edu/nus/Assembler.kt:128-138 | the two hops of one window |
| Assembly.Assembler.HopRead | src/edu/nus/Assembler.kt:127-139 | the window loop of one read applies every window's hops |
| Assembly.Assembler.LoadReadHops | src/edu/nus/Assembler.kt:121-141 | the read loop applies every read's hops in order and changes only read-pass sets |
| Assembly.Assembler.CompactAll | src/edu/nus/Assembler.kt:107-114 | the node loop, over any iteration order, yields the compacted graph |
| Assembly.Assembler.CompactNode | src/edu/nus/Assembler.kt:109-114 | the edge loop of one branching node replaces each of its edges by its compacted edge |
| Assembly.Assembler.PruneChains | src/edu/nus/Assembler.kt:115-119 | the removal loop over the end-0 keys yields exactly the non-interior nodes |
| Assembly.Assembler.PruneKmer | src/edu/nus/Assembler.kt:116-119 | one turn of the removal loop drops both ends of an interior k-mer and keeps any other |
| Assembly.Assembler.PathContraction | src/edu/nus/Assembler.kt:90-120 | `pathContraction` yields the contracted graph, so `Contraction.ContractedWellFormed` applies |
| Assembly.Assembler.Dfs | src/edu/nus/Assembler.kt:145-169 | the `dfs` loop computes the walk: it fails exactly when the walk does, and otherwise returns its bases and `visit` map and leaves the drained graph |
| Assembly.Assembler.CollectLeaves | src/edu/nus/Assembler.kt:170-174 | the leaf loop collects exactly the leaves of the map in its iteration order |
| Assembly.Assembler.AddContigs | src/edu/nus/Assembler.kt:176-180 | the contig loop succeeds exactly when the leaf loop does, and then leaves its graph and contigs |
| Assembly.Assembler.GetContigByTraverse | src/edu/nus/Assembler.kt:143-182 | collecting, sorting and walking yield the traversal's graph and contigs, succeeding exactly when it does |
| Assembly.Assembler.WriteContigsToFasta | src/edu/nus/Assembler.kt:183-190 | the text written is the FASTA text of the contigs longer than the limit, so `Fasta.FastaRoundTrip` applies |
| Assembly.Assembler.KeyOrder | src/edu/nus/Assembler.kt:107 | an iteration order lists every key of `nodes` exactly once |
| Assembly.Assembler.Prepare | src/edu/nus/Assembler.kt:192-195 | the four graph phases in order yield the threaded graph |
| Assembly.Assembler.Run | src/edu/nus/Assembler.kt:191-198 | with an odd K of at most 32, no `!!` fails; the text is the FASTA text of the contigs, and every new contig starts from a dead end of the threaded graph |
| KmerAnalysis.HistogramCounts | src/edu/nus/KmerAnalyzer.kt:7-14 | the spectrum has an entry exactly for the frequencies that occur, and each entry is that frequency's number of lines |
| KmerAnalysis.HistogramMass | src/edu/nus/KmerAnalyzer.kt:7-14 | the spectrum's counts add up to the number of lines |
| KmerAnalysis.GenerateKmerSpectrum | src/edu/nus/KmerAnalyzer.kt:7-14 | the line loop builds the histogram of the frequencies |
| KmerAnalysis.InsertEntryAscending | src/edu/nus/KmerAnalyzer.kt:17 | inserting an entry with a new frequency keeps the list strictly ascending |
| KmerAnalysis.InsertEntry | src/edu/nus/KmerAnalyzer.kt:17 | inserting adds one entry and holds exactly the old entries and the new one |
| KmerAnalysis.SortedSpectrum | src/edu/nus/KmerAnalyzer.kt:17 | `toList().sortedBy { it.first }` lists every entry of the spectrum by ascending frequency, whatever the map's order |
| KmerAnalysis.ScanFirst | src/edu/nus/KmerAnalyzer.kt:20-24 | `first` returns the first index where the lambda returns true, with the mass accumulated there; it fails exactly when there is no such index |
| KmerAnalysis.Scan | src/edu/nus/KmerAnalyzer.kt:20-24 | the index found is at or after the start, and an entry follows it |
| KmerAnalysis.TroughScan | src/edu/nus/KmerAnalyzer.kt:19-24 | the loop with its running `accumulate` computes the search |
| KmerAnalysis.BestPeak | src/edu/nus/KmerAnalyzer.kt:26 | `maxBy` picks the first entry of largest mass among those with frequency at least the trough; None exactly when there are none |
| KmerAnalysis.FirstStopIsScan | src/edu/nus/KmerAnalyzer.kt:20-24 | an index where the lambda first returns true is the one the search returns, with `accumulate` there, so there is at most one |
| KmerAnalysis.TroughPeakFacts | src/edu/nus/KmerAnalyzer.kt:16-29 | with j the index `first` returns, the trough is 0 exactly when the accumulated mass at j is more than half the total, and otherwise the frequency of entry j, the first whose count does not fall; no other value is a trough; the peak is a frequency at least the trough, of largest mass; the result is None exactly when there is no such j or no entry reaches the trough |
| KmerAnalysis.TroughsAgree | src/edu/nus/KmerAnalyzer.kt:19-25 | every trough is the one the search finds; when the search gives None, a trough would lie above every frequency |
| KmerAnalysis.TroughFound | src/edu/nus/KmerAnalyzer.kt:19-28 | the trough the search finds is a trough, and the peak found is a peak for it |
| KmerAnalysis.TroughPeakOfSorted | src/edu/nus/KmerAnalyzer.kt:18-28 | the method computes the trough and the peak of a sorted spectrum |
| KmerAnalysis.GetSpectrumTroughPeak | src/edu/nus/KmerAnalyzer.kt:16-29 | the sorted spectrum of the count file's frequencies, with its trough taken as a frequency, and its peak |
| KmerAnalysis.TroughAsWrittenIsIndex | src/edu/nus/KmerAnalyzer.kt:20-25 | as written, with j the index `first` returns, the trough is 0 when the accumulated mass at j is more than half the total, and otherwise j itself, not that entry's frequency |
| KmerAnalysis.ExampleScan | src/edu/nus/KmerAnalyzer.kt:20-24 | on the example spectrum the search stops at index 1 with mass 200 |
| KmerAnalysis.ExamplePeak | src/edu/nus/KmerAnalyzer.kt:26 | on the example spectrum the peak is frequency 10 for every trough up to 10 |
| KmerAnalysis.TroughIsIndexFinding | src/edu/nus/KmerAnalyzer.kt:20-26 | on the example spectrum the source's trough is 1 while the first local minimum of the counts is at frequency 3 |
| KmerAnalysis.LessTransitive | src/edu/nus/KmerAnalyzer.kt:40 | the string order of the k-mer comparison is transitive |
| KmerAnalysis.BlankFirst | src/edu/nus/KmerAnalyzer.kt:34-40 | the blank the control cursor starts from sorts before every k-mer |
| KmerAnalysis.Advance | src/edu/nus/KmerAnalyzer.kt:40-44 | the inner loop only moves the control cursor forward, within the file |
| KmerAnalysis.AdvanceFinds | src/edu/nus/KmerAnalyzer.kt:40-44 | on a sorted control file the cursor stops on the target k-mer exactly when the control has it, and then on its line |
| KmerAnalysis.MergeRow | src/edu/nus/KmerAnalyzer.kt:37-46 | one target line keeps the control cursor within the control file |
| KmerAnalysis.OnlyLine | src/edu/nus/KmerAnalyzer.kt:45 | in a sorted control file a k-mer has one line, so the suppression test is that line's frequency |
| KmerAnalysis.MergeRowExclusive | src/edu/nus/KmerAnalyzer.kt:37-46 | one target line keeps its code exactly when it passes the target trough and the control does not have it at or above the control trough; it goes into the filter exactly when it passes the target trough |
| KmerAnalysis.MergeFrom | src/edu/nus/KmerAnalyzer.kt:36-47 | the outer loop from a well-placed cursor never fails and keeps and inserts what the line-by-line rule says |
| KmerAnalysis.FilterTargetKmerByControl | src/edu/nus/KmerAnalyzer.kt:31-50 | the reader loops compute the merge: its kept k-mers by code and the codes inserted into the filter, failing exactly when it does |
| KmerAnalysis.MergeKeepsExclusive | src/edu/nus/KmerAnalyzer.kt:31-50 | on sorted count files the merge never fails, keeps exactly the target lines at or above the target trough that the control does not have at or above its trough, and inserts the codes of all target lines at or above the target trough |
| KmerAnalysis.ExclusiveHas | src/edu/nus/KmerAnalyzer.kt:31-50 | a code is kept exactly when some target line with that code passes both troughs |
| KmerAnalysis.InsertedHas | src/edu/nus/KmerAnalyzer.kt:38-39 | a code is in the filter exactly when some target line with that code is at or above the target trough |
| KmerAnalysis.AnyKept | src/edu/nus/KmerAnalyzer.kt:57 | true exactly when some code of the read is kept |
| KmerAnalysis.SetOnes | src/edu/nus/KmerAnalyzer.kt:58 | every code of the read that is in the filter is set to 1, and nothing else changes |
| KmerAnalysis.ScreenReads | src/edu/nus/KmerAnalyzer.kt:53-60 | the read loop computes the screen over all reads |
| KmerAnalysis.ScreenAdds | src/edu/nus/KmerAnalyzer.kt:53-60 | the screen keeps every key and adds only codes in the filter; every key holds its old value or is a filter code set to 1 |
| KmerAnalysis.RefilterByTarget | src/edu/nus/KmerAnalyzer.kt:61-68 | the final loop computes the pass over the target lines |
| KmerAnalysis.RefilterKeeps | src/edu/nus/KmerAnalyzer.kt:61-68 | a code survives exactly when it was in the map and no target line with that code is below the target trough; it carries the frequency of its last line, or keeps its value when no line has its code |
| KmerAnalysis.RefilterSnoc | src/edu/nus/KmerAnalyzer.kt:61-68 | the final pass over one more line is the pass over the earlier lines followed by that line's step |
| KmerAnalysis.FilterTargetByControl | src/edu/nus/KmerAnalyzer.kt:51-70 | the merge, then the read screen, then the final pass; None exactly when the merge fails |
| KmerAnalysis.SelectionFacts | src/edu/nus/KmerAnalyzer.kt:51-70 | on sorted count files every selected code is the code of a target line at or above the target trough; every line with that code is at or above it; the code holds the frequency of the last such line |

## Left out

- File and stream I/O is not modelled: `ReadFileReader`, the count-file readers, the FASTA writer and every `println`. Reads are given as `Threading.Read` values, count files as their parsed `Row`s or frequencies, and the FASTA output as its text.
- Read ids are given directly as integers. Their computation, `(file.absolutePath + readname).hashCode()`, is not modelled.
- `HashMap` iteration order is not modelled. Where it matters, the order is a parameter: the k-mer map in `ConstructGraph` and the node map in `GetContigByTraverse`. `CompactAll` and `SortedSpectrum` leave the order open, and `Contraction.AgreeCompactEdge` shows that compaction does not depend on it.
- The Bloom filter of KmerAnalyzer.kt (line 6) is modelled as the exact set of inserted codes, so its false positives are not modelled. BloomFilter.kt is not part of this model.
- The k-mer counting of Desirable.kt is not modelled: `countKmerInFile`, the external `KAnalyzeModule` command, `run` and the clikt option plumbing. The `-k` check and the format argument are modelled.
- KmerOperator.kt is not part of this model.
- Cli.Tokenizer: the file test `File(it).isFile` is a parameter. An empty token list fails with `NoTokens`, which stands for the index error of `control[0]`. Printing the groups is left out.
- Cli.ValidateK lets K <= 0 through, as the source does. `ValidateKBound` states which values reach the codec.
- The 64-bit signed overflow of the spectrum's `total` and `accumulate` (KmerAnalyzer.kt lines 18-22) is not modelled; they are unbounded integers.
- KmerAnalysis.Scan: the Double comparison `accumulate > total * 0.5` is modelled as `2 * accumulate > total`. That is the same test unless rounding a Long to a Double changes it (values above 2^53).
- Contraction.CompactEdge: when a chain walk fails a `!!` or runs past |g| nodes, the model keeps the old edge, where the source raises an exception or loops. On the graphs the assembler builds neither happens (`WalkTerminates`), and a node with an empty k-mer cannot occur in a well-formed graph.
- Contraction.Walk: the walk is cut off after |g| nodes, a fuel bound. `WalkTerminates` shows the bound is never reached from a branching node of a constructed graph.
- Traversal.Traverse: the walk itself needs no fuel. The time bound "edge count × small constant" is not stated; termination is proved by a decreasing measure.
- The mirror property is proved for the constructed graph. It is not proved for the contracted graph, and nothing downstream needs it.
- Contracting an already contracted graph is not a no-op, and no idempotence lemma is stated.
- The contigs are not proved to spell a path of the graph's k-mers. At end 0 the source appends `UtilString.reverse` of the edge sequence (Assembler.kt line 163), and this is modelled as written.
- The example scenarios of a three-k-mer chain and of a read-supported branch are not evaluated end to end. Construction, contraction and traversal are stated for all inputs instead.
- Assembly.Assembler.Run starts from an assembler with an empty `nodes` map, as a fresh `Assembler()` has.
- Assembly.Assembler.Run: requires an odd K. Desirable.kt line 18 also accepts even K, and there construction can fail a `!!` lookup (`ConstructGraph` then returns false, and `Build.EvenKFails` gives an input). The phases after construction are modelled for odd K only.
- Adjacency.BuildAdjacency: assumes the iteration order lists each k-mer of the map once, as a `HashMap` iteration does. `ConstructGraph` itself accepts any order that covers the map.
- The two edges of a pair share their three `HashSet`s in the source (Assembler.kt lines 47-51 and 54-58). In the model each edge has its own sets. Contraction replaces every edge of every surviving node by a fresh one before any edge set is written, so the sharing is never observed.
- Desirable.kt lines 56-61 use signatures that do not match the classes shown: a `filterTargetByControl()` with no arguments, `Assembler(this)`, and `writeContigsToFasta(minLength)` without a file. KmerAnalyzer.kt line 56 also passes an argument to the no-argument `decomposeKmer`. The model follows the definitions, not these calls.

## Findings

| source | as written | input that shows it | evidently intended | confidence | as-written member | corrected member |
|---|---|---|---|---|---|---|
| src/edu/nus/Util.kt:57 | the mask `(1L shl 2*K)-1`; a Long shift uses its distance mod 64, so at K = 32 the mask is 0 and every rolling step keeps only the newest base | K = 32, which the check at Desirable.kt:18 accepts, and a read of 32 G's: the window's code comes out as 3 instead of its encoding | a mask of all 64 bits at K = 32, so each code is the window's encoding | not executed | Codec.RollAsWrittenAt32 | Codec.DecomposeKmer |
| src/edu/nus/KmerAnalyzer.kt:20-26 | the trough is the index `indices.first` returns, compared with frequencies at line 26 and returned as the error threshold | the spectrum (2,100), (3,10), (4,20), (10,50): the trough comes out as 1, while the first local minimum of the counts is at frequency 3 | the frequency of the entry at that index, `spectrum[trough].first` | not executed | KmerAnalysis.TroughIsIndexFinding | KmerAnalysis.GetSpectrumTroughPeak |
