/** The command-line logic of Desirable.kt: the grouping of the FILES tokens into the
    target sample and the background samples (`tokenizer`), the bound on K, and the input
    format the k-mer counter is told. The file-system test for a path is a parameter. */
module Cli {
  import opened Wrappers
  import Codec

  // ---------------------------------------------------------------------------
  // The FILES tokens (`tokenizer`, lines 25-36)

  /** A token opening a sample: "+" for the target, "-" for a background. */
  predicate IsMarker(t: string) {
    t == "+" || t == "-"
  }

  /** Why the tokens are refused, as the messages the source raises say. */
  datatype TokenError =
    | WrongFilePath(paths: seq<string>)  // some paths are not files (lines 26-27)
    | TargetNotFirst                     // the first token is not "+" (line 29)
    | NoTokens                           // `control[0]` of an empty list

  /** `control.filter { it != "+" && it != "-" }.filter { !File(it).isFile }`. */
  function IllegalFiles(control: seq<string>, isFile: string -> bool): seq<string>
    decreases |control|
  {
    if |control| == 0 then []
    else
      var t := control[|control| - 1];
      IllegalFiles(control[..|control| - 1], isFile) + (if !IsMarker(t) && !isFile(t) then [t] else [])
  }

  /** `control.count { it == "+" || it == "-" }`. */
  function CountMarkers(control: seq<string>): nat
    decreases |control|
  {
    if |control| == 0 then 0
    else CountMarkers(control[..|control| - 1]) + (if IsMarker(control[|control| - 1]) then 1 else 0)
  }

  /** The tokens that are not markers, in order. */
  function Files(control: seq<string>): seq<string>
    decreases |control|
  {
    if |control| == 0 then []
    else
      var t := control[|control| - 1];
      Files(control[..|control| - 1]) + (if IsMarker(t) then [] else [t])
  }

  /** The groups after reading the tokens in turn: a marker opens a new group, any other
      token joins the last group. */
  function Groups(control: seq<string>): seq<seq<string>>
    decreases |control|
  {
    if |control| == 0 then []
    else
      var g := Groups(control[..|control| - 1]);
      var t := control[|control| - 1];
      if IsMarker(t) then g + [[]]
      else if |g| == 0 then g
      else g[..|g| - 1] + [g[|g| - 1] + [t]]
  }

  /** The groups laid end to end. */
  function Flatten(groups: seq<seq<string>>): seq<string>
    decreases |groups|
  {
    if |groups| == 0 then [] else Flatten(groups[..|groups| - 1]) + groups[|groups| - 1]
  }

  /** The refused paths are exactly the non-marker tokens that are not files. */
  lemma {:induction false} IllegalFilesExact(control: seq<string>, isFile: string -> bool)
    ensures forall t :: t in IllegalFiles(control, isFile) <==> t in control && !IsMarker(t) && !isFile(t)
    decreases |control|
  {
    if |control| > 0 {
      var p := control[..|control| - 1];
      IllegalFilesExact(p, isFile);
      assert control == p + [control[|control| - 1]];
    }
  }

  /** There are as many groups as markers. */
  lemma {:induction false} GroupsCount(control: seq<string>)
    ensures |Groups(control)| == CountMarkers(control)
    decreases |control|
  {
    if |control| > 0 {
      GroupsCount(control[..|control| - 1]);
    }
  }

  lemma FlattenSnoc(groups: seq<seq<string>>, last: seq<string>, t: string)
    ensures Flatten(groups + [last + [t]]) == Flatten(groups + [last]) + [t]
  {
    assert (groups + [last + [t]])[..|groups|] == groups;
    assert (groups + [last])[..|groups|] == groups;
  }

  /** When the first token is a marker, the groups laid end to end are the file tokens in
      their order. */
  lemma {:induction false} GroupsFlatten(control: seq<string>)
    requires |control| > 0 ==> IsMarker(control[0])
    ensures Flatten(Groups(control)) == Files(control)
    decreases |control|
  {
    if |control| > 0 {
      var p := control[..|control| - 1];
      var t := control[|control| - 1];
      assert |p| > 0 ==> p[0] == control[0];
      GroupsFlatten(p);
      var g := Groups(p);
      if IsMarker(t) {
        assert (g + [[]])[..|g|] == g;
      } else if |g| == 0 {
        GroupsCount(p);
        if |p| > 0 {
          CountMarkersPositive(p);
        }
        assert false;
      } else {
        assert g == g[..|g| - 1] + [g[|g| - 1]];
        FlattenSnoc(g[..|g| - 1], g[|g| - 1], t);
      }
    }
  }

  /** A list opening with a marker has a marker. */
  lemma {:induction false} CountMarkersPositive(control: seq<string>)
    requires |control| > 0 && IsMarker(control[0])
    ensures CountMarkers(control) > 0
    decreases |control|
  {
    if |control| > 1 {
      CountMarkersPositive(control[..|control| - 1]);
    }
  }

  /** A token joins the group of the most recent marker before it: the group numbered by
      the count of markers before it, less one. */
  lemma {:induction false} GroupsPlace(control: seq<string>, i: nat)
    requires i < |control| && !IsMarker(control[i]) && CountMarkers(control[..i]) > 0
    ensures CountMarkers(control[..i]) - 1 < |Groups(control)|
    ensures control[i] in Groups(control)[CountMarkers(control[..i]) - 1]
    decreases |control|
  {
    var p := control[..|control| - 1];
    var t := control[|control| - 1];
    GroupsCount(p);
    GroupsCount(control);
    if i == |control| - 1 {
      assert control[..i] == p;
    } else {
      assert control[..i] == p[..i];
      GroupsPlace(p, i);
      GroupsGrow(control);
      assert control[i] == p[i];
    }
  }

  /** Reading one more token only extends the groups already open. */
  lemma GroupsGrow(control: seq<string>)
    requires |control| > 0
    ensures var g := Groups(control[..|control| - 1]); var h := Groups(control);
      |g| <= |h| && forall j :: 0 <= j < |g| ==> g[j] <= h[j]
  {
  }

  /** A member of a group is a token whose most recent marker opened that group. */
  lemma {:induction false} GroupsOwner(control: seq<string>, j: nat, x: string)
    requires j < |Groups(control)| && x in Groups(control)[j]
    ensures exists i :: 0 <= i < |control| && control[i] == x && !IsMarker(x) && CountMarkers(control[..i]) == j + 1
    decreases |control|
  {
    var p := control[..|control| - 1];
    var t := control[|control| - 1];
    var g := Groups(p);
    GroupsCount(p);
    if j < |g| && x in g[j] {
      GroupsOwner(p, j, x);
      var i :| 0 <= i < |p| && p[i] == x && !IsMarker(x) && CountMarkers(p[..i]) == j + 1;
      assert control[..i] == p[..i];
    } else {
      assert control[..|control| - 1] == p;
    }
  }

  /** `tokenizer`: the refused paths first, then the target check, then the groups. */
  method Tokenizer(control: seq<string>, isFile: string -> bool) returns (r: Result<seq<seq<string>>, TokenError>)
    ensures IllegalFiles(control, isFile) != [] ==> r == Err(WrongFilePath(IllegalFiles(control, isFile)))
    ensures IllegalFiles(control, isFile) == [] && |control| == 0 ==> r == Err(NoTokens)
    ensures IllegalFiles(control, isFile) == [] && |control| > 0 && control[0] != "+" ==> r == Err(TargetNotFirst)
    ensures IllegalFiles(control, isFile) == [] && |control| > 0 && control[0] == "+" ==> r == Ok(Groups(control))
  {
    var illegalFile := IllegalFiles(control, isFile);
    if illegalFile != [] {
      return Err(WrongFilePath(illegalFile));
    }
    if |control| == 0 {
      return Err(NoTokens);
    }
    if control[0] != "+" {
      return Err(TargetNotFirst);
    }
    var fileGroup := FillGroups(control);
    r := Ok(fileGroup);
  }

  /** The grouping loop: `fileGroup` has one list per marker, and `row`, counting the
      markers read so far less one, says which list a file token joins. */
  method FillGroups(control: seq<string>) returns (groups: seq<seq<string>>)
    requires |control| > 0 && IsMarker(control[0])
    ensures groups == Groups(control)
  {
    var n := CountMarkers(control);
    var fileGroup := new seq<string>[n](_ => []);
    var row := -1;
    for i := 0 to |control|
      invariant row == CountMarkers(control[..i]) - 1 && row < n
      invariant i > 0 ==> row >= 0
      invariant fileGroup[..row + 1] == Groups(control[..i])
      invariant forall j :: row + 1 <= j < n ==> fileGroup[j] == []
    {
      PrefixStep(control, i);
      if IsMarker(control[i]) {
        ghost var before := fileGroup[..row + 1];
        row := row + 1;
        assert fileGroup[..row + 1] == before + [fileGroup[row]];
      } else {
        ghost var before := fileGroup[..row + 1];
        fileGroup[row] := fileGroup[row] + [control[i]];
        assert fileGroup[..row + 1] == before[..row] + [before[row] + [control[i]]];
      }
    }
    PrefixStep(control, |control| - 1);
    assert row + 1 == n;
    assert fileGroup[..] == fileGroup[..row + 1];
    groups := fileGroup[..];
  }

  /** What one more token does to the markers counted and the groups. */
  lemma PrefixStep(control: seq<string>, i: nat)
    requires i < |control| && IsMarker(control[0])
    ensures var p, q := control[..i], control[..i + 1];
      q[..i] == p && q[i] == control[i]
      && CountMarkers(q) == CountMarkers(p) + (if IsMarker(control[i]) then 1 else 0)
      && CountMarkers(q) <= CountMarkers(control) && |Groups(p)| == CountMarkers(p)
      && (i > 0 ==> CountMarkers(p) > 0)
      && Groups(q) == (if IsMarker(control[i]) then Groups(p) + [[]]
                       else if |Groups(p)| == 0 then Groups(p)
                       else Groups(p)[..|Groups(p)| - 1] + [Groups(p)[|Groups(p)| - 1] + [control[i]]])
      && (i + 1 == |control| ==> q == control)
  {
    var p, q := control[..i], control[..i + 1];
    assert q[..i] == p;
    CountMarkersPrefix(control, i + 1);
    GroupsCount(p);
    if i > 0 {
      assert p[0] == control[0];
      CountMarkersPositive(p);
    }
  }

  /** A prefix has at most the markers of the whole list. */
  lemma {:induction false} CountMarkersPrefix(control: seq<string>, i: nat)
    requires i <= |control|
    ensures CountMarkers(control[..i]) <= CountMarkers(control)
    decreases |control|
  {
    if i < |control| {
      var p := control[..|control| - 1];
      assert control[..i] == p[..i];
      CountMarkersPrefix(p, i);
    } else {
      assert control[..i] == control;
    }
  }

  // ---------------------------------------------------------------------------
  // The bound on K (line 18)

  /** The `-k` option's validation: more than 32 fails with the source's message, any
      other value becomes the k-mer size. */
  function ValidateK(k: int): (r: Result<int, string>)
    ensures r.Ok? ==> r.value == k
  {
    if k > 32 then Err("only support K <= 32") else Ok(k)
  }

  /** The validation rejects exactly the values above 32; the positive values it accepts
      are the sizes the 2-bit codec handles, while it lets 0 and negative values through. */
  lemma ValidateKBound(k: int)
    ensures ValidateK(k).Err? <==> k > 32
    ensures ValidateK(k).Ok? && k >= 1 <==> Codec.ValidK(k)
  {
  }

  // ---------------------------------------------------------------------------
  // The input format (line 40)

  /** `name.contains(w)`. */
  predicate HasInfix(name: string, w: string)
    decreases |name|
  {
    HasPrefix(name, w) || (|name| > 0 && HasInfix(name[1..], w))
  }

  /** `name.startsWith(w)`. */
  predicate HasPrefix(name: string, w: string) {
    |w| <= |name| && name[..|w|] == w
  }

  /** `name.endsWith(w)`. */
  predicate HasSuffix(name: string, w: string) {
    |w| <= |name| && name[|name| - |w|..] == w
  }

  /** The format argument of the counting command: "fastq" for a name containing "fastq"
      or "fq", "fasta" otherwise, followed by "gz" for a name ending in ".gz". */
  function Format(filename: string): (r: string)
    ensures |r| >= 5
    ensures r[..5] == (if HasInfix(filename, "fastq") || HasInfix(filename, "fq") then "fastq" else "fasta")
    ensures r[5..] == (if HasSuffix(filename, ".gz") then "gz" else "")
  {
    (if HasInfix(filename, "fastq") || HasInfix(filename, "fq") then "fastq" else "fasta")
      + if HasSuffix(filename, ".gz") then "gz" else ""
  }

  /** The format names the source can pass: the base format, then an optional "gz". */
  lemma FormatNames(filename: string)
    ensures var r := Format(filename); r == "fastq" || r == "fasta" || r == "fastqgz" || r == "fastagz"
  {
    var r := Format(filename);
    assert r == r[..5] + r[5..];
  }

  /** File names of the usage text. */
  lemma FormatExamples()
    ensures Format("t_1.fq") == "fastq"
    ensures Format("bg1_1.fq.gz") == "fastqgz"
  {
    var a, b := "t_1.fq", "bg1_1.fq.gz";
    assert HasPrefix(a[4..], "fq");
    assert a[1..][1..][1..][1..] == a[4..];
    assert HasInfix(a, "fq");
    assert a[|a| - 3..] != ".gz" by {
      assert a[|a| - 3..][1] == 'f';
    }
    assert HasPrefix(b[6..], "fq");
    assert b[1..][1..][1..][1..][1..][1..] == b[6..];
    assert HasInfix(b, "fq");
    assert b[|b| - 3..] == ".gz";
  }
}
