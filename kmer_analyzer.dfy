/** Exclusive k-mer selection of KmerAnalyzer.kt: the frequency histogram of a k-mer count
    file, the trough and peak read off its sorted spectrum, the merge of the sorted target
    and control count files that keeps the target k-mers the control lacks, and the final
    pass over the target file. Count files are given as their rows; reading and splitting
    the lines is left to the caller. */
module KmerAnalysis {
  import opened Wrappers
  import Codec
  import Dna

  // ---------------------------------------------------------------------------
  // The histogram (`generateKmerSpectrum`, lines 7-14)

  /** How many of the frequencies are f. */
  function Count(freqs: seq<int>, f: int): nat
    decreases |freqs|
  {
    if |freqs| == 0 then 0
    else Count(freqs[..|freqs| - 1], f) + (if freqs[|freqs| - 1] == f then 1 else 0)
  }

  /** `spectrum[freq] = spectrum.getOrDefault(freq, 0) + 1` for every line in turn. */
  function Histogram(freqs: seq<int>): map<int, nat>
    decreases |freqs|
  {
    if |freqs| == 0 then map[]
    else
      var m := Histogram(freqs[..|freqs| - 1]);
      var f := freqs[|freqs| - 1];
      m[f := (if f in m then m[f] else 0) + 1]
  }

  /** The histogram has an entry exactly for the frequencies that occur, and it counts them. */
  lemma {:induction false} HistogramCounts(freqs: seq<int>)
    ensures forall f :: f in Histogram(freqs) <==> f in freqs
    ensures forall f :: Count(freqs, f) == if f in Histogram(freqs) then Histogram(freqs)[f] else 0
    ensures forall f | f in Histogram(freqs) :: Histogram(freqs)[f] > 0
    decreases |freqs|
  {
    if |freqs| > 0 {
      var p := freqs[..|freqs| - 1];
      HistogramCounts(p);
      assert freqs == p + [freqs[|freqs| - 1]];
      forall f ensures f in freqs <==> f in p || f == freqs[|freqs| - 1] {
        if f in freqs {
          var i :| 0 <= i < |freqs| && freqs[i] == f;
          if i < |freqs| - 1 {
            assert p[i] == f;
          }
        }
      }
    }
  }

  /** The sum of a map's counts. */
  ghost function SumCounts(m: map<int, nat>): nat
    decreases |m|
  {
    if m == map[] then 0
    else
      NonEmptyHasKey(m);
      var f :| f in m;
      m[f] + SumCounts(m - {f})
  }

  lemma NonEmptyHasKey(m: map<int, nat>)
    requires m != map[]
    ensures exists f :: f in m
  {
    if forall f :: f !in m {
      assert false;
    }
  }

  /** SumCounts may take out any key first. */
  lemma {:induction false} SumCountsAt(m: map<int, nat>, f: int)
    requires f in m
    ensures SumCounts(m) == m[f] + SumCounts(m - {f})
    decreases |m|
  {
    var g :| g in m && SumCounts(m) == m[g] + SumCounts(m - {g});
    if g != f {
      var mg := m - {g};
      var mf := m - {f};
      SumCountsAt(mg, f);
      SumCountsAt(mf, g);
      assert mg - {f} == mf - {g};
    }
  }

  lemma SumCountsUpdate(m: map<int, nat>, f: int, v: nat)
    ensures SumCounts(m[f := v]) == SumCounts(m) - (if f in m then m[f] else 0) + v
  {
    var n := m[f := v];
    SumCountsAt(n, f);
    assert n - {f} == m - {f};
    if f in m {
      SumCountsAt(m, f);
    } else {
      assert m - {f} == m;
    }
  }

  /** The counts add up to the number of lines. */
  lemma {:induction false} HistogramMass(freqs: seq<int>)
    ensures SumCounts(Histogram(freqs)) == |freqs|
    decreases |freqs|
  {
    if |freqs| > 0 {
      var p := freqs[..|freqs| - 1];
      var f := freqs[|freqs| - 1];
      HistogramMass(p);
      var m := Histogram(p);
      SumCountsUpdate(m, f, (if f in m then m[f] else 0) + 1);
    }
  }

  /** `generateKmerSpectrum` over the second fields of the count file's lines. */
  method GenerateKmerSpectrum(freqs: seq<int>) returns (spectrum: map<int, nat>)
    ensures spectrum == Histogram(freqs)
  {
    spectrum := map[];
    var i := 0;
    while i < |freqs|
      invariant 0 <= i <= |freqs| && spectrum == Histogram(freqs[..i])
    {
      var freq := freqs[i];
      assert freqs[..i + 1][..i] == freqs[..i];
      spectrum := spectrum[freq := (if freq in spectrum then spectrum[freq] else 0) + 1];
      i := i + 1;
    }
    assert freqs[..|freqs|] == freqs;
  }

  // ---------------------------------------------------------------------------
  // The sorted spectrum (`toList().sortedBy { it.first }`, line 17)

  /** An entry: a frequency and how many k-mers have it. */
  type Entry = (int, nat)

  /** The frequencies of s ascend strictly. */
  predicate Ascending(s: seq<Entry>) {
    forall i, j :: 0 <= i < j < |s| ==> s[i].0 < s[j].0
  }

  /** s lists the entries of m whose frequencies are in keys, ascending. */
  predicate ListsSome(s: seq<Entry>, m: map<int, nat>, keys: set<int>) {
    Ascending(s)
    && (forall e | e in s :: e.0 in keys && e.0 in m && e.1 == m[e.0])
    && (forall f | f in keys && f in m :: (f, m[f]) in s)
  }

  /** s lists all the entries of m by ascending frequency. */
  predicate EntriesOf(s: seq<Entry>, m: map<int, nat>) {
    ListsSome(s, m, m.Keys)
  }

  /** Put an entry in its place in an ascending list. */
  function InsertEntry(x: Entry, s: seq<Entry>): (r: seq<Entry>)
    ensures |r| == |s| + 1
    ensures forall e :: e in r <==> e == x || e in s
    decreases |s|
  {
    if |s| == 0 || x.0 < s[0].0 then [x] + s
    else [s[0]] + InsertEntry(x, s[1..])
  }

  lemma {:induction false} InsertEntryAscending(x: Entry, s: seq<Entry>)
    requires Ascending(s)
    requires forall e :: e in s ==> e.0 != x.0
    ensures Ascending(InsertEntry(x, s))
    decreases |s|
  {
    if |s| > 0 && x.0 >= s[0].0 {
      assert Ascending(s[1..]);
      InsertEntryAscending(x, s[1..]);
      var r := InsertEntry(x, s);
      var t := InsertEntry(x, s[1..]);
      assert r == [s[0]] + t;
      forall j | 0 < j < |r| ensures s[0].0 < r[j].0 {
        assert r[j] == t[j - 1];
        assert t[j - 1] in t;
        if r[j] != x {
          assert r[j] in s[1..];
          var q :| 0 <= q < |s[1..]| && s[1..][q] == r[j];
          assert s[q + 1] == r[j];
        }
      }
      forall i, j | 0 < i < j < |r| ensures r[i].0 < r[j].0 {
        assert r[i] == t[i - 1] && r[j] == t[j - 1];
      }
    }
  }

  /** Inserting the entry of one more key. */
  lemma InsertEntryLists(s: seq<Entry>, m: map<int, nat>, keys: set<int>, f: int)
    requires ListsSome(s, m, keys) && f in m && f !in keys
    ensures ListsSome(InsertEntry((f, m[f]), s), m, keys + {f})
  {
    InsertEntryAscending((f, m[f]), s);
  }

  /** The sorted spectrum: the histogram's entries, ascending by frequency. The order in
      which the map hands out its entries does not matter. */
  method SortedSpectrum(m: map<int, nat>) returns (s: seq<Entry>)
    ensures EntriesOf(s, m)
  {
    s := [];
    var rest := m.Keys;
    while rest != {}
      invariant rest <= m.Keys && ListsSome(s, m, m.Keys - rest)
      decreases |rest|
    {
      if forall y :: y !in rest { assert false; }
      var f :| f in rest;
      InsertEntryLists(s, m, m.Keys - rest, f);
      s := InsertEntry((f, m[f]), s);
      assert m.Keys - rest + {f} == m.Keys - (rest - {f});
      rest := rest - {f};
    }
    assert m.Keys - rest == m.Keys;
  }

  // ---------------------------------------------------------------------------
  // Trough and peak (`getSpectrumTroughPeak`, lines 16-29)

  /** The k-mer mass `freq * count` of the first j entries. */
  function Mass(s: seq<Entry>, j: nat): int
    requires j <= |s|
    decreases j
  {
    if j == 0 then 0 else Mass(s, j - 1) + s[j - 1].0 * s[j - 1].1
  }

  /** The lambda of `spectrum.indices.first { ... }` returns true at index j: the count does
      not fall from j to j + 1, or the mass through j is more than half the total. */
  predicate Stops(s: seq<Entry>, total: int, j: nat) {
    j + 1 < |s| && (s[j].1 <= s[j + 1].1 || 2 * Mass(s, j + 1) > total)
  }

  /** `accumulate` when the lambda returns true at j: the mass before j when the count does
      not fall, the mass through j otherwise. */
  function AccumulateAt(s: seq<Entry>, j: nat): int
    requires j + 1 < |s|
  {
    if s[j].1 <= s[j + 1].1 then Mass(s, j) else Mass(s, j + 1)
  }

  /** The search from index i: the index `first` returns and `accumulate` at that point;
      None when `first` fails (an empty spectrum) or the lambda reads `spectrum[it + 1]`
      past the end. */
  function Scan(s: seq<Entry>, total: int, i: nat): (r: Option<(nat, int)>)
    ensures r.Some? ==> i <= r.value.0 && r.value.0 + 1 < |s|
    decreases |s| - i
  {
    if i + 1 >= |s| then None
    else if s[i].1 <= s[i + 1].1 then Some((i, Mass(s, i)))
    else if 2 * Mass(s, i + 1) > total then Some((i, Mass(s, i + 1)))
    else Scan(s, total, i + 1)
  }

  /** The search finds the first index where the lambda returns true, with the
      accumulated mass at that point, and fails exactly when there is none. */
  lemma {:induction false} ScanFirst(s: seq<Entry>, total: int, i: nat)
    ensures Scan(s, total, i).Some? <==> exists j :: i <= j && Stops(s, total, j)
    ensures Scan(s, total, i).Some? ==> var j := Scan(s, total, i).value.0;
      i <= j && Stops(s, total, j) && Scan(s, total, i).value.1 == AccumulateAt(s, j)
      && forall q :: i <= q < j ==> !Stops(s, total, q)
    decreases |s| - i
  {
    if i + 1 < |s| && !Stops(s, total, i) {
      ScanFirst(s, total, i + 1);
    }
    if i + 1 >= |s| {
      forall j | i <= j ensures !Stops(s, total, j) {
      }
    }
  }

  /** The `first` loop with its running `accumulate`. */
  method TroughScan(s: seq<Entry>, total: int) returns (r: Option<(nat, int)>)
    ensures r == Scan(s, total, 0)
  {
    var accumulate := 0;
    var it := 0;
    while true
      invariant it <= |s| && Scan(s, total, 0) == Scan(s, total, it) && accumulate == Mass(s, it)
      decreases |s| - it
    {
      if it + 1 >= |s| {
        return None;
      }
      if s[it].1 <= s[it + 1].1 {
        return Some((it, accumulate));
      }
      accumulate := accumulate + s[it].0 * s[it].1;
      if 2 * accumulate > total {
        return Some((it, accumulate));
      }
      it := it + 1;
    }
  }

  /** `spectrum.filter { it.first >= trough }.maxBy { it.first * it.second }`: the index
      of the first entry of largest mass among those with frequency at least trough. */
  function BestPeak(s: seq<Entry>, trough: int): (r: Option<nat>)
    ensures r.None? <==> forall j :: 0 <= j < |s| ==> s[j].0 < trough
    ensures r.Some? ==> r.value < |s| && s[r.value].0 >= trough
    ensures r.Some? ==> forall j :: 0 <= j < |s| && s[j].0 >= trough ==> s[j].0 * s[j].1 <= s[r.value].0 * s[r.value].1
    ensures r.Some? ==> forall j :: 0 <= j < r.value && s[j].0 >= trough ==> s[j].0 * s[j].1 < s[r.value].0 * s[r.value].1
    decreases |s|
  {
    if |s| == 0 then None
    else
      var p := s[..|s| - 1];
      var last := s[|s| - 1];
      assert forall j :: 0 <= j < |p| ==> p[j] == s[j];
      match BestPeak(p, trough)
      case None => if last.0 >= trough then Some(|s| - 1) else None
      case Some(b) => if last.0 >= trough && last.0 * last.1 > s[b].0 * s[b].1 then Some(|s| - 1) else Some(b)
  }

  /** The trough and the peak from the sorted spectrum: the trough is 0 when the search
      stopped on mass, and otherwise the frequency of the first entry whose count does not
      fall; the peak is the frequency the `maxBy` picks. None where the source's `first`,
      index or `!!` fails. */
  function TroughPeakOf(s: seq<Entry>): Option<(int, int)> {
    var total := Mass(s, |s|);
    match Scan(s, total, 0)
    case None => None
    case Some(p) =>
      var trough := if 2 * p.1 > total then 0 else s[p.0].0;
      match BestPeak(s, trough)
      case None => None
      case Some(b) => Some((trough, s[b].0))
  }

  /** What the source computes: it keeps the index of the entry as the trough. */
  function TroughPeakAsWritten(s: seq<Entry>): Option<(int, int)> {
    var total := Mass(s, |s|);
    match Scan(s, total, 0)
    case None => None
    case Some(p) =>
      var trough := if 2 * p.1 > total then 0 else p.0;
      match BestPeak(s, trough)
      case None => None
      case Some(b) => Some((trough, s[b].0))
  }

  /** `getSpectrumTroughPeak` on the second fields of a count file's lines: the sorted
      spectrum of their histogram, and its trough (as a frequency) and peak. */
  method GetSpectrumTroughPeak(freqs: seq<int>) returns (spectrum: seq<Entry>, r: Option<(int, int)>)
    ensures EntriesOf(spectrum, Histogram(freqs)) && r == TroughPeakOf(spectrum)
  {
    var counts := GenerateKmerSpectrum(freqs);
    spectrum := SortedSpectrum(counts);
    r := TroughPeakOfSorted(spectrum);
  }

  /** The search, the trough and the peak on the sorted spectrum. */
  method TroughPeakOfSorted(s: seq<Entry>) returns (r: Option<(int, int)>)
    ensures r == TroughPeakOf(s)
  {
    var total := Mass(s, |s|);
    var scan := TroughScan(s, total);
    if scan.None? {
      return None;
    }
    var it, accumulate := scan.value.0, scan.value.1;
    var trough := s[it].0;
    if 2 * accumulate > total {
      trough := 0;
    }
    var peak := BestPeak(s, trough);
    if peak.None? {
      return None;
    }
    r := Some((trough, s[peak.value].0));
  }

  /** j is the index `first` returns: the lambda returns true at j and at no index before. */
  predicate FirstStop(s: seq<Entry>, j: nat) {
    Stops(s, Mass(s, |s|), j) && forall q :: 0 <= q < j ==> !Stops(s, Mass(s, |s|), q)
  }

  /** trough is the threshold the search settles on at the index j that `first` returns:
      0 when the accumulated mass there is more than half the total, and otherwise the
      frequency of entry j, the first entry whose count does not fall. */
  predicate IsTrough(s: seq<Entry>, trough: int) {
    exists j :: 0 <= j && j + 1 < |s| && FirstStop(s, j)
      && if 2 * AccumulateAt(s, j) > Mass(s, |s|) then trough == 0
         else trough == s[j].0 && FirstRise(s, j) && 2 * Mass(s, j) <= Mass(s, |s|)
  }

  /** The count does not fall from j to j + 1 and falls at every step before. */
  predicate FirstRise(s: seq<Entry>, j: nat)
    requires j + 1 < |s|
  {
    s[j].1 <= s[j + 1].1 && forall q :: 0 <= q < j ==> s[q].1 > s[q + 1].1
  }

  /** peak is a frequency of the spectrum, at least trough, of largest mass among those. */
  predicate IsPeak(s: seq<Entry>, trough: int, peak: int) {
    peak >= trough
    && exists j :: 0 <= j < |s| && s[j].0 == peak && forall q :: 0 <= q < |s| && s[q].0 >= trough ==> s[q].0 * s[q].1 <= s[j].0 * s[j].1
  }

  /** The index `first` returns is the one the search finds, so there is at most one. */
  lemma FirstStopIsScan(s: seq<Entry>, j: nat)
    requires FirstStop(s, j)
    ensures Scan(s, Mass(s, |s|), 0) == Some((j, AccumulateAt(s, j)))
  {
    var total := Mass(s, |s|);
    ScanFirst(s, total, 0);
  }

  /** The trough is the unique trough and the peak a peak in the above sense; the result is
      None exactly when the search finds no index or no entry reaches the trough. */
  lemma TroughPeakFacts(s: seq<Entry>)
    ensures TroughPeakOf(s).Some? ==> IsTrough(s, TroughPeakOf(s).value.0)
    ensures TroughPeakOf(s).Some? ==> forall t :: IsTrough(s, t) ==> t == TroughPeakOf(s).value.0
    ensures TroughPeakOf(s).Some? ==> IsPeak(s, TroughPeakOf(s).value.0, TroughPeakOf(s).value.1)
    ensures TroughPeakOf(s).None? <==> forall t :: IsTrough(s, t) ==> forall q :: 0 <= q < |s| ==> s[q].0 < t
  {
    TroughsAgree(s);
    TroughFound(s);
  }

  /** Every trough is the one the search finds. */
  lemma TroughsAgree(s: seq<Entry>)
    ensures TroughPeakOf(s).Some? ==> forall t :: IsTrough(s, t) ==> t == TroughPeakOf(s).value.0
    ensures TroughPeakOf(s).None? ==> forall t :: IsTrough(s, t) ==> forall q :: 0 <= q < |s| ==> s[q].0 < t
  {
    var total := Mass(s, |s|);
    ScanFirst(s, total, 0);
    forall t | IsTrough(s, t)
      ensures TroughPeakOf(s).Some? ==> t == TroughPeakOf(s).value.0
      ensures TroughPeakOf(s).None? ==> forall q :: 0 <= q < |s| ==> s[q].0 < t
    {
      var j :| 0 <= j && j + 1 < |s| && FirstStop(s, j)
        && if 2 * AccumulateAt(s, j) > total then t == 0
           else t == s[j].0 && FirstRise(s, j) && 2 * Mass(s, j) <= total;
      FirstStopIsScan(s, j);
    }
  }

  /** The trough the search finds is one, and the peak is one for it. */
  lemma TroughFound(s: seq<Entry>)
    ensures TroughPeakOf(s).Some? ==> IsTrough(s, TroughPeakOf(s).value.0)
    ensures TroughPeakOf(s).Some? ==> IsPeak(s, TroughPeakOf(s).value.0, TroughPeakOf(s).value.1)
  {
    var total := Mass(s, |s|);
    ScanFirst(s, total, 0);
    if Scan(s, total, 0).Some? {
      var p := Scan(s, total, 0).value;
      var j := p.0;
      forall q | 0 <= q < j ensures s[q].1 > s[q + 1].1 {
        assert !Stops(s, total, q);
      }
      assert FirstStop(s, j);
      var trough := if 2 * p.1 > total then 0 else s[j].0;
      if trough != 0 || 2 * p.1 <= total {
        if 2 * p.1 <= total {
          assert FirstRise(s, j);
        }
      }
      assert IsTrough(s, trough);
      if TroughPeakOf(s).Some? {
        var b := BestPeak(s, trough).value;
        assert s[b].0 == TroughPeakOf(s).value.1;
      }
    }
  }

  /** As written, the trough is 0 or the index of the first entry whose count does not
      fall, not its frequency. */
  lemma TroughAsWrittenIsIndex(s: seq<Entry>)
    ensures TroughPeakAsWritten(s).Some? ==> var t := TroughPeakAsWritten(s).value.0;
      exists j :: 0 <= j && j + 1 < |s| && FirstStop(s, j)
        && if 2 * AccumulateAt(s, j) > Mass(s, |s|) then t == 0
           else t == j && FirstRise(s, j) && 2 * Mass(s, j) <= Mass(s, |s|)
  {
    var total := Mass(s, |s|);
    ScanFirst(s, total, 0);
    if TroughPeakAsWritten(s).Some? {
      var j := Scan(s, total, 0).value.0;
      forall q | 0 <= q < j ensures s[q].1 > s[q + 1].1 {
        assert !Stops(s, total, q);
      }
      assert FirstStop(s, j);
    }
  }

  /** A spectrum with a high error peak at frequency 2 and coverage at frequency 10. */
  const Example: seq<Entry> := [(2, 100), (3, 10), (4, 20), (10, 50)]

  lemma ExampleMass()
    ensures Mass(Example, 1) == 200 && Mass(Example, 4) == 810
  {
    assert Mass(Example, 2) == 230;
    assert Mass(Example, 3) == 310;
  }

  /** The search stops at index 1, where the count rises from 10 to 20. */
  lemma ExampleScan()
    ensures Scan(Example, 810, 0) == Some((1, 200))
  {
    ExampleMass();
    assert Scan(Example, 810, 1) == Some((1, Mass(Example, 1)));
  }

  /** The frequency 10 entry has the largest mass. */
  lemma ExamplePeak(trough: int)
    requires trough <= 10
    ensures BestPeak(Example, trough) == Some(3)
  {
    var b := BestPeak(Example, trough);
    assert Example[3].0 >= trough;
    assert b.Some?;
    assert Example[3].0 * Example[3].1 == 500;
  }

  /** The source's trough is an index, while the frequency filter uses it as a frequency:
      on this spectrum it is 1, below every frequency, where the first local minimum of the
      counts is at frequency 3. */
  lemma TroughIsIndexFinding()
    ensures TroughPeakAsWritten(Example) == Some((1, 10))
    ensures TroughPeakOf(Example) == Some((3, 10))
  {
    ExampleMass();
    ExampleScan();
    ExamplePeak(1);
    ExamplePeak(3);
  }

  // ---------------------------------------------------------------------------
  // Kotlin string order (`String.compareTo`)

  /** a sorts before b: at the first difference, or b extends a. */
  predicate Less(a: string, b: string)
    decreases |a|
  {
    if |a| == 0 then |b| > 0
    else if |b| == 0 then false
    else if a[0] != b[0] then a[0] < b[0]
    else Less(a[1..], b[1..])
  }

  lemma {:induction false} LessIrreflexive(a: string)
    ensures !Less(a, a)
    decreases |a|
  {
    if |a| > 0 {
      LessIrreflexive(a[1..]);
    }
  }

  lemma {:induction false} LessTransitive(a: string, b: string, c: string)
    requires Less(a, b) && Less(b, c)
    ensures Less(a, c)
    decreases |a|
  {
    if |a| > 0 && a[0] == b[0] && b[0] == c[0] {
      LessTransitive(a[1..], b[1..], c[1..]);
    }
  }

  /** The blank the control cursor starts from sorts before every k-mer. */
  lemma BlankFirst(t: string)
    requires |t| > 0 && Dna.IsDna(t)
    ensures Less(" ", t)
  {
    assert Dna.IsBase(t[0]);
  }

  // ---------------------------------------------------------------------------
  // The merge of the count files (`filterTargetKmerByControl`, lines 31-50)

  /** A line of a count file: a k-mer and its frequency. */
  datatype Row = Row(kmer: string, freq: int)

  /** Where the control reader stands: the last control k-mer and frequency read (a blank
      and no frequency before the first line) and how many lines it has read. */
  datatype Cursor = Cursor(kmer: string, freq: Option<int>, next: nat)

  /** The state the merge carries from target line to target line. The Bloom filter is
      modelled as the exact set of codes inserted into it. */
  datatype Merged = Merged(kmers: map<nat, int>, bf: set<nat>, cursor: Cursor)

  const Blank := Cursor(" ", None, 0)
  const Start := Merged(map[], {}, Blank)

  /** The inner loop: read control lines while the target k-mer sorts after the control
      k-mer and lines remain. */
  function Advance(control: seq<Row>, t: string, c: Cursor): (r: Cursor)
    requires c.next <= |control|
    ensures c.next <= r.next <= |control|
    decreases |control| - c.next
  {
    if Less(c.kmer, t) && c.next < |control| then
      Advance(control, t, Cursor(control[c.next].kmer, Some(control[c.next].freq), c.next + 1))
    else c
  }

  /** One target line: skipped below the target trough; otherwise its code goes into the
      filter, the control reader catches up, and the k-mer is kept unless the control has
      it at or above the control trough. None where `controlFreq.toInt()` fails on the
      initial blank. */
  function MergeRow(k: nat, control: seq<Row>, tTrough: int, cTrough: int, st: Merged, row: Row): (r: Option<Merged>)
    requires st.cursor.next <= |control|
    ensures r.Some? ==> r.value.cursor.next <= |control|
  {
    if row.freq < tTrough then Some(st)
    else
      var code := Codec.CanonicalOfString(k, row.kmer).0;
      var bf := st.bf + {code};
      var c := Advance(control, row.kmer, st.cursor);
      if row.kmer == c.kmer then
        match c.freq
        case None => None
        case Some(f) =>
          if f >= cTrough then Some(Merged(st.kmers, bf, c))
          else Some(Merged(st.kmers[code := row.freq], bf, c))
      else Some(Merged(st.kmers[code := row.freq], bf, c))
  }

  /** The outer loop over the target lines. */
  function Merge(k: nat, control: seq<Row>, tTrough: int, cTrough: int, st: Merged, rows: seq<Row>): Option<Merged>
    requires st.cursor.next <= |control|
    decreases |rows|
  {
    if |rows| == 0 then Some(st)
    else
      match MergeRow(k, control, tTrough, cTrough, st, rows[0])
      case None => None
      case Some(st') => Merge(k, control, tTrough, cTrough, st', rows[1..])
  }

  /** `filterTargetKmerByControl` on the target and control count files' lines: the kept
      k-mers by canonical code, and the codes inserted into the Bloom filter. */
  method FilterTargetKmerByControl(k: nat, target: seq<Row>, control: seq<Row>, tTrough: int, cTrough: int)
    returns (r: Option<map<nat, int>>, bf: set<nat>)
    ensures Merge(k, control, tTrough, cTrough, Start, target).None? <==> r.None?
    ensures r.Some? ==> var m := Merge(k, control, tTrough, cTrough, Start, target).value; r.value == m.kmers && bf == m.bf
  {
    var controlKmer, controlFreq, next := " ", None, 0;
    var kmers: map<nat, int> := map[];
    bf := {};
    var i := 0;
    while i < |target|
      invariant i <= |target| && next <= |control|
      invariant Merge(k, control, tTrough, cTrough, Start, target)
        == Merge(k, control, tTrough, cTrough, Merged(kmers, bf, Cursor(controlKmer, controlFreq, next)), target[i..])
    {
      var row := target[i];
      ghost var st := Merged(kmers, bf, Cursor(controlKmer, controlFreq, next));
      assert target[i..][0] == row && target[i..][1..] == target[i + 1..];
      i := i + 1;
      if row.freq >= tTrough {
        var code := Codec.CanonicalOfString(k, row.kmer).0;
        bf := bf + {code};
        while Less(controlKmer, row.kmer) && next < |control|
          invariant next <= |control|
          invariant Advance(control, row.kmer, Cursor(controlKmer, controlFreq, next)) == Advance(control, row.kmer, st.cursor)
          decreases |control| - next
        {
          controlKmer, controlFreq, next := control[next].kmer, Some(control[next].freq), next + 1;
        }
        if row.kmer == controlKmer && controlFreq.None? {
          return None, bf;
        }
        if !(row.kmer == controlKmer && controlFreq.value >= cTrough) {
          kmers := kmers[code := row.freq];
        }
      }
    }
    r := Some(kmers);
  }

  // ---------------------------------------------------------------------------
  // What the merge keeps

  /** Every k-mer sorts strictly after the ones before it, as in a sorted count file. */
  predicate SortedRows(rows: seq<Row>) {
    forall i, j :: 0 <= i < j < |rows| ==> Less(rows[i].kmer, rows[j].kmer)
  }

  /** The control has the k-mer at or above its trough. */
  predicate Suppressed(control: seq<Row>, t: string, cTrough: int) {
    exists j :: 0 <= j < |control| && control[j].kmer == t && control[j].freq >= cTrough
  }

  /** The kept k-mers, stated without the cursor: every target line at or above the
      target trough whose k-mer the control does not suppress, in turn. */
  function Exclusive(k: nat, control: seq<Row>, tTrough: int, cTrough: int, m: map<nat, int>, rows: seq<Row>): map<nat, int>
    decreases |rows|
  {
    if |rows| == 0 then m
    else
      var row := rows[0];
      var m' := if row.freq >= tTrough && !Suppressed(control, row.kmer, cTrough)
        then m[Codec.CanonicalOfString(k, row.kmer).0 := row.freq] else m;
      Exclusive(k, control, tTrough, cTrough, m', rows[1..])
  }

  /** The codes of the target lines at or above the target trough. */
  function Inserted(k: nat, tTrough: int, rows: seq<Row>): set<nat>
    decreases |rows|
  {
    if |rows| == 0 then {}
    else (if rows[0].freq >= tTrough then {Codec.CanonicalOfString(k, rows[0].kmer).0} else {}) + Inserted(k, tTrough, rows[1..])
  }

  /** The cursor holds the last control line read, or the blank before any. */
  predicate CursorAt(control: seq<Row>, c: Cursor) {
    c.next <= |control|
    && (c.next == 0 ==> c.kmer == " " && c.freq == None)
    && (c.next > 0 ==> c.kmer == control[c.next - 1].kmer && c.freq == Some(control[c.next - 1].freq))
  }

  /** Every control line read before the cursor's sorts before t. */
  predicate Behind(control: seq<Row>, c: Cursor, t: string) {
    forall x :: 0 <= x && x + 1 < c.next && x < |control| ==> Less(control[x].kmer, t)
  }

  lemma BehindLater(control: seq<Row>, c: Cursor, t: string, t': string)
    requires Behind(control, c, t) && Less(t, t')
    ensures Behind(control, c, t')
  {
    forall x | 0 <= x && x + 1 < c.next && x < |control| ensures Less(control[x].kmer, t') {
      LessTransitive(control[x].kmer, t, t');
    }
  }

  /** After the inner loop the cursor stands on t exactly when the control has t, and on
      its line then. */
  lemma {:induction false} AdvanceFinds(control: seq<Row>, t: string, c: Cursor)
    requires SortedRows(control) && CursorAt(control, c) && Behind(control, c, t) && Less(" ", t)
    ensures var a := Advance(control, t, c); CursorAt(control, a) && Behind(control, a, t)
    ensures var a := Advance(control, t, c);
      (a.kmer == t <==> exists j :: 0 <= j < |control| && control[j].kmer == t)
      && (a.kmer == t ==> a.next > 0 && control[a.next - 1].kmer == t)
    decreases |control| - c.next
  {
    if Less(c.kmer, t) && c.next < |control| {
      var c' := Cursor(control[c.next].kmer, Some(control[c.next].freq), c.next + 1);
      AdvanceFinds(control, t, c');
    } else {
      LessIrreflexive(t);
      if j :| 0 <= j < |control| && control[j].kmer == t {
      }
    }
  }

  /** In a sorted control file a k-mer has at most one line. */
  lemma OnlyLine(control: seq<Row>, j: nat, cTrough: int)
    requires SortedRows(control) && j < |control|
    ensures Suppressed(control, control[j].kmer, cTrough) <==> control[j].freq >= cTrough
  {
    if Suppressed(control, control[j].kmer, cTrough) {
      var q :| 0 <= q < |control| && control[q].kmer == control[j].kmer && control[q].freq >= cTrough;
      LessIrreflexive(control[j].kmer);
      assert q == j;
    }
  }

  /** One target line on a well-placed cursor: the merge does not fail, keeps the line
      exactly when it passes both troughs, and leaves the cursor well placed. */
  lemma MergeRowExclusive(k: nat, control: seq<Row>, tTrough: int, cTrough: int, st: Merged, row: Row)
    requires SortedRows(control) && |row.kmer| > 0 && Dna.IsDna(row.kmer)
    requires CursorAt(control, st.cursor) && Behind(control, st.cursor, row.kmer)
    ensures var r := MergeRow(k, control, tTrough, cTrough, st, row);
      r.Some? && CursorAt(control, r.value.cursor) && Behind(control, r.value.cursor, row.kmer)
      && r.value.kmers == (if row.freq >= tTrough && !Suppressed(control, row.kmer, cTrough)
        then st.kmers[Codec.CanonicalOfString(k, row.kmer).0 := row.freq] else st.kmers)
      && r.value.bf == st.bf + (if row.freq >= tTrough then {Codec.CanonicalOfString(k, row.kmer).0} else {})
  {
    BlankFirst(row.kmer);
    AdvanceFinds(control, row.kmer, st.cursor);
    var a := Advance(control, row.kmer, st.cursor);
    if row.kmer == a.kmer {
      OnlyLine(control, a.next - 1, cTrough);
    }
  }

  lemma {:induction false} MergeFrom(k: nat, control: seq<Row>, tTrough: int, cTrough: int, st: Merged, rows: seq<Row>)
    requires SortedRows(control) && SortedRows(rows)
    requires forall i :: 0 <= i < |rows| ==> |rows[i].kmer| > 0 && Dna.IsDna(rows[i].kmer)
    requires CursorAt(control, st.cursor) && (|rows| > 0 ==> Behind(control, st.cursor, rows[0].kmer))
    ensures var r := Merge(k, control, tTrough, cTrough, st, rows);
      r.Some? && r.value.kmers == Exclusive(k, control, tTrough, cTrough, st.kmers, rows)
      && r.value.bf == st.bf + Inserted(k, tTrough, rows)
    decreases |rows|
  {
    if |rows| > 0 {
      var row := rows[0];
      var rest := rows[1..];
      MergeRowExclusive(k, control, tTrough, cTrough, st, row);
      var st' := MergeRow(k, control, tTrough, cTrough, st, row).value;
      if |rest| > 0 {
        assert Less(row.kmer, rest[0].kmer) by {
          assert rows[0] == row && rows[1] == rest[0];
        }
        BehindLater(control, st'.cursor, row.kmer, rest[0].kmer);
      }
      assert SortedRows(rest) by {
        forall i, j | 0 <= i < j < |rest| ensures Less(rest[i].kmer, rest[j].kmer) {
          assert rest[i] == rows[i + 1] && rest[j] == rows[j + 1];
        }
      }
      MergeFrom(k, control, tTrough, cTrough, st', rest);
    }
  }

  /** On sorted count files of non-empty DNA k-mers the merge cannot fail, keeps exactly
      the target lines at or above the target trough whose k-mer the control does not have
      at or above the control trough, and inserts the codes of all target lines at or above
      the target trough into the filter. */
  lemma MergeKeepsExclusive(k: nat, control: seq<Row>, tTrough: int, cTrough: int, target: seq<Row>)
    requires SortedRows(control) && SortedRows(target)
    requires forall i :: 0 <= i < |target| ==> |target[i].kmer| > 0 && Dna.IsDna(target[i].kmer)
    ensures var r := Merge(k, control, tTrough, cTrough, Start, target);
      r.Some? && r.value.kmers == Exclusive(k, control, tTrough, cTrough, map[], target)
      && r.value.bf == Inserted(k, tTrough, target)
  {
    MergeFrom(k, control, tTrough, cTrough, Start, target);
    assert {} + Inserted(k, tTrough, target) == Inserted(k, tTrough, target);
  }

  /** The line has code c and is at or above the target trough. */
  predicate Reaches(k: nat, tTrough: int, row: Row, c: nat) {
    row.freq >= tTrough && Codec.CanonicalOfString(k, row.kmer).0 == c
  }

  /** Moreover the control does not suppress its k-mer. */
  predicate Passes(k: nat, control: seq<Row>, tTrough: int, cTrough: int, row: Row, c: nat) {
    Reaches(k, tTrough, row, c) && !Suppressed(control, row.kmer, cTrough)
  }

  /** A code is kept exactly when some target line with that code passes both troughs. */
  lemma {:induction false} ExclusiveHas(k: nat, control: seq<Row>, tTrough: int, cTrough: int, m: map<nat, int>, rows: seq<Row>, c: nat)
    ensures c in Exclusive(k, control, tTrough, cTrough, m, rows) <==>
      c in m || exists i :: 0 <= i < |rows| && Passes(k, control, tTrough, cTrough, rows[i], c)
    decreases |rows|
  {
    if |rows| > 0 {
      var row := rows[0];
      var m' := if row.freq >= tTrough && !Suppressed(control, row.kmer, cTrough)
        then m[Codec.CanonicalOfString(k, row.kmer).0 := row.freq] else m;
      ExclusiveHas(k, control, tTrough, cTrough, m', rows[1..], c);
      if exists i :: 0 <= i < |rows| && Passes(k, control, tTrough, cTrough, rows[i], c) {
        var i :| 0 <= i < |rows| && Passes(k, control, tTrough, cTrough, rows[i], c);
        if i > 0 {
          assert rows[1..][i - 1] == rows[i];
        }
      }
    }
  }

  /** A code is in the filter exactly when some target line with that code is at or above
      the target trough. */
  lemma {:induction false} InsertedHas(k: nat, tTrough: int, rows: seq<Row>, c: nat)
    ensures c in Inserted(k, tTrough, rows) <==> exists i :: 0 <= i < |rows| && Reaches(k, tTrough, rows[i], c)
    decreases |rows|
  {
    if |rows| > 0 {
      InsertedHas(k, tTrough, rows[1..], c);
      if exists i :: 0 <= i < |rows| && Reaches(k, tTrough, rows[i], c) {
        var i :| 0 <= i < |rows| && Reaches(k, tTrough, rows[i], c);
        if i > 0 {
          assert rows[1..][i - 1] == rows[i];
        }
      }
    }
  }

  // ---------------------------------------------------------------------------
  // The read screen (`filterTargetByControl`, lines 53-59)

  /** One read, given by the codes `decomposeKmer` gives for it: when one of them is kept,
      every one of them in the Bloom filter is set to 1. */
  function ScreenRead(ex: map<nat, int>, bf: set<nat>, read: seq<nat>): map<nat, int> {
    if exists j :: 0 <= j < |read| && read[j] in ex then ex + map c | c in read && c in bf :: 1
    else ex
  }

  function Screen(ex: map<nat, int>, bf: set<nat>, kmerLists: seq<seq<nat>>): map<nat, int>
    decreases |kmerLists|
  {
    if |kmerLists| == 0 then ex else Screen(ScreenRead(ex, bf, kmerLists[0]), bf, kmerLists[1..])
  }

  /** `kmerList.any { it in exKmer }`. */
  method AnyKept(ex: map<nat, int>, kmerList: seq<nat>) returns (any: bool)
    ensures any <==> exists q :: 0 <= q < |kmerList| && kmerList[q] in ex
  {
    any := false;
    var j := 0;
    while j < |kmerList| && !any
      invariant j <= |kmerList|
      invariant any <==> exists q :: 0 <= q < j && kmerList[q] in ex
    {
      any := kmerList[j] in ex;
      j := j + 1;
    }
  }

  /** `kmerList.filter { bf.contains(it) }.forEach { exKmer[it] = 1 }`. */
  method SetOnes(ex: map<nat, int>, bf: set<nat>, kmerList: seq<nat>) returns (exKmer: map<nat, int>)
    ensures exKmer == ex + map c | c in kmerList && c in bf :: 1
  {
    exKmer := ex;
    var j := 0;
    while j < |kmerList|
      invariant j <= |kmerList|
      invariant exKmer == ex + map c | c in kmerList[..j] && c in bf :: 1
    {
      assert kmerList[..j + 1] == kmerList[..j] + [kmerList[j]];
      if kmerList[j] in bf {
        exKmer := exKmer[kmerList[j] := 1];
      }
      j := j + 1;
    }
    assert kmerList[..j] == kmerList;
  }

  /** The loop over the target reads. */
  method ScreenReads(ex: map<nat, int>, bf: set<nat>, kmerLists: seq<seq<nat>>) returns (exKmer: map<nat, int>)
    ensures exKmer == Screen(ex, bf, kmerLists)
  {
    exKmer := ex;
    var i := 0;
    while i < |kmerLists|
      invariant i <= |kmerLists| && Screen(ex, bf, kmerLists) == Screen(exKmer, bf, kmerLists[i..])
    {
      assert kmerLists[i..][1..] == kmerLists[i + 1..];
      var any := AnyKept(exKmer, kmerLists[i]);
      if any {
        exKmer := SetOnes(exKmer, bf, kmerLists[i]);
      }
      i := i + 1;
    }
  }

  /** The screen keeps every key and adds only codes in the filter; an added key, or a key
      in the filter a read touches, holds 1, and any other key keeps its value. */
  lemma {:induction false} ScreenAdds(ex: map<nat, int>, bf: set<nat>, kmerLists: seq<seq<nat>>)
    ensures ex.Keys <= Screen(ex, bf, kmerLists).Keys
    ensures forall c | c in Screen(ex, bf, kmerLists) :: (c in ex && Screen(ex, bf, kmerLists)[c] == ex[c]) || (c in bf && Screen(ex, bf, kmerLists)[c] == 1)
    decreases |kmerLists|
  {
    if |kmerLists| > 0 {
      var ex' := ScreenRead(ex, bf, kmerLists[0]);
      ScreenAdds(ex', bf, kmerLists[1..]);
    }
  }

  // ---------------------------------------------------------------------------
  // The final pass over the target file (`filterTargetByControl`, lines 61-68)

  /** One target line: a code not in the map is passed over; a line below the target trough
      removes its code, and any other line sets the code's frequency. */
  function RefilterRow(k: nat, tTrough: int, ex: map<nat, int>, row: Row): map<nat, int> {
    var code := Codec.CanonicalOfString(k, row.kmer).0;
    if code !in ex then ex
    else if row.freq < tTrough then ex - {code}
    else ex[code := row.freq]
  }

  function Refilter(k: nat, tTrough: int, ex: map<nat, int>, rows: seq<Row>): map<nat, int>
    decreases |rows|
  {
    if |rows| == 0 then ex else Refilter(k, tTrough, RefilterRow(k, tTrough, ex, rows[0]), rows[1..])
  }

  /** The loop at lines 61-68 over the target count file's lines, updating the map. */
  method RefilterByTarget(k: nat, ex: map<nat, int>, target: seq<Row>, tTrough: int) returns (exKmer: map<nat, int>)
    ensures exKmer == Refilter(k, tTrough, ex, target)
  {
    exKmer := ex;
    var i := 0;
    while i < |target|
      invariant i <= |target| && Refilter(k, tTrough, ex, target) == Refilter(k, tTrough, exKmer, target[i..])
    {
      assert target[i..][1..] == target[i + 1..];
      var kmer := Codec.CanonicalOfString(k, target[i].kmer).0;
      var freq := target[i].freq;
      if kmer in exKmer {
        if freq < tTrough {
          exKmer := exKmer - {kmer};
        } else {
          exKmer := exKmer[kmer := freq];
        }
      }
      i := i + 1;
    }
  }

  /** The frequency of the last line with code c, if any. */
  function LastFreq(k: nat, rows: seq<Row>, c: nat): Option<int>
    decreases |rows|
  {
    if |rows| == 0 then None
    else
      var last := rows[|rows| - 1];
      if Codec.CanonicalOfString(k, last.kmer).0 == c then Some(last.freq) else LastFreq(k, rows[..|rows| - 1], c)
  }

  /** A code survives the pass exactly when it was in the map and no line with that code
      is below the target trough; a survivor carries the frequency of its last line, or
      keeps its value when no line has its code. */
  lemma {:induction false} RefilterKeeps(k: nat, tTrough: int, ex: map<nat, int>, rows: seq<Row>, c: nat)
    ensures c in Refilter(k, tTrough, ex, rows) <==>
      c in ex && forall i :: 0 <= i < |rows| && Codec.CanonicalOfString(k, rows[i].kmer).0 == c ==> rows[i].freq >= tTrough
    ensures c in Refilter(k, tTrough, ex, rows) ==>
      Refilter(k, tTrough, ex, rows)[c] == match LastFreq(k, rows, c) case Some(f) => f case None => ex[c]
    decreases |rows|
  {
    if |rows| > 0 {
      var p := rows[..|rows| - 1];
      var last := rows[|rows| - 1];
      RefilterSnoc(k, tTrough, ex, p, last);
      assert rows == p + [last];
      RefilterKeeps(k, tTrough, ex, p, c);
      forall i | 0 <= i < |p| ensures p[i] == rows[i] { }
    }
  }

  lemma {:induction false} RefilterSnoc(k: nat, tTrough: int, ex: map<nat, int>, p: seq<Row>, last: Row)
    ensures Refilter(k, tTrough, ex, p + [last]) == RefilterRow(k, tTrough, Refilter(k, tTrough, ex, p), last)
    decreases |p|
  {
    if |p| > 0 {
      assert (p + [last])[1..] == p[1..] + [last];
      RefilterSnoc(k, tTrough, RefilterRow(k, tTrough, ex, p[0]), p[1..], last);
    }
  }

  // ---------------------------------------------------------------------------
  // The whole selection

  /** `filterTargetByControl`: the merge, the read screen over the target kmerLists' k-mer
      codes, and the final pass over the target lines; None where the merge fails. */
  method FilterTargetByControl(k: nat, target: seq<Row>, control: seq<Row>, kmerLists: seq<seq<nat>>, tTrough: int, cTrough: int)
    returns (r: Option<map<nat, int>>)
    ensures r == match Merge(k, control, tTrough, cTrough, Start, target)
      case None => None
      case Some(m) => Some(Refilter(k, tTrough, Screen(m.kmers, m.bf, kmerLists), target))
  {
    var exKmer, bf := FilterTargetKmerByControl(k, target, control, tTrough, cTrough);
    if exKmer.None? {
      return None;
    }
    var screened := ScreenReads(exKmer.value, bf, kmerLists);
    var result := RefilterByTarget(k, screened, target, tTrough);
    r := Some(result);
  }

  /** On sorted count files of DNA k-mers, every code selected is the code of a target line
      at or above the target trough, every target line with that code is at or above it,
      and the code holds the frequency of the last such line. */
  lemma SelectionFacts(k: nat, target: seq<Row>, control: seq<Row>, kmerLists: seq<seq<nat>>, tTrough: int, cTrough: int, c: nat)
    requires SortedRows(control) && SortedRows(target)
    requires forall i :: 0 <= i < |target| ==> |target[i].kmer| > 0 && Dna.IsDna(target[i].kmer)
    ensures var m := Merge(k, control, tTrough, cTrough, Start, target);
      m.Some? && var r := Refilter(k, tTrough, Screen(m.value.kmers, m.value.bf, kmerLists), target);
      (c in r ==> (exists i :: 0 <= i < |target| && Reaches(k, tTrough, target[i], c)))
      && (c in r ==> forall i :: 0 <= i < |target| && Codec.CanonicalOfString(k, target[i].kmer).0 == c ==> target[i].freq >= tTrough)
      && (c in r ==> LastFreq(k, target, c) == Some(r[c]))
  {
    MergeKeepsExclusive(k, control, tTrough, cTrough, target);
    var m := Merge(k, control, tTrough, cTrough, Start, target).value;
    var sc := Screen(m.kmers, m.bf, kmerLists);
    var r := Refilter(k, tTrough, sc, target);
    if c in r {
      RefilterKeeps(k, tTrough, sc, target, c);
      ScreenAdds(m.kmers, m.bf, kmerLists);
      ExclusiveHas(k, control, tTrough, cTrough, map[], target, c);
      InsertedHas(k, tTrough, target, c);
      var i :| 0 <= i < |target| && Reaches(k, tTrough, target[i], c);
      LastFreqSome(k, target, c, i);
    }
  }

  lemma {:induction false} LastFreqSome(k: nat, rows: seq<Row>, c: nat, i: nat)
    requires i < |rows| && Codec.CanonicalOfString(k, rows[i].kmer).0 == c
    ensures LastFreq(k, rows, c).Some?
    decreases |rows|
  {
    if i < |rows| - 1 && Codec.CanonicalOfString(k, rows[|rows| - 1].kmer).0 != c {
      LastFreqSome(k, rows[..|rows| - 1], c, i);
    }
  }
}
