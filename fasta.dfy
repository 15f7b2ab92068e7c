/** The FASTA text `writeContigsToFasta` writes (Assembler.kt lines 183-190): the contigs
    longer than the limit, in order, each as a header `>ExSeq<counter>_<length>` and the
    sequence on the next line. File handling is left to the caller; the model is the text. */
module Fasta {
  import opened Wrappers

  // ---------------------------------------------------------------------------
  // Decimal numerals (Kotlin's string template of an Int)

  predicate IsDigit(c: char) {
    '0' <= c <= '9'
  }

  predicate AllDigits(s: string) {
    forall i :: 0 <= i < |s| ==> IsDigit(s[i])
  }

  /** A numeral as the template writes one: digits, no leading zero except "0" itself. */
  predicate Canonical(s: string) {
    |s| > 0 && AllDigits(s) && (s[0] == '0' ==> |s| == 1)
  }

  function DigitChar(d: nat): (c: char)
    requires d < 10
    ensures IsDigit(c)
  {
    ['0', '1', '2', '3', '4', '5', '6', '7', '8', '9'][d]
  }

  function DigitValue(c: char): (d: nat)
    requires IsDigit(c)
    ensures d < 10
  {
    (c as int - '0' as int) as nat
  }

  lemma DigitRoundTrip(d: nat, c: char)
    ensures d < 10 ==> DigitValue(DigitChar(d)) == d
    ensures IsDigit(c) ==> DigitChar(DigitValue(c)) == c
  {
  }

  /** `$n` for a counter or a length. */
  function NatToString(n: nat): (s: string)
    ensures Canonical(s)
    decreases n
  {
    if n < 10 then [DigitChar(n)]
    else
      var s := NatToString(n / 10) + [DigitChar(n % 10)];
      assert s[0] == NatToString(n / 10)[0];
      s
  }

  /** The value of a digit string. */
  function ParseDigits(s: string): nat
    requires AllDigits(s)
    decreases |s|
  {
    if |s| == 0 then 0 else ParseDigits(s[..|s| - 1]) * 10 + DigitValue(s[|s| - 1])
  }

  /** Reading back a written number gives the number. */
  lemma {:induction false} ParseNatToString(n: nat)
    ensures ParseDigits(NatToString(n)) == n
    decreases n
  {
    DigitRoundTrip(n % 10, '0');
    if n >= 10 {
      ParseNatToString(n / 10);
      var s := NatToString(n);
      assert s[..|s| - 1] == NatToString(n / 10);
    }
  }

  /** Writing the value of a canonical numeral gives the numeral back. */
  lemma {:induction false} NatToStringParse(s: string)
    requires Canonical(s)
    ensures NatToString(ParseDigits(s)) == s
    decreases |s|
  {
    var p := s[..|s| - 1];
    var d := DigitValue(s[|s| - 1]);
    DigitRoundTrip(0, s[|s| - 1]);
    if |s| == 1 {
      assert ParseDigits(s) == d;
      assert ParseDigits(p) == 0;
    } else {
      assert p[0] == s[0];
      NatToStringParse(p);
      var n := ParseDigits(s);
      assert n == ParseDigits(p) * 10 + d;
      assert p != "0";
      assert NatToString(0) == "0";
      assert ParseDigits(p) > 0;
      assert n / 10 == ParseDigits(p) && n % 10 == d;
      assert s == p + [s[|s| - 1]];
    }
  }

  // ---------------------------------------------------------------------------
  // The records

  /** `contigs.filter { it.length > lengthLimit }`. */
  function Kept(contigs: seq<string>, limit: int): seq<string>
    decreases |contigs|
  {
    if |contigs| == 0 then []
    else (if |contigs[0]| > limit then [contigs[0]] else []) + Kept(contigs[1..], limit)
  }

  /** How many contigs are longer than the limit (the count the source prints). */
  function CountLonger(contigs: seq<string>, limit: int): nat
    decreases |contigs|
  {
    if |contigs| == 0 then 0
    else (if |contigs[0]| > limit then 1 else 0) + CountLonger(contigs[1..], limit)
  }

  /** The kept contigs are exactly the longer ones, in their order: every kept one is
      longer than the limit and a member of the input, there are as many as the count
      says, and a contig longer than the limit is kept. */
  lemma {:induction false} KeptFacts(contigs: seq<string>, limit: int)
    ensures forall i :: 0 <= i < |Kept(contigs, limit)| ==> |Kept(contigs, limit)[i]| > limit
    ensures forall c :: c in Kept(contigs, limit) <==> c in contigs && |c| > limit
    ensures |Kept(contigs, limit)| == CountLonger(contigs, limit)
    decreases |contigs|
  {
    if |contigs| > 0 {
      KeptFacts(contigs[1..], limit);
      assert contigs == [contigs[0]] + contigs[1..];
    }
  }

  /** A single contig is kept exactly when it is longer than the limit. */
  lemma KeptSingle(c: string, limit: int)
    ensures Kept([c], limit) == if |c| > limit then [c] else []
  {
    assert [c][1..] == [];
  }

  /** The filter keeps the relative order: filtering a concatenation filters each part in
      turn. */
  lemma {:induction false} KeptConcat(a: seq<string>, b: seq<string>, limit: int)
    ensures Kept(a + b, limit) == Kept(a, limit) + Kept(b, limit)
    decreases |a|
  {
    if |a| == 0 {
      assert a + b == b;
    } else {
      var h := if |a[0]| > limit then [a[0]] else [];
      var ab := a + b;
      assert ab[1..] == a[1..] + b;
      assert ab[0] == a[0];
      assert Kept(ab, limit) == h + Kept(a[1..] + b, limit);
      KeptConcat(a[1..], b, limit);
      assert Kept(a, limit) == h + Kept(a[1..], limit);
      assert h + (Kept(a[1..], limit) + Kept(b, limit)) == (h + Kept(a[1..], limit)) + Kept(b, limit);
    }
  }

  /** `">ExSeq${counter}_${contig.length}\n$contig\n"`. */
  function Record(counter: nat, contig: string): string {
    ">ExSeq" + NatToString(counter) + "_" + NatToString(|contig|) + "\n" + contig + "\n"
  }

  /** The records of cs, numbered from start. */
  function Records(cs: seq<string>, start: nat): string
    decreases |cs|
  {
    if |cs| == 0 then "" else Record(start, cs[0]) + Records(cs[1..], start + 1)
  }

  /** The text the writer receives. */
  function FastaText(contigs: seq<string>, limit: int): string {
    Records(Kept(contigs, limit), 0)
  }

  // ---------------------------------------------------------------------------
  // Reading the text back

  /** The text before the first c and the text after it. */
  function SplitAt(s: string, c: char): (r: Option<(string, string)>)
    ensures r.Some? ==> s == r.value.0 + [c] + r.value.1 && c !in r.value.0
    ensures r.None? ==> c !in s
    decreases |s|
  {
    if |s| == 0 then None
    else if s[0] == c then Some(([], s[1..]))
    else
      match SplitAt(s[1..], c)
      case None => None
      case Some(p) => Some(([s[0]] + p.0, p.1))
  }

  lemma {:induction false} SplitAtFirst(x: string, c: char, y: string)
    requires c !in x
    ensures SplitAt(x + [c] + y, c) == Some((x, y))
    decreases |x|
  {
    if |x| == 0 {
      assert x + [c] + y == [c] + y;
    } else {
      assert (x + [c] + y)[1..] == x[1..] + [c] + y;
      SplitAtFirst(x[1..], c, y);
      assert [x[0]] + x[1..] == x;
    }
  }

  /** One record: its counter, its sequence and the text after it; None unless the header
      has two canonical numerals and the stated length is the sequence's. */
  function ParseRecord(s: string): Option<(nat, string, string)> {
    if |s| < 6 || s[..6] != ">ExSeq" then None
    else
      match SplitAt(s[6..], '_')
      case None => None
      case Some(p) =>
        match SplitAt(p.1, '\n')
        case None => None
        case Some(q) =>
          match SplitAt(q.1, '\n')
          case None => None
          case Some(t) =>
            if Canonical(p.0) && Canonical(q.0) && ParseDigits(q.0) == |t.0| then Some((ParseDigits(p.0), t.0, t.1))
            else None
  }

  lemma NumeralHasNoSeparator(n: nat)
    ensures '_' !in NatToString(n) && '\n' !in NatToString(n)
  {
    var s := NatToString(n);
    forall i | 0 <= i < |s| ensures s[i] != '_' && s[i] != '\n' {
      assert IsDigit(s[i]);
    }
  }

  /** A record reads back as its counter and sequence, whatever follows it, for a
      sequence without line breaks. */
  lemma RecordRoundTrip(counter: nat, contig: string, rest: string)
    requires '\n' !in contig
    ensures ParseRecord(Record(counter, contig) + rest) == Some((counter, contig, rest))
  {
    var a, b := NatToString(counter), NatToString(|contig|);
    NumeralHasNoSeparator(counter);
    NumeralHasNoSeparator(|contig|);
    var s := Record(counter, contig) + rest;
    assert s == ">ExSeq" + (a + ['_'] + (b + ['\n'] + (contig + ['\n'] + rest)));
    assert s[6..] == a + ['_'] + (b + ['\n'] + (contig + ['\n'] + rest));
    SplitAtFirst(a, '_', b + ['\n'] + (contig + ['\n'] + rest));
    SplitAtFirst(b, '\n', contig + ['\n'] + rest);
    SplitAtFirst(contig, '\n', rest);
    ParseNatToString(counter);
    ParseNatToString(|contig|);
  }

  /** Every record of a text, in order; None if some part is not a record. */
  function ParseRecords(s: string): Option<seq<(nat, string)>>
    decreases |s|
  {
    if |s| == 0 then Some([])
    else
      match ParseRecord(s)
      case None => None
      case Some(r) =>
        if |r.2| >= |s| then None
        else
          match ParseRecords(r.2)
          case None => None
          case Some(rs) => Some([(r.0, r.1)] + rs)
  }

  /** The contigs numbered from start. */
  function Numbered(cs: seq<string>, start: nat): seq<(nat, string)>
    decreases |cs|
  {
    if |cs| == 0 then [] else [(start, cs[0])] + Numbered(cs[1..], start + 1)
  }

  lemma {:induction false} RecordsRoundTrip(cs: seq<string>, start: nat)
    requires forall i :: 0 <= i < |cs| ==> '\n' !in cs[i]
    ensures ParseRecords(Records(cs, start)) == Some(Numbered(cs, start))
    decreases |cs|
  {
    if |cs| > 0 {
      var rest := Records(cs[1..], start + 1);
      RecordRoundTrip(start, cs[0], rest);
      RecordsRoundTrip(cs[1..], start + 1);
    }
  }

  /** The written text reads back as the kept contigs numbered from 0, when no contig holds
      a line break (contigs are spelled in bases). */
  lemma FastaRoundTrip(contigs: seq<string>, limit: int)
    requires forall i :: 0 <= i < |contigs| ==> '\n' !in contigs[i]
    ensures ParseRecords(FastaText(contigs, limit)) == Some(Numbered(Kept(contigs, limit), 0))
  {
    KeptFacts(contigs, limit);
    var kept := Kept(contigs, limit);
    forall i | 0 <= i < |kept| ensures '\n' !in kept[i] {
      assert kept[i] in kept;
      var j :| 0 <= j < |contigs| && contigs[j] == kept[i];
    }
    RecordsRoundTrip(kept, 0);
  }
}
