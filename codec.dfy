/** The numeric k-mer codec of Util.kt (object Util) and the rolling decomposition
    `ReadFileReader.decomposeKmer`. A code is the 64-bit pattern of a Long, held as a
    nat below 4^K; the source compares Longs as signed numbers, which `Signed` models. */
module Codec {
  import opened Wrappers
  import opened Dna

  /** K values the 64-bit codes can hold. */
  predicate ValidK(k: int) {
    1 <= k <= 32
  }

  function Pow4(n: nat): (r: nat)
    ensures r >= 1
  {
    if n == 0 then 1 else 4 * Pow4(n - 1)
  }

  function Pow2(n: nat): (r: nat)
    ensures r >= 1
  {
    if n == 0 then 1 else 2 * Pow2(n - 1)
  }

  /** `ch.toLong() ushr 1 and 3`: the 2-bit symbol of a character (A=0, C=1, T=2, G=3). */
  function Sym(ch: char): (r: nat)
    ensures r < 4
  {
    ((ch as int) / 2) % 4
  }

  /** `decodeTable`. */
  const DecodeTable: seq<char> := ['A', 'C', 'T', 'G']

  /** `(c ushr 2j) and 3`: the j-th 2-bit digit, counted from the least significant. */
  function Digit(c: nat, j: nat): (r: nat)
    ensures r < 4
  {
    if j == 0 then c % 4 else Digit(c / 4, j - 1)
  }

  /** `xor 2` on a 2-bit symbol: the symbol of the complementary base. */
  function Flip(d: nat): (r: nat)
    requires d < 4
    ensures r < 4 && r != d
  {
    ((d as bv2) ^ 2) as nat
  }

  /** `Util.encode`: the symbol of position i weighted by 4^(|s|-1-i). The source shifts by
      2K-2(i+1), the same weight for the K-long strings it is given. */
  function Encode(s: string): nat
  {
    if s == [] then 0 else Sym(s[0]) * Pow4(|s| - 1) + Encode(s[1..])
  }

  /** `Util.decode`: digits k-1 down to 0, each looked up in `decodeTable`. */
  function Decode(k: nat, c: nat): (r: string)
    ensures |r| == k
  {
    if k == 0 then [] else [DecodeTable[Digit(c, k - 1)]] + Decode(k - 1, c)
  }

  /** The partial sum of `Util.reverse` over it = 2, 4, ..., 2t: digit k-t of c, flipped,
      placed at digit t-1. */
  function RevSum(k: nat, c: nat, t: nat): nat
    requires t <= k
  {
    if t == 0 then 0 else RevSum(k, c, t - 1) + Flip(Digit(c, k - t)) * Pow4(t - 1)
  }

  /** `Util.reverse`: the code of the reverse complement. */
  function Reverse(k: nat, c: nat): nat
  {
    RevSum(k, c, k)
  }

  /** The signed value of a 64-bit pattern, as a Kotlin Long compares. */
  function Signed(c: nat): int
  {
    if c < 0x8000_0000_0000_0000 then c else c - 0x1_0000_0000_0000_0000
  }

  /** `Util.canonical(kmer: Long)`: (c, 0) when c < reverse(c), otherwise (reverse(c), 1). */
  function Canonical(k: nat, c: nat): (nat, Bit)
  {
    var rc := Reverse(k, c);
    if Signed(c) < Signed(rc) then (c, 0) else (rc, 1)
  }

  /** `Util.canonical(kmer: String)`. */
  function CanonicalOfString(k: nat, s: string): (nat, Bit)
  {
    Canonical(k, Encode(s))
  }

  // ---------------------------------------------------------------------------
  // Arithmetic on 2-bit digits

  lemma {:induction false} DigitZero(j: nat)
    ensures Digit(0, j) == 0
  {
    if j > 0 { DigitZero(j - 1); }
  }

  /** The digits of hi * 4^m + lo: those of lo below m, hi at m, zero above. */
  lemma {:induction false} DigitSplit(hi: nat, lo: nat, m: nat, j: nat)
    requires hi < 4 && lo < Pow4(m)
    ensures Digit(hi * Pow4(m) + lo, j) == if j < m then Digit(lo, j) else if j == m then hi else 0
  {
    var x := hi * Pow4(m) + lo;
    if m == 0 {
      assert x == hi;
      if j > 0 { DigitZero(j - 1); }
    } else {
      var p := Pow4(m - 1);
      assert hi * Pow4(m) == 4 * (hi * p);
      assert x % 4 == lo % 4 && x / 4 == hi * p + lo / 4;
      if j > 0 {
        DigitSplit(hi, lo / 4, m - 1, j - 1);
      }
    }
  }

  /** Two codes below 4^n with the same n digits are equal. */
  lemma {:induction false} DigitsDetermine(a: nat, b: nat, n: nat)
    requires a < Pow4(n) && b < Pow4(n)
    requires forall j :: 0 <= j < n ==> Digit(a, j) == Digit(b, j)
    ensures a == b
  {
    if n > 0 {
      assert Digit(a, 0) == Digit(b, 0);
      forall j | 0 <= j < n - 1 ensures Digit(a / 4, j) == Digit(b / 4, j) {
        assert Digit(a, j + 1) == Digit(b, j + 1);
      }
      DigitsDetermine(a / 4, b / 4, n - 1);
    }
  }

  lemma SymOfTable(d: nat)
    requires d < 4
    ensures IsBase(DecodeTable[d]) && Sym(DecodeTable[d]) == d
  {
  }

  lemma TableOfSym(ch: char)
    requires IsBase(ch)
    ensures DecodeTable[Sym(ch)] == ch
    ensures Flip(Sym(ch)) == Sym(Comp(ch))
  {
  }

  // ---------------------------------------------------------------------------
  // Round trips

  /** Encode yields a code below 4^|s| whose j-th digit is the symbol of position |s|-1-j. */
  lemma {:induction false} EncodeDigits(s: string)
    ensures Encode(s) < Pow4(|s|)
    ensures forall j :: 0 <= j < |s| ==> Digit(Encode(s), j) == Sym(s[|s| - 1 - j])
  {
    if s != [] {
      var m := |s| - 1;
      EncodeDigits(s[1..]);
      var hi, lo := Sym(s[0]), Encode(s[1..]);
      assert hi * Pow4(m) <= 3 * Pow4(m);
      forall j | 0 <= j < |s| ensures Digit(Encode(s), j) == Sym(s[|s| - 1 - j]) {
        DigitSplit(hi, lo, m, j);
        if j < m { assert s[1..][|s[1..]| - 1 - j] == s[|s| - 1 - j]; }
      }
    }
  }

  /** Decode yields k DNA characters, position i being digit k-1-i looked up. */
  lemma {:induction false} DecodeAt(k: nat, c: nat)
    ensures |Decode(k, c)| == k && IsDna(Decode(k, c))
    ensures forall i :: 0 <= i < k ==> Decode(k, c)[i] == DecodeTable[Digit(c, k - 1 - i)]
  {
    if k > 0 {
      DecodeAt(k - 1, c);
      SymOfTable(Digit(c, k - 1));
      forall i | 0 <= i < k ensures IsBase(Decode(k, c)[i]) {
        if i > 0 { assert Decode(k, c)[i] == Decode(k - 1, c)[i - 1]; }
      }
      forall i | 0 <= i < k ensures Decode(k, c)[i] == DecodeTable[Digit(c, k - 1 - i)] {
        if i > 0 { assert Decode(k, c)[i] == Decode(k - 1, c)[i - 1]; }
      }
    }
  }

  /** decode(encode(s)) == s for every DNA string. */
  lemma DecodeEncode(s: string)
    requires IsDna(s)
    ensures Decode(|s|, Encode(s)) == s
  {
    EncodeDigits(s);
    DecodeAt(|s|, Encode(s));
    forall i | 0 <= i < |s| ensures Decode(|s|, Encode(s))[i] == s[i] {
      TableOfSym(s[i]);
      assert Digit(Encode(s), |s| - 1 - i) == Sym(s[i]);
    }
  }

  /** encode(decode(c)) == c for every code below 4^k. */
  lemma EncodeDecode(k: nat, c: nat)
    requires c < Pow4(k)
    ensures Encode(Decode(k, c)) == c
  {
    var s := Decode(k, c);
    DecodeAt(k, c);
    EncodeDigits(s);
    forall j | 0 <= j < k ensures Digit(Encode(s), j) == Digit(c, j) {
      SymOfTable(Digit(c, j));
      assert s[k - 1 - j] == DecodeTable[Digit(c, j)];
    }
    DigitsDetermine(Encode(s), c, k);
  }

  // ---------------------------------------------------------------------------
  // Reverse complement and canonical codes

  lemma {:induction false} RevSumDigits(k: nat, c: nat, t: nat)
    requires t <= k
    ensures RevSum(k, c, t) < Pow4(t)
    ensures forall j :: 0 <= j < t ==> Digit(RevSum(k, c, t), j) == Flip(Digit(c, k - 1 - j))
  {
    if t > 0 {
      RevSumDigits(k, c, t - 1);
      var hi, lo := Flip(Digit(c, k - t)), RevSum(k, c, t - 1);
      assert hi * Pow4(t - 1) <= 3 * Pow4(t - 1);
      assert RevSum(k, c, t) == hi * Pow4(t - 1) + lo;
      forall j | 0 <= j < t ensures Digit(RevSum(k, c, t), j) == Flip(Digit(c, k - 1 - j)) {
        DigitSplit(hi, lo, t - 1, j);
      }
    }
  }

  /** Digit j of reverse(c) is digit k-1-j of c, complemented by `xor 2`. */
  lemma ReverseDigits(k: nat, c: nat)
    ensures Reverse(k, c) < Pow4(k)
    ensures forall j :: 0 <= j < k ==> Digit(Reverse(k, c), j) == Flip(Digit(c, k - 1 - j))
  {
    RevSumDigits(k, c, k);
  }

  /** `reverse` is an involution on [0, 4^k). */
  lemma ReverseInvolution(k: nat, c: nat)
    requires c < Pow4(k)
    ensures Reverse(k, Reverse(k, c)) == c
  {
    var r := Reverse(k, c);
    ReverseDigits(k, c);
    ReverseDigits(k, r);
    forall j | 0 <= j < k ensures Digit(Reverse(k, r), j) == Digit(c, j) {
      assert Digit(r, k - 1 - j) == Flip(Digit(c, j));
      assert Flip(Flip(Digit(c, j))) == Digit(c, j);
    }
    DigitsDetermine(Reverse(k, r), c, k);
  }

  /** One digit of ReverseEncode. */
  lemma ReverseEncodeDigit(s: string, j: nat)
    requires IsDna(s) && j < |s|
    ensures Digit(Reverse(|s|, Encode(s)), j) == Digit(Encode(RevCompl(s)), j)
  {
    var n, r, e := |s|, RevCompl(s), Encode(s);
    RevComplDna(s);
    EncodeDigits(s);
    EncodeDigits(r);
    ReverseDigits(n, e);
    TableOfSym(s[j]);
    var i := n - 1 - j;
    assert n - 1 - i == j;
    assert Digit(Reverse(n, e), j) == Flip(Digit(e, i));
    assert Digit(e, i) == Sym(s[j]);
    assert r[i] == Comp(s[j]);
    assert Digit(Encode(r), j) == Sym(r[i]);
  }

  /** The numeric reverse of a DNA string's code is the code of its reverse complement. */
  lemma ReverseEncode(s: string)
    requires IsDna(s)
    ensures Reverse(|s|, Encode(s)) == Encode(RevCompl(s))
  {
    var n, r, e := |s|, RevCompl(s), Encode(s);
    RevComplDna(s);
    EncodeDigits(r);
    ReverseDigits(n, e);
    forall j | 0 <= j < n ensures Digit(Reverse(n, e), j) == Digit(Encode(r), j) {
      ReverseEncodeDigit(s, j);
    }
    DigitsDetermine(Reverse(n, e), Encode(r), n);
  }

  /** decode(reverse(c)) == revCompl(decode(c)). */
  lemma DecodeReverse(k: nat, c: nat)
    requires c < Pow4(k)
    ensures Decode(k, Reverse(k, c)) == RevCompl(Decode(k, c))
  {
    var s := Decode(k, c);
    DecodeAt(k, c);
    EncodeDecode(k, c);
    ReverseEncode(s);
    RevComplDna(s);
    DecodeEncode(RevCompl(s));
  }

  /** For odd k no code is its own reverse: the middle digit would equal its flip. */
  lemma NoReversePalindrome(k: nat, c: nat)
    requires k % 2 == 1
    ensures Reverse(k, c) != c
  {
    ReverseDigits(k, c);
    var mid := k / 2;
    assert k - 1 - mid == mid;
    assert Digit(Reverse(k, c), mid) != Digit(c, mid);
  }

  lemma {:induction false} Pow4Add(a: nat, b: nat)
    ensures Pow4(a + b) == Pow4(a) * Pow4(b)
  {
    if a > 0 {
      Pow4Add(a - 1, b);
      assert Pow4(a + b) == 4 * Pow4(a - 1 + b);
    }
  }

  lemma Pow4Of32()
    ensures Pow4(32) == 0x1_0000_0000_0000_0000
  {
    assert Pow4(4) == 256;
    Pow4Add(4, 4);
    Pow4Add(8, 8);
    Pow4Add(16, 16);
  }

  /** Codes of k <= 32 symbols fit in 64 bits. */
  lemma Pow4Fits(k: nat)
    requires k <= 32
    ensures Pow4(k) <= 0x1_0000_0000_0000_0000
  {
    var a, b := Pow4(k), Pow4(32 - k);
    Pow4Of32();
    Pow4Add(k, 32 - k);
    assert k + (32 - k) == 32;
    assert Pow4(32) == a * b;
    MulAtLeast(b, a);
    assert a <= b * a == a * b;
  }

  lemma CodeFits(k: nat, c: nat)
    requires ValidK(k) && c < Pow4(k)
    ensures c < 0x1_0000_0000_0000_0000
  {
    Pow4Fits(k);
  }

  /** The canonical code is c or reverse(c), below 4^k and not above c in signed order;
      flag 0 exactly when c is kept because it is below its reverse. */
  lemma CanonicalChoice(k: nat, c: nat)
    requires c < Pow4(k)
    ensures var r := Canonical(k, c);
      (r.0 == c || r.0 == Reverse(k, c)) && r.0 < Pow4(k) && Signed(r.0) <= Signed(c)
      && (r.1 == 0 <==> r.0 == c && Signed(c) < Signed(Reverse(k, c)))
  {
    ReverseDigits(k, c);
  }

  /** c and reverse(c) have the same canonical code; their flags differ exactly when c and
      reverse(c) differ, which is always the case for odd k. */
  lemma CanonicalSymmetric(k: nat, c: nat)
    requires ValidK(k) && c < Pow4(k)
    ensures Canonical(k, Reverse(k, c)).0 == Canonical(k, c).0
    ensures Canonical(k, Reverse(k, c)).1 != Canonical(k, c).1 <==> Reverse(k, c) != c
    ensures k % 2 == 1 ==> Canonical(k, Reverse(k, c)).1 == Xor1(Canonical(k, c).1)
  {
    var rc := Reverse(k, c);
    ReverseDigits(k, c);
    ReverseInvolution(k, c);
    CodeFits(k, c);
    CodeFits(k, rc);
    assert Signed(c) == Signed(rc) <==> c == rc;
    if k % 2 == 1 { NoReversePalindrome(k, c); }
  }

  // ---------------------------------------------------------------------------
  // Rolling decomposition of a read

  lemma {:induction false} MulAtLeast(d: int, p: int)
    requires p >= 0
    ensures d >= 1 ==> d * p >= p
    ensures d <= -1 ==> d * p <= -p
    decreases if d < 0 then -d else d
  {
    if d > 1 {
      MulAtLeast(d - 1, p);
      assert d * p == (d - 1) * p + p;
    } else if d < -1 {
      MulAtLeast(d + 1, p);
      assert d * p == (d + 1) * p - p;
    }
  }

  /** Division of a*p + b by p when b < p. */
  lemma MulAddDivMod(a: nat, p: nat, b: nat)
    requires 0 <= b < p
    ensures (a * p + b) / p == a && (a * p + b) % p == b
  {
    var x := a * p + b;
    var q, r := x / p, x % p;
    assert x == q * p + r;
    assert (q - a) * p == q * p - a * p;
    assert (q - a) * p == b - r;
    MulAtLeast(q - a, p);
  }

  /** Appending a character: Horner's step. */
  lemma {:induction false} EncodeAppend(p: string, ch: char)
    ensures Encode(p + [ch]) == 4 * Encode(p) + Sym(ch)
  {
    if p == [] {
      assert p + [ch] == [ch];
    } else {
      assert (p + [ch])[1..] == p[1..] + [ch];
      EncodeAppend(p[1..], ch);
      var a := Sym(p[0]);
      assert a * Pow4(|p|) == 4 * (a * Pow4(|p| - 1));
    }
  }

  /** Dropping the first character keeps the code modulo 4^(|w|-1). */
  lemma EncodeDropFirst(w: string)
    requires |w| >= 1
    ensures Encode(w) % Pow4(|w| - 1) == Encode(w[1..])
  {
    EncodeDigits(w[1..]);
    MulAddDivMod(Sym(w[0]), Pow4(|w| - 1), Encode(w[1..]));
  }

  /** Shifting left by two bits under a mask of 2k bits drops the top digit. */
  lemma ModScale(x: nat, p: nat)
    requires p > 0
    ensures (4 * x) % (4 * p) == 4 * (x % p)
  {
    var q, r := x / p, x % p;
    assert 4 * x == q * (4 * p) + 4 * r;
    MulAddDivMod(q, 4 * p, 4 * r);
  }

  /** One step of the rolling window with the mask 4^k - 1 (the full 64-bit pattern -1 when
      k = 32): `kmer = ((kmer shl 2) and mod) + symbol`. */
  function Roll(k: nat, kmer: nat, ch: char): nat
  {
    (kmer * 4) % Pow4(k) + Sym(ch)
  }

  /** `ReadFileReader.decomposeKmer`: the canonical code of every K-long window of the read,
      left to right, by a rolling code. The source first reads the K-1 leading characters,
      so a read shorter than K-1 raises an index error there: None. */
  method DecomposeKmer(k: nat, read: string) returns (r: Option<seq<nat>>)
    requires ValidK(k)
    ensures r.None? <==> |read| < k - 1
    ensures r.Some? ==> |r.value| == |read| - k + 1
    ensures r.Some? ==> forall j :: 0 <= j < |r.value| ==> r.value[j] == Canonical(k, Encode(read[j..j + k])).0
  {
    if |read| < k - 1 {
      return None;
    }
    // (1..K-1).map { symbol of read[it-1] shl 2(K-1-it) }.sum() is the code of the first K-1 characters
    var kmer: nat := Encode(read[..k - 1]);
    EncodeDigits(read[..k - 1]);
    MulAddDivMod(0, Pow4(k - 1), kmer);
    assert read[k - k .. k - 1] == read[..k - 1];
    var codes := [];
    var it := k;
    while it <= |read|
      invariant k <= it <= |read| + 1
      invariant |codes| == it - k
      invariant forall j :: 0 <= j < |codes| ==> codes[j] == Canonical(k, Encode(read[j..j + k])).0
      invariant kmer % Pow4(k - 1) == Encode(read[it - k .. it - 1])
    {
      RollWindow(k, kmer, read, it);
      kmer := Roll(k, kmer, read[it - 1]);
      WindowCodesStep(k, read, it, codes, kmer);
      codes := codes + [Canonical(k, kmer).0];
      it := it + 1;
    }
    return Some(codes);
  }

  /** Appending the canonical code of window it - K .. it extends the codes of the windows
      before it. */
  lemma WindowCodesStep(k: nat, read: string, it: nat, codes: seq<nat>, kmer: nat)
    requires k <= it <= |read| && |codes| == it - k && kmer == Encode(read[it - k .. it])
    requires forall j :: 0 <= j < |codes| ==> codes[j] == Canonical(k, Encode(read[j..j + k])).0
    ensures var next := codes + [Canonical(k, kmer).0];
      forall j :: 0 <= j < |next| ==> next[j] == Canonical(k, Encode(read[j..j + k])).0
  {
    var next := codes + [Canonical(k, kmer).0];
    assert read[it - k .. it - k + k] == read[it - k .. it];
    assert forall j :: 0 <= j < |codes| ==> next[j] == codes[j];
  }

  /** One rolling step turns the code of the last K-1 characters into the code of the
      next window. */
  lemma RollWindow(k: nat, kmer: nat, read: string, it: nat)
    requires 1 <= k <= it <= |read|
    requires kmer % Pow4(k - 1) == Encode(read[it - k .. it - 1])
    ensures Roll(k, kmer, read[it - 1]) == Encode(read[it - k .. it])
    ensures Encode(read[it - k .. it]) % Pow4(k - 1) == Encode(read[it - k + 1 .. it])
  {
    var window := read[it - k .. it];
    assert window == read[it - k .. it - 1] + [read[it - 1]];
    assert Pow4(k) == 4 * Pow4(k - 1);
    ModScale(kmer, Pow4(k - 1));
    EncodeAppend(read[it - k .. it - 1], read[it - 1]);
    EncodeDropFirst(window);
    assert window[1..] == read[it - k + 1 .. it];
  }

  /** The mask `(1L shl 2*K) - 1` as written: a Long shift uses only the low six bits of
      its distance. */
  function RollMaskAsWritten(k: nat): nat
  {
    Pow2((2 * k) % 64) - 1
  }

  /** The rolling step as written: `and` with 2^m - 1 keeps the low m bits, so the step is
      the shifted code taken modulo 2^((2K) mod 64), plus the new symbol. */
  function RollAsWritten(k: nat, kmer: nat, ch: char): nat
  {
    (kmer * 4) % (RollMaskAsWritten(k) + 1) + Sym(ch)
  }

  lemma {:induction false} Pow2Double(k: nat)
    ensures Pow2(2 * k) == Pow4(k)
  {
    if k > 0 {
      Pow2Double(k - 1);
      assert Pow2(2 * k) == 4 * Pow2(2 * (k - 1));
    }
  }

  /** For K <= 31 the step as written is the intended one. */
  lemma RollAsWrittenBelow32(k: nat, kmer: nat, ch: char)
    requires 1 <= k <= 31
    ensures RollMaskAsWritten(k) + 1 == Pow4(k)
    ensures RollAsWritten(k, kmer, ch) == Roll(k, kmer, ch)
  {
    assert (2 * k) % 64 == 2 * k;
    Pow2Double(k);
  }

  /** K = 32 passes the K check, but the mask is 0: each window's code is just its last
      symbol. On a read of 32 G's the code of the only window comes out as 3, while its
      encoding is 3 * 4^31 + ... > 3. */
  lemma RollAsWrittenAt32(kmer: nat, ch: char)
    ensures RollMaskAsWritten(32) == 0
    ensures RollAsWritten(32, kmer, ch) == Sym(ch)
    ensures var w := seq(32, _ => 'G');
      RollAsWritten(32, Encode(w[..31]), 'G') == 3 && Encode(w) != 3
  {
    assert (2 * 32) % 64 == 0 && Pow2(0) == 1;
    assert (kmer * 4) % 1 == 0;
    var w := seq(32, _ => 'G');
    assert w[0] == 'G' && Sym('G') == 3;
    var p := Pow4(31);
    assert p == 4 * Pow4(30);
    assert Encode(w) == 3 * p + Encode(w[1..]);
    assert w[..31][31 - 1] == 'G';
  }
}
