/** Decimal numerals as printf, to_string, strtol and atoi write and read them. */
module Decimal {
  predicate IsDigit(c: char) { '0' <= c <= '9' }

  predicate AllDigits(s: string) { forall i :: 0 <= i < |s| ==> IsDigit(s[i]) }

  function DigitValue(c: char): nat
    requires IsDigit(c)
  {
    (c - '0') as int
  }

  function DigitChar(d: nat): (c: char)
    requires d < 10
    ensures IsDigit(c) && DigitValue(c) == d
  {
    '0' + d as char
  }

  /** The number a string of digits stands for. */
  function Number(s: string): nat
    requires AllDigits(s)
  {
    if s == [] then 0 else 10 * Number(s[..|s| - 1]) + DigitValue(s[|s| - 1])
  }

  /** The shortest numeral of a number. */
  function Numeral(n: nat): (s: string)
    ensures s != [] && AllDigits(s) && Number(s) == n
  {
    if n < 10 then
      assert Number([]) == 0; [DigitChar(n)]
    else
      var s := Numeral(n / 10);
      assert (s + [DigitChar(n % 10)])[..|s|] == s;
      s + [DigitChar(n % 10)]
  }

  function Power10(k: nat): nat { if k == 0 then 1 else 10 * Power10(k - 1) }

  lemma {:induction false} NumberBound(s: string)
    requires AllDigits(s)
    ensures Number(s) < Power10(|s|)
  {
    if s != [] { NumberBound(s[..|s| - 1]); }
  }

  /** A numeral of at most k digits is one of a number below the k-th power of ten. */
  lemma {:induction false} NumeralLength(n: nat, k: nat)
    requires k > 0
    ensures |Numeral(n)| <= k <==> n < Power10(k)
  {
    if k == 1 {
      assert Power10(1) == 10;
    } else if n < 10 {
      PowerAtLeast(k);
    } else {
      NumeralLength(n / 10, k - 1);
    }
  }

  lemma {:induction false} PowerAtLeast(k: nat)
    requires k > 0
    ensures Power10(k) >= 10
  {
    if k > 1 { PowerAtLeast(k - 1); }
  }

  function Zeros(k: nat): (s: string)
    ensures |s| == k && AllDigits(s)
  {
    seq(k, _ => '0')
  }

  /** The conversion %0wd. */
  function Padded(n: nat, w: nat): (s: string)
    ensures AllDigits(s) && |s| >= w && s != []
  {
    var s := Numeral(n);
    if |s| < w then Zeros(w - |s|) + s else s
  }

  lemma {:induction false} LeadingZeros(k: nat, s: string)
    requires AllDigits(s)
    ensures AllDigits(Zeros(k) + s) && Number(Zeros(k) + s) == Number(s)
  {
    if s != [] {
      LeadingZeros(k, s[..|s| - 1]);
      assert (Zeros(k) + s)[..k + |s| - 1] == Zeros(k) + s[..|s| - 1];
    } else if k > 0 {
      LeadingZeros(k - 1, s);
      assert Zeros(k) + s == (Zeros(k - 1) + s) + ['0'];
      assert ((Zeros(k - 1) + s) + ['0'])[..k - 1] == Zeros(k - 1) + s;
    }
  }

  lemma PaddedNumber(n: nat, w: nat)
    ensures Number(Padded(n, w)) == n
    ensures w > 0 && n < Power10(w) ==> |Padded(n, w)| == w
  {
    var s := Numeral(n);
    if |s| < w { LeadingZeros(w - |s|, s); }
    if w > 0 { NumeralLength(n, w); }
  }

  // ---- strtol and atoi --------------------------------------------------------------------------

  /** The white space that strtol skips. */
  predicate IsSpace(c: char) { c == ' ' || '\t' <= c <= '\r' }

  function SkipSpaces(s: string, i: nat): (r: nat)
    requires i <= |s|
    ensures i <= r <= |s| && (r < |s| ==> !IsSpace(s[r]))
    decreases |s| - i
  {
    if i < |s| && IsSpace(s[i]) then SkipSpaces(s, i + 1) else i
  }

  function SkipDigits(s: string, i: nat): (r: nat)
    requires i <= |s|
    ensures i <= r <= |s| && AllDigits(s[i..r]) && (r < |s| ==> !IsDigit(s[r]))
    decreases |s| - i
  {
    if i < |s| && IsDigit(s[i]) then
      var r := SkipDigits(s, i + 1);
      assert s[i..r] == [s[i]] + s[i + 1..r];
      r
    else i
  }

  datatype Scan = NoNumber | Scanned(value: int, end: nat)

  /** strtol in base ten from position i: the value and the position behind it, if there is a number. */
  function Strtol(s: string, i: nat): (r: Scan)
    requires i <= |s|
    ensures r.Scanned? ==> i < r.end <= |s|
  {
    var start := SkipSpaces(s, i);
    var signed := start < |s| && (s[start] == '-' || s[start] == '+');
    var first := if signed then start + 1 else start;
    var end := SkipDigits(s, first);
    if first == end then NoNumber
    else
      var n: int := Number(s[first..end]);
      Scanned(if signed && s[start] == '-' then -n else n, end)
  }

  /** atoi of the whole string. */
  function Atoi(s: string): int {
    match Strtol(s, 0)
    case NoNumber => 0
    case Scanned(v, _) => v
  }

  lemma {:induction false} SkipDigitsTo(s: string, i: nat, r: nat)
    requires i <= r <= |s| && AllDigits(s[i..r]) && (r < |s| ==> !IsDigit(s[r]))
    ensures SkipDigits(s, i) == r
    decreases r - i
  {
    if i < r {
      assert s[i] == s[i..r][0];
      assert s[i + 1..r] == s[i..r][1..];
      SkipDigitsTo(s, i + 1, r);
    }
  }

  /** A run of digits between positions reads as its number. */
  lemma StrtolDigits(s: string, i: nat, r: nat)
    requires i < r <= |s| && AllDigits(s[i..r]) && (r < |s| ==> !IsDigit(s[r]))
    ensures Strtol(s, i) == Scanned(Number(s[i..r]), r)
  {
    assert IsDigit(s[i]) by { assert s[i] == s[i..r][0]; }
    assert SkipSpaces(s, i) == i;
    SkipDigitsTo(s, i, r);
  }

  /** A run of digits behind a minus reads as the negative number. */
  lemma StrtolMinus(s: string, i: nat, r: nat)
    requires i + 1 < r <= |s| && s[i] == '-' && AllDigits(s[i + 1..r]) && (r < |s| ==> !IsDigit(s[r]))
    ensures Strtol(s, i) == Scanned(-(Number(s[i + 1..r]) as int), r)
  {
    assert SkipSpaces(s, i) == i;
    SkipDigitsTo(s, i + 1, r);
  }

  lemma AtoiDigits(s: string)
    requires s != [] && AllDigits(s)
    ensures Atoi(s) == Number(s)
  {
    assert s[0..|s|] == s;
    StrtolDigits(s, 0, |s|);
  }

  /** Whatever it holds, a short text reads as a small number. */
  lemma AtoiBound(s: string)
    ensures Atoi(s) < Power10(|s|)
  {
    var start := SkipSpaces(s, 0);
    var signed := start < |s| && (s[start] == '-' || s[start] == '+');
    var first := if signed then start + 1 else start;
    var end := SkipDigits(s, first);
    PartBound(s, first, end);
    hide Number, Power10, SkipSpaces, SkipDigits;
  }

  lemma PartBound(s: string, first: nat, end: nat)
    requires first <= end <= |s| && AllDigits(s[first..end])
    ensures Number(s[first..end]) < Power10(|s|) && Power10(|s|) > 0
  {
    NumberBound(s[first..end]);
    PowersAscend(end - first, |s|);
    PowersAscend(0, |s|);
    hide Number, Power10;
  }

  lemma {:induction false} PowersAscend(j: nat, k: nat)
    requires j <= k
    ensures 1 <= Power10(j) <= Power10(k)
  {
    if j < k { PowersAscend(j, k - 1); }
    else if j > 0 { PowersAscend(j - 1, k - 1); }
  }
}
