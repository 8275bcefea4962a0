/**
 The string operations the expansion engine borrows from Python's `str`:
 searching for a separator, `split`, single-character `replace`, `str(n)` on a
 non-negative integer and `zfill`.
 */
module Text {
  import opened Wrappers

  /** `pat` occurs in `s` starting at index `k`. */
  predicate OccursAt(s: string, pat: string, k: nat) {
    k + |pat| <= |s| && s[k..k + |pat|] == pat
  }

  /** `pat` occurs somewhere in `s`. */
  predicate Contains(s: string, pat: string) {
    exists k: nat | k <= |s| :: OccursAt(s, pat, k)
  }

  /** An occurrence in the right operand of a concatenation is one in the whole, shifted by the left length. */
  lemma OccursAtShift(c: string, d: string, pat: string, m: nat)
    ensures OccursAt(c + d, pat, |c| + m) <==> OccursAt(d, pat, m)
  {
    if m + |pat| <= |d| {
      assert (c + d)[|c| + m..|c| + m + |pat|] == d[m..m + |pat|];
    }
  }

  /** An occurrence that ends inside the left operand of a concatenation is one in that operand. */
  lemma OccursAtPrefix(a: string, b: string, pat: string, k: nat)
    requires k + |pat| <= |a|
    ensures OccursAt(a + b, pat, k) <==> OccursAt(a, pat, k)
  {
    assert (a + b)[k..k + |pat|] == a[k..k + |pat|];
  }

  /** The first position at or after `from` at which a non-empty `pat` occurs in `s`, if any. */
  function FindFrom(s: string, pat: string, from: nat): (r: Option<nat>)
    requires |pat| > 0
    ensures r.Some? ==> from <= r.value && OccursAt(s, pat, r.value)
    ensures r.Some? ==> forall j: nat :: from <= j < r.value ==> !OccursAt(s, pat, j)
    ensures r.None? ==> forall j: nat :: from <= j ==> !OccursAt(s, pat, j)
    decreases |s| - from
  {
    if from + |pat| > |s| then None
    else if OccursAt(s, pat, from) then Some(from)
    else FindFrom(s, pat, from + 1)
  }

  /** The first position at which a non-empty `pat` occurs in `s`, if any (Python's `s.find(pat)`). */
  function Find(s: string, pat: string): (r: Option<nat>)
    requires |pat| > 0
    ensures r.Some? ==> OccursAt(s, pat, r.value)
    ensures r.Some? ==> forall j: nat :: j < r.value ==> !OccursAt(s, pat, j)
    ensures r.None? <==> !Contains(s, pat)
  {
    FindFrom(s, pat, 0)
  }

  /** The pieces joined back together with `sep` between consecutive pieces. */
  function Join(pieces: seq<string>, sep: string): string
    requires |pieces| > 0
  {
    if |pieces| == 1 then pieces[0] else pieces[0] + sep + Join(pieces[1..], sep)
  }

  /**
   Python's `s.split(sep)` for a non-empty separator: the text between the
   non-overlapping occurrences of `sep`, found left to right.
   */
  function Split(s: string, sep: string): (pieces: seq<string>)
    requires |sep| > 0
    ensures |pieces| >= 1
    ensures Join(pieces, sep) == s
    ensures forall i :: 0 <= i < |pieces| ==> !Contains(pieces[i], sep)
    ensures forall j: nat :: j < |pieces[0]| ==> !OccursAt(s, sep, j)
    ensures |pieces| == 1 <==> !Contains(s, sep)
    decreases |s|
  {
    match Find(s, sep)
    case None => [s]
    case Some(k) =>
      var rest := Split(s[k + |sep|..], sep);
      PrefixFree(s, sep, k);
      assert s == s[..k] + sep + s[k + |sep|..];
      [s[..k]] + rest
  }

  /** The first piece is the text up to the first occurrence of `sep`, or the whole text when there is none. */
  lemma SplitFirstPiece(s: string, sep: string)
    requires |sep| > 0
    ensures var p := Split(s, sep)[0];
      && |p| <= |s| && s[..|p|] == p
      && (|p| < |s| ==> OccursAt(s, sep, |p|))
  {
    var pieces := Split(s, sep);
    var p := pieces[0];
    if |pieces| > 1 {
      assert s == p + sep + Join(pieces[1..], sep);
      assert s[|p|..|p| + |sep|] == sep;
    }
  }

  /** No occurrence starts before the first one, so the text before it holds none. */
  lemma PrefixFree(s: string, sep: string, k: nat)
    requires |sep| > 0 && k <= |s|
    requires forall j: nat :: j < k ==> !OccursAt(s, sep, j)
    ensures !Contains(s[..k], sep)
  {
    if Contains(s[..k], sep) {
      var j: nat :| OccursAt(s[..k], sep, j);
      assert OccursAt(s[..k], sep, j);
      assert j + |sep| <= |s[..k]|;
      assert j < k;
      assert s == s[..k] + s[k..];
      OccursAtPrefix(s[..k], s[k..], sep, j);
      assert false;
    }
  }

  /** The first occurrence is the one `Find` reports. */
  lemma FindIs(s: string, pat: string, k: nat)
    requires |pat| > 0 && OccursAt(s, pat, k)
    requires forall j: nat :: j < k ==> !OccursAt(s, pat, j)
    ensures Find(s, pat) == Some(k)
  {
  }

  /** Searching `c + d` when no occurrence starts inside `c` finds the first occurrence in `d`, shifted. */
  lemma FindSkip(c: string, d: string, sep: string)
    requires |sep| > 0
    requires forall k: nat :: k < |c| ==> !OccursAt(c + d, sep, k)
    ensures Find(d, sep).None? ==> Find(c + d, sep).None?
    ensures Find(d, sep).Some? ==> Find(c + d, sep) == Some(|c| + Find(d, sep).value)
  {
    var g := Find(d, sep);
    if g.Some? {
      var m := g.value;
      forall j: nat | j < |c| + m
        ensures !OccursAt(c + d, sep, j)
      {
        if j >= |c| {
          OccursAtShift(c, d, sep, j - |c|);
        }
      }
      OccursAtShift(c, d, sep, m);
      FindIs(c + d, sep, |c| + m);
    } else if Find(c + d, sep).Some? {
      var k := Find(c + d, sep).value;
      OccursAtShift(c, d, sep, k - |c|);
      assert false;
    }
  }

  /**
   Splitting `c + d` when no occurrence of `sep` starts inside `c`: the first
   piece grows by `c`, and the later pieces are those of `d`.
   */
  lemma SplitSkip(c: string, d: string, sep: string)
    requires |sep| > 0
    requires forall k: nat :: k < |c| ==> !OccursAt(c + d, sep, k)
    ensures Split(c + d, sep)[0] == c + Split(d, sep)[0]
    ensures Split(c + d, sep)[1..] == Split(d, sep)[1..]
  {
    FindSkip(c, d, sep);
    match Find(d, sep)
    case None =>
    case Some(m) =>
      assert (c + d)[..|c| + m] == c + d[..m];
      assert (c + d)[|c| + m + |sep|..] == d[m + |sep|..];
  }

  /** A text that starts with `sep` splits into an empty piece followed by the split of the remainder. */
  lemma SplitLeading(sep: string, x: string)
    requires |sep| > 0
    ensures Split(sep + x, sep) == [""] + Split(x, sep)
  {
    assert (sep + x)[..|sep|] == sep;
    assert (sep + x)[|sep|..] == x;
  }

  /** No occurrence of `sep` starts in `s` at a position from `start` up to, not including, `start + len`. */
  predicate NoCutInside(s: string, sep: string, start: nat, len: nat) {
    forall j: nat :: start <= j < start + len ==> !OccursAt(s, sep, j)
  }

  /** Where piece `i` starts in the text that the pieces, joined with `sep`, spell out. */
  function PieceStart(pieces: seq<string>, sep: string, i: nat): nat
    requires i < |pieces|
    decreases i
  {
    if i == 0 then 0 else PieceStart(pieces, sep, i - 1) + |pieces[i - 1]| + |sep|
  }

  /**
   The cuts are the leftmost non-overlapping occurrences: scanning from the
   left, no occurrence of `sep` starts inside any piece.
   */
  predicate LeftmostCuts(s: string, sep: string, pieces: seq<string>) {
    forall i :: 0 <= i < |pieces| ==> NoCutInside(s, sep, PieceStart(pieces, sep, i), |pieces[i]|)
  }

  /** Piece `i > 0` starts after the first piece and its separator, at its own start among the later pieces. */
  lemma {:induction false} PieceStartShift(pieces: seq<string>, sep: string, i: nat)
    requires 0 < i < |pieces|
    ensures PieceStart(pieces, sep, i) == |pieces[0]| + |sep| + PieceStart(pieces[1..], sep, i - 1)
    decreases i
  {
    if i > 1 {
      PieceStartShift(pieces, sep, i - 1);
    }
  }

  /** No-cut facts about the text after a prefix `c` are no-cut facts about `c + d`, shifted by `|c|`. */
  lemma NoCutShift(c: string, d: string, sep: string, start: nat, len: nat)
    ensures NoCutInside(c + d, sep, |c| + start, len) <==> NoCutInside(d, sep, start, len)
  {
    forall j: nat | start <= j < start + len
      ensures OccursAt(c + d, sep, |c| + j) <==> OccursAt(d, sep, j)
    {
      OccursAtShift(c, d, sep, j);
    }
    if !NoCutInside(c + d, sep, |c| + start, len) {
      var j: nat :| |c| + start <= j < |c| + start + len && OccursAt(c + d, sep, j);
      assert OccursAt(d, sep, j - |c|);
    }
  }

  /** `Split` cuts at the leftmost non-overlapping occurrences of `sep`, and only there. */
  lemma {:induction false} SplitCuts(s: string, sep: string)
    requires |sep| > 0
    ensures LeftmostCuts(s, sep, Split(s, sep))
    decreases |s|
  {
    var pieces := Split(s, sep);
    match Find(s, sep)
    case None =>
      assert pieces == [s];
      forall j: nat | j < |s|
        ensures !OccursAt(s, sep, j)
      {
        if OccursAt(s, sep, j) {
          assert Contains(s, sep);
        }
      }
      assert NoCutInside(s, sep, PieceStart(pieces, sep, 0), |pieces[0]|);
    case Some(k) =>
      var c := s[..k + |sep|];
      var t := s[k + |sep|..];
      SplitCuts(t, sep);
      assert pieces == [s[..k]] + Split(t, sep);
      assert c + t == s;
      forall i | 0 <= i < |pieces|
        ensures NoCutInside(s, sep, PieceStart(pieces, sep, i), |pieces[i]|)
      {
        if i > 0 {
          PieceStartShift(pieces, sep, i);
          assert pieces[1..] == Split(t, sep);
          NoCutShift(c, t, sep, PieceStart(pieces[1..], sep, i - 1), |pieces[i]|);
        }
      }
  }

  /** A text with no occurrence of `sep` starting anywhere splits into itself alone. */
  lemma SplitWhole(s: string, sep: string)
    requires |sep| > 0 && NoCutInside(s, sep, 0, |s|)
    ensures Split(s, sep) == [s]
  {
  }

  /** When no occurrence starts inside `p`, splitting `p + sep + t` cuts first right after `p`. */
  lemma SplitFirstCut(p: string, t: string, sep: string)
    requires |sep| > 0 && NoCutInside(p + sep + t, sep, 0, |p|)
    ensures Split(p + sep + t, sep) == [p] + Split(t, sep)
  {
    var s := p + sep + t;
    assert s[|p|..|p| + |sep|] == sep;
    assert OccursAt(s, sep, |p|);
    var m := Find(s, sep).value;
    assert m == |p|;
    assert s[..m] == p && s[m + |sep|..] == t;
  }

  /** The leftmost-cut property of all pieces carries over to the later pieces and the text after the first cut. */
  lemma LeftmostCutsTail(pieces: seq<string>, sep: string, t: string)
    requires |pieces| > 1 && LeftmostCuts(pieces[0] + sep + t, sep, pieces)
    ensures LeftmostCuts(t, sep, pieces[1..])
  {
    var c := pieces[0] + sep;
    assert c + t == pieces[0] + sep + t;
    forall i | 0 <= i < |pieces[1..]|
      ensures NoCutInside(t, sep, PieceStart(pieces[1..], sep, i), |pieces[1..][i]|)
    {
      PieceStartShift(pieces, sep, i + 1);
      assert NoCutInside(c + t, sep, PieceStart(pieces, sep, i + 1), |pieces[i + 1]|);
      NoCutShift(c, t, sep, PieceStart(pieces[1..], sep, i), |pieces[i + 1]|);
    }
  }

  /**
   `Split` is the only way to cut `s` into pieces joined by `sep` with no
   occurrence of `sep` starting inside a piece: Python's left-to-right,
   non-overlapping `split` is fully determined.
   */
  lemma {:induction false} SplitUnique(s: string, sep: string, pieces: seq<string>)
    requires |sep| > 0 && |pieces| >= 1
    requires Join(pieces, sep) == s
    requires LeftmostCuts(s, sep, pieces)
    ensures pieces == Split(s, sep)
    decreases |pieces|
  {
    assert NoCutInside(s, sep, PieceStart(pieces, sep, 0), |pieces[0]|);
    if |pieces| == 1 {
      SplitWhole(s, sep);
    } else {
      var t := Join(pieces[1..], sep);
      SplitFirstCut(pieces[0], t, sep);
      LeftmostCutsTail(pieces, sep, t);
      SplitUnique(t, sep, pieces[1..]);
    }
  }

  /** Every character of `s` equal to `a` replaced by `b` (Python's `s.replace(a, b)` for one character). */
  function ReplaceChar(s: string, a: char, b: char): (r: string)
    ensures |r| == |s|
    ensures forall i :: 0 <= i < |s| ==> r[i] == (if s[i] == a then b else s[i])
  {
    if |s| == 0 then "" else [if s[0] == a then b else s[0]] + ReplaceChar(s[1..], a, b)
  }

  predicate IsDigit(c: char) {
    '0' <= c <= '9'
  }

  predicate AllDigits(s: string) {
    forall i :: 0 <= i < |s| ==> IsDigit(s[i])
  }

  function DigitChar(d: nat): (c: char)
    requires d < 10
    ensures IsDigit(c)
  {
    ('0' as int + d) as char
  }

  function DigitValue(c: char): (d: nat)
    requires IsDigit(c)
    ensures d < 10
  {
    c as int - '0' as int
  }

  /** Python's `str(n)` for a non-negative integer: decimal digits, no leading zero. */
  function DecimalString(n: nat): (r: string)
    ensures |r| >= 1 && AllDigits(r)
    ensures |r| > 1 ==> r[0] != '0'
    ensures n < 10 <==> |r| == 1
    decreases n
  {
    if n < 10 then [DigitChar(n)] else DecimalString(n / 10) + [DigitChar(n % 10)]
  }

  /** The value of a string of decimal digits, most significant first; leading zeros are allowed. */
  function ParseDecimal(s: string): nat
    requires AllDigits(s)
    decreases |s|
  {
    if |s| == 0 then 0 else ParseDecimal(s[..|s| - 1]) * 10 + DigitValue(s[|s| - 1])
  }

  /** Reading `str(n)` back gives `n`. */
  lemma {:induction false} ParseDecimalString(n: nat)
    ensures ParseDecimal(DecimalString(n)) == n
    decreases n
  {
    var r := DecimalString(n);
    if n >= 10 {
      ParseDecimalString(n / 10);
      assert r[..|r| - 1] == DecimalString(n / 10);
    }
  }

  /** `k` zero characters. */
  function Zeros(k: nat): (r: string)
    ensures |r| == k && forall i :: 0 <= i < k ==> r[i] == '0'
  {
    if k == 0 then "" else "0" + Zeros(k - 1)
  }

  /** Leading zeros do not change the value of a digit string. */
  lemma {:induction false} ParseLeadingZeros(k: nat, s: string)
    requires AllDigits(s)
    ensures AllDigits(Zeros(k) + s)
    ensures ParseDecimal(Zeros(k) + s) == ParseDecimal(s)
    decreases |s|
  {
    var z := Zeros(k);
    if |s| == 0 {
      assert z + s == z;
      AllZerosParse(k);
    } else {
      ParseLeadingZeros(k, s[..|s| - 1]);
      assert (z + s)[..|z + s| - 1] == z + s[..|s| - 1];
    }
  }

  lemma {:induction false} AllZerosParse(k: nat)
    ensures ParseDecimal(Zeros(k)) == 0
    decreases k
  {
    if k > 0 {
      AllZerosParse(k - 1);
      assert Zeros(k)[..k - 1] == Zeros(k - 1);
    }
  }

  /**
   Python's `str(n).zfill(width)`: the decimal digits of `n`, left-padded with
   zeros to at least `width` characters.  The sign handling of `zfill` is not
   needed because `n` is never negative here.
   */
  function ZeroPad(n: nat, width: int): (r: string)
    ensures |r| == (if |DecimalString(n)| >= width then |DecimalString(n)| else width)
    ensures AllDigits(r)
    ensures ParseDecimal(r) == n
    ensures r[|r| - |DecimalString(n)|..] == DecimalString(n)
    ensures forall i :: 0 <= i < |r| - |DecimalString(n)| ==> r[i] == '0'
  {
    var s := DecimalString(n);
    ParseDecimalString(n);
    if |s| >= width then
      s
    else
      ParseLeadingZeros(width - |s|, s);
      Zeros(width - |s|) + s
  }

  /** `10` to the power `k`. */
  function Pow10(k: nat): (p: nat)
    ensures p >= 1
  {
    if k == 0 then 1 else 10 * Pow10(k - 1)
  }

  /** The digit count `k` of `str(n)` brackets `n`: below `10^k` and, for `k > 1`, at or above `10^(k-1)`. */
  lemma {:induction false} DigitCount(n: nat)
    ensures n < Pow10(|DecimalString(n)|)
    ensures |DecimalString(n)| > 1 ==> Pow10(|DecimalString(n)| - 1) <= n
    decreases n
  {
    if n >= 10 {
      var q := n / 10;
      DigitCount(q);
      var k := |DecimalString(q)|;
      assert |DecimalString(n)| == k + 1;
      assert n < 10 * (q + 1);
      assert 10 * (q + 1) <= 10 * Pow10(k);
      if k > 1 {
        assert 10 * Pow10(k - 1) <= 10 * q <= n;
      }
    }
  }

  /** Powers of ten grow with the exponent. */
  lemma {:induction false} Pow10Mono(a: nat, b: nat)
    requires a <= b
    ensures Pow10(a) <= Pow10(b)
    decreases b
  {
    if a < b {
      Pow10Mono(a, b - 1);
    }
  }

  /**
   The converse of `DigitCount`: a width `k >= 1` that brackets `n` the same
   way is the digit count of `str(n)`, so the bracket fixes it.
   */
  lemma DigitCountExact(n: nat, k: nat)
    requires k >= 1 && n < Pow10(k)
    requires k > 1 ==> Pow10(k - 1) <= n
    ensures |DecimalString(n)| == k
  {
    var d := |DecimalString(n)|;
    DigitCount(n);
    if d < k {
      Pow10Mono(d, k - 1);
    } else if d > k {
      Pow10Mono(k, d - 1);
    }
  }

  /** A larger number never has fewer digits. */
  lemma {:induction false} DigitCountMono(a: nat, b: nat)
    requires a <= b
    ensures |DecimalString(a)| <= |DecimalString(b)|
    decreases b
  {
    if a >= 10 {
      DigitCountMono(a / 10, b / 10);
    }
  }

  /** Two different numbers never pad to the same string. */
  lemma ZeroPadInjective(a: nat, b: nat, width: int)
    requires ZeroPad(a, width) == ZeroPad(b, width)
    ensures a == b
  {
  }
}
