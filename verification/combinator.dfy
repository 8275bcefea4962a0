/**
 The value-set combinator: every combination of the values of a list of
 variables, as `expandValueSets` generates them, with the first variable
 varying slowest and the last fastest.
 */
module Combinator {
  import opened Arith

  /** A parameter value: the text of an enumerated value, or an integer of a stepped range. */
  datatype Value = Str(text: string) | Num(n: int)

  /** One variable together with the values it sweeps over, in order. */
  datatype VarRange = VarRange(variable: string, values: seq<Value>)

  /** A variable set to one value. */
  datatype Binding = Binding(variable: string, value: Value)

  /** One parameter combination: one binding per participating variable. */
  type Combination = seq<Binding>

  /** The number of combinations: the product of the value-list lengths. */
  function Product(ranges: seq<VarRange>): nat
    decreases |ranges|
  {
    if |ranges| == 0 then 1 else |ranges[0].values| * Product(ranges[1..])
  }

  /** The count is zero exactly when some set has no value. */
  lemma {:induction false} ProductZero(ranges: seq<VarRange>)
    ensures Product(ranges) == 0 <==> exists k :: 0 <= k < |ranges| && |ranges[k].values| == 0
    decreases |ranges|
  {
    if |ranges| > 0 {
      ProductZero(ranges[1..]);
      assert forall k :: 0 < k < |ranges| ==> ranges[k] == ranges[1..][k - 1];
      assert (exists k :: 0 < k < |ranges| && |ranges[k].values| == 0)
        <==> exists k :: 0 <= k < |ranges[1..]| && |ranges[1..][k].values| == 0;
    }
  }

  /**
   The count is a running product: multiplying in the lengths of one list
   of sets and then of another, as the enumerated and then the stepped
   sets are multiplied in, gives the count of the two lists together.
   */
  lemma {:induction false} ProductAppend(a: seq<VarRange>, b: seq<VarRange>)
    ensures Product(a + b) == Product(a) * Product(b)
    decreases |a|
  {
    if |a| > 0 {
      assert (a + b)[1..] == a[1..] + b;
      ProductAppend(a[1..], b);
      assert Product(a + b) == |a[0].values| * (Product(a[1..]) * Product(b));
    } else {
      assert a + b == b;
    }
  }

  /** `c` binds each variable of `ranges`, in order, to one of that variable's values. */
  predicate Conforms(c: Combination, ranges: seq<VarRange>) {
    && |c| == |ranges|
    && forall j :: 0 <= j < |c| ==> c[j].variable == ranges[j].variable && c[j].value in ranges[j].values
  }

  /** For every value of one variable, in order, that binding followed by each of the tails in turn. */
  function PrependEach(variable: string, values: seq<Value>, tails: seq<Combination>): (r: seq<Combination>)
    ensures |r| == |values| * |tails|
    ensures forall x :: 0 <= x < |r| ==> |r[x]| > 0 && r[x][0].variable == variable && r[x][0].value in values
    decreases |values|
  {
    if |values| == 0 then
      []
    else
      var block := seq(|tails|, k requires 0 <= k < |tails| => [Binding(variable, values[0])] + tails[k]);
      var rest := PrependEach(variable, values[1..], tails);
      assert |block| + |rest| == |values| * |tails| by {
        assert |values| * |tails| == |tails| + (|values| - 1) * |tails|;
      }
      block + rest
  }

  /** Every combination `PrependEach` lists is a binding of the variable to one of its values in front of one of the tails. */
  lemma {:induction false} PrependEachParts(variable: string, values: seq<Value>, tails: seq<Combination>)
    ensures forall c: Combination :: c in PrependEach(variable, values, tails) ==>
      |c| > 0 && c[0].variable == variable && c[0].value in values && c[1..] in tails
    decreases |values|
  {
    if |values| > 0 {
      PrependEachParts(variable, values[1..], tails);
      var block := seq(|tails|, k requires 0 <= k < |tails| => [Binding(variable, values[0])] + tails[k]);
      assert forall k :: 0 <= k < |block| ==> block[k][1..] == tails[k];
      assert PrependEach(variable, values, tails) == block + PrependEach(variable, values[1..], tails);
    }
  }

  /** Element `i * |tails| + k` of `PrependEach` is value `i` followed by tail `k`. */
  lemma {:induction false} PrependEachAt(variable: string, values: seq<Value>, tails: seq<Combination>, i: nat, k: nat)
    requires i < |values| && k < |tails|
    ensures i * |tails| + k < |PrependEach(variable, values, tails)|
    ensures PrependEach(variable, values, tails)[i * |tails| + k] == [Binding(variable, values[i])] + tails[k]
    decreases i
  {
    MulLess(i, |values|, |tails|, k);
    if i > 0 {
      PrependEachAt(variable, values[1..], tails, i - 1, k);
      assert i * |tails| + k == |tails| + ((i - 1) * |tails| + k);
    }
  }

  /**
   Python's `expandValueSets(value_tuples)`: the Cartesian product of the
   ranges' value lists.  Like the source, it is only defined for a non-empty
   list of ranges.
   */
  function Expand(ranges: seq<VarRange>): (r: seq<Combination>)
    requires |ranges| > 0
    ensures |r| == Product(ranges)
    ensures forall c :: c in r ==> Conforms(c, ranges)
    decreases |ranges|
  {
    var first := ranges[0];
    if |ranges| == 1 then
      seq(|first.values|, i requires 0 <= i < |first.values| => [Binding(first.variable, first.values[i])])
    else
      var tails := Expand(ranges[1..]);
      var r := PrependEach(first.variable, first.values, tails);
      assert forall c :: c in r ==> Conforms(c, ranges) by {
        PrependEachParts(first.variable, first.values, tails);
        forall c: Combination | c in r
          ensures Conforms(c, ranges)
        {
          assert Conforms(c[1..], ranges[1..]);
          forall j: int | 1 <= j < |c|
            ensures c[j].variable == ranges[j].variable && c[j].value in ranges[j].values
          {
            assert c[j] == c[1..][j - 1];
          }
        }
      }
      r
  }

  /** `idx` chooses one value position in each range. */
  predicate ValidChoice(ranges: seq<VarRange>, idx: seq<nat>) {
    |idx| == |ranges| && forall j :: 0 <= j < |idx| ==> idx[j] < |ranges[j].values|
  }

  /** The combination that takes value `idx[j]` from range `j`. */
  function Pick(ranges: seq<VarRange>, idx: seq<nat>): (c: Combination)
    requires ValidChoice(ranges, idx)
    ensures Conforms(c, ranges)
  {
    seq(|ranges|, j requires 0 <= j < |ranges| => Binding(ranges[j].variable, ranges[j].values[idx[j]]))
  }

  /**
   The position of a choice in nested-loop order, first range outermost: the
   mixed-radix number whose digits are `idx`, most significant first.
   */
  function Rank(ranges: seq<VarRange>, idx: seq<nat>): nat
    requires ValidChoice(ranges, idx)
    decreases |ranges|
  {
    if |ranges| == 0 then 0 else idx[0] * Product(ranges[1..]) + Rank(ranges[1..], idx[1..])
  }

  /** Every rank lies below the number of combinations. */
  lemma {:induction false} RankBound(ranges: seq<VarRange>, idx: seq<nat>)
    requires ValidChoice(ranges, idx)
    ensures Rank(ranges, idx) < Product(ranges)
    decreases |ranges|
  {
    if |ranges| > 0 {
      RankBound(ranges[1..], idx[1..]);
      MulLess(idx[0], |ranges[0].values|, Product(ranges[1..]), Rank(ranges[1..], idx[1..]));
    }
  }

  /** The choice at position `i` of the nested-loop order: the mixed-radix digits of `i`. */
  function Unrank(ranges: seq<VarRange>, i: nat): (idx: seq<nat>)
    requires i < Product(ranges)
    ensures ValidChoice(ranges, idx)
    ensures Rank(ranges, idx) == i
    decreases |ranges|
  {
    if |ranges| == 0 then
      []
    else
      var p := Product(ranges[1..]);
      LeadingDigit(ranges, i);
      var d: nat := i / p;
      var rest := Unrank(ranges[1..], i % p);
      UnrankCons(ranges, i, rest);
      [d] + rest
  }

  /** Below the count, the leading mixed-radix digit picks a value of the first set and the remainder is a position of the others. */
  lemma LeadingDigit(ranges: seq<VarRange>, i: nat)
    requires |ranges| > 0 && i < Product(ranges)
    ensures var p := Product(ranges[1..]);
      p > 0 && 0 <= i / p < |ranges[0].values| && i % p < p
  {
    Digits(i, |ranges[0].values|, Product(ranges[1..]));
  }

  /** The leading digit of `i` in front of a choice that ranks as the remainder ranks as `i`. */
  lemma UnrankCons(ranges: seq<VarRange>, i: nat, rest: seq<nat>)
    requires |ranges| > 0 && i < Product(ranges)
    requires Product(ranges[1..]) > 0
    requires ValidChoice(ranges[1..], rest) && Rank(ranges[1..], rest) == i % Product(ranges[1..])
    ensures ValidChoice(ranges, [i / Product(ranges[1..])] + rest)
    ensures Rank(ranges, [i / Product(ranges[1..])] + rest) == i
  {
    var p := Product(ranges[1..]);
    var d := i / p;
    assert Product(ranges) == |ranges[0].values| * p;
    Digits(i, |ranges[0].values|, p);
    RankCons(ranges, d, rest);
    assert Rank(ranges, [d] + rest) == d * p + i % p;
  }

  /** Choosing `d` in the first range in front of a choice for the others: its rank in mixed radix. */
  lemma RankCons(ranges: seq<VarRange>, d: nat, rest: seq<nat>)
    requires |ranges| > 0 && d < |ranges[0].values| && ValidChoice(ranges[1..], rest)
    ensures ValidChoice(ranges, [d] + rest)
    ensures Rank(ranges, [d] + rest) == d * Product(ranges[1..]) + Rank(ranges[1..], rest)
  {
    var idx := [d] + rest;
    assert idx[1..] == rest;
    forall j | 1 <= j < |idx|
      ensures idx[j] < |ranges[j].values|
    {
      assert idx[j] == rest[j - 1] && ranges[j] == ranges[1..][j - 1];
    }
  }

  /** The combination listed at position `Rank(idx)` is the one `idx` chooses. */
  lemma {:induction false} ExpandAt(ranges: seq<VarRange>, idx: seq<nat>)
    requires |ranges| > 0 && ValidChoice(ranges, idx)
    ensures Rank(ranges, idx) < |Expand(ranges)|
    ensures Expand(ranges)[Rank(ranges, idx)] == Pick(ranges, idx)
    decreases |ranges|
  {
    RankBound(ranges, idx);
    if |ranges| == 1 {
      ExpandAtSingle(ranges, idx);
    } else {
      var first := ranges[0];
      var rest := ranges[1..];
      PickCons(ranges, idx);
      var k := Rank(rest, idx[1..]);
      var tails := Expand(rest);
      assert tails[k] == Pick(rest, idx[1..]) by {
        ExpandAt(rest, idx[1..]);
      }
      assert Rank(ranges, idx) == idx[0] * |tails| + k;
      assert Expand(ranges)[Rank(ranges, idx)] == [Binding(first.variable, first.values[idx[0]])] + tails[k] by {
        PrependEachAt(first.variable, first.values, tails, idx[0], k);
      }
    }
  }

  /** With one range, position `idx[0]` holds the binding to value `idx[0]`. */
  lemma ExpandAtSingle(ranges: seq<VarRange>, idx: seq<nat>)
    requires |ranges| == 1 && ValidChoice(ranges, idx)
    ensures Rank(ranges, idx) == idx[0] < |Expand(ranges)|
    ensures Expand(ranges)[idx[0]] == Pick(ranges, idx)
  {
    assert Rank(ranges, idx) == idx[0];
  }

  /** A choice is its first digit in front of a choice for the remaining ranges, and so is the combination it picks. */
  lemma PickCons(ranges: seq<VarRange>, idx: seq<nat>)
    requires |ranges| > 0 && ValidChoice(ranges, idx)
    ensures ValidChoice(ranges[1..], idx[1..])
    ensures Pick(ranges, idx) == [Binding(ranges[0].variable, ranges[0].values[idx[0]])] + Pick(ranges[1..], idx[1..])
  {
    forall j | 0 <= j < |idx| - 1
      ensures idx[1..][j] < |ranges[1..][j].values|
    {
      assert idx[1..][j] == idx[j + 1] && ranges[1..][j] == ranges[j + 1];
    }
    var c := Pick(ranges, idx);
    var d := [Binding(ranges[0].variable, ranges[0].values[idx[0]])] + Pick(ranges[1..], idx[1..]);
    assert |c| == |d|;
    forall j | 0 <= j < |c|
      ensures c[j] == d[j]
    {
      if j > 0 {
        assert d[j] == Pick(ranges[1..], idx[1..])[j - 1];
        assert ranges[1..][j - 1] == ranges[j] && idx[1..][j - 1] == idx[j];
      }
    }
  }

  /** Position `i` of the expansion holds the combination whose choice is the mixed-radix digits of `i`. */
  lemma ExpandNth(ranges: seq<VarRange>, i: nat)
    requires |ranges| > 0 && i < |Expand(ranges)|
    ensures Expand(ranges)[i] == Pick(ranges, Unrank(ranges, i))
  {
    ExpandAt(ranges, Unrank(ranges, i));
  }

  /** `a` comes strictly before `b` in lexicographic order of equal-length digit vectors. */
  predicate LexLess(a: seq<nat>, b: seq<nat>)
    decreases |a|
  {
    |a| > 0 && |b| > 0 && (a[0] < b[0] || (a[0] == b[0] && LexLess(a[1..], b[1..])))
  }

  /**
   The expansion lists combinations in lexicographic order of their choices:
   the first range varies slowest and the last range fastest.
   */
  lemma {:induction false} ExpandOrder(ranges: seq<VarRange>, a: seq<nat>, b: seq<nat>)
    requires ValidChoice(ranges, a) && ValidChoice(ranges, b)
    requires LexLess(a, b)
    ensures Rank(ranges, a) < Rank(ranges, b)
    decreases |ranges|
  {
    var p := Product(ranges[1..]);
    if a[0] < b[0] {
      var ra := Rank(ranges[1..], a[1..]);
      RankBound(ranges[1..], a[1..]);
      MulMono(a[0] + 1, b[0], p);
      assert Rank(ranges, a) == a[0] * p + ra;
      assert a[0] * p + ra < (a[0] + 1) * p;
      assert (a[0] + 1) * p <= b[0] * p <= Rank(ranges, b);
    } else {
      ExpandOrder(ranges[1..], a[1..], b[1..]);
    }
  }

  /** No value appears twice in `values`. */
  predicate Distinct(values: seq<Value>) {
    forall i, j :: 0 <= i < j < |values| ==> values[i] != values[j]
  }

  /** When no range repeats a value, no combination is generated twice. */
  lemma ExpandDistinct(ranges: seq<VarRange>, i: nat, j: nat)
    requires |ranges| > 0
    requires forall k :: 0 <= k < |ranges| ==> Distinct(ranges[k].values)
    requires i < j < |Expand(ranges)|
    ensures Expand(ranges)[i] != Expand(ranges)[j]
  {
    var a := Unrank(ranges, i);
    var b := Unrank(ranges, j);
    ExpandNth(ranges, i);
    ExpandNth(ranges, j);
    PickInjective(ranges, a, b);
  }

  /** With repetition-free value lists, different choices pick different combinations. */
  lemma PickInjective(ranges: seq<VarRange>, a: seq<nat>, b: seq<nat>)
    requires forall k :: 0 <= k < |ranges| ==> Distinct(ranges[k].values)
    requires ValidChoice(ranges, a) && ValidChoice(ranges, b)
    ensures Pick(ranges, a) == Pick(ranges, b) ==> a == b
  {
    if Pick(ranges, a) == Pick(ranges, b) {
      forall k | 0 <= k < |ranges|
        ensures a[k] == b[k]
      {
        assert Pick(ranges, a)[k] == Pick(ranges, b)[k];
      }
    }
  }
}
