/**
 The experiment expander: for one BehaviorSpace experiment, choose the
 varying value sets, split the repetitions, number every run (combinations
 outermost, repetition clones innermost), and build the run table and the
 file names.  Then the same for every selected experiment of a model file.
 */
module Expander {
  import opened Wrappers
  import opened Arith
  import opened Text
  import opened Combinator
  import opened Stepped
  import opened Repetitions
  import opened Naming

  /** An `enumeratedValueSet` element: a variable and the texts of its `value` children. */
  datatype EnumeratedSet = EnumeratedSet(variable: string, values: seq<string>)

  /**
   An `experiment` element as far as the expansion looks at it: its name, its
   `repetitions` attribute and its value sets, each kind in document order.
   */
  datatype Experiment = Experiment(
    name: string,
    repetitions: int,
    enumerated: seq<EnumeratedSet>,
    stepped: seq<SteppedSet>)

  /** What every emitted copy of an experiment shares: its name and the value sets left in place. */
  datatype Template = Template(name: string, fixed: seq<EnumeratedSet>)

  /** One emitted experiment: its run number, its combination and its `repetitions` attribute. */
  datatype Run = Run(number: nat, combination: Combination, repetitions: int)

  /** A row of the run table. */
  type Row = seq<Value>

  /** Everything the expansion of one experiment produces. */
  datatype Expansion = Expansion(
    template: Template,
    varying: seq<VarRange>,
    combos: seq<Combination>,
    numIndividualRuns: nat,
    split: RepSplit,
    runs: seq<Run>,
    table: seq<Row>,
    fileNames: seq<string>,
    tableFileName: string,
    total: nat)

  const RunNumberHeading: string := "Experiment number"

  // ---------------------------------------------------------------------
  // Choosing the varying value sets
  // ---------------------------------------------------------------------

  /** An enumerated set as a range of text values. */
  function EnumeratedRange(s: EnumeratedSet): (v: VarRange)
    ensures v.variable == s.variable && |v.values| == |s.values|
    ensures forall i :: 0 <= i < |s.values| ==> v.values[i] == Str(s.values[i])
  {
    VarRange(s.variable, seq(|s.values|, i requires 0 <= i < |s.values| => Str(s.values[i])))
  }

  /** The enumerated sets with more than one value, as ranges, in document order. */
  function SelectEnumerated(sets: seq<EnumeratedSet>): (r: seq<VarRange>)
    ensures |r| <= |sets|
    ensures forall v :: v in r ==> exists s :: s in sets && |s.values| > 1 && v == EnumeratedRange(s)
    ensures forall s :: s in sets && |s.values| > 1 ==> EnumeratedRange(s) in r
    decreases |sets|
  {
    if |sets| == 0 then
      []
    else
      var rest := SelectEnumerated(sets[1..]);
      assert forall s :: s in sets[1..] ==> s in sets;
      assert forall s :: s in sets ==> s == sets[0] || s in sets[1..];
      if |sets[0].values| > 1 then [EnumeratedRange(sets[0])] + rest else rest
  }

  /**
   Selection keeps document order: selecting from two consecutive stretches
   of sets is selecting from each and concatenating.
   */
  lemma {:induction false} SelectEnumeratedAppend(a: seq<EnumeratedSet>, b: seq<EnumeratedSet>)
    ensures SelectEnumerated(a + b) == SelectEnumerated(a) + SelectEnumerated(b)
    decreases |a|
  {
    if |a| > 0 {
      assert (a + b)[1..] == a[1..] + b;
      SelectEnumeratedAppend(a[1..], b);
    } else {
      assert a + b == b;
    }
  }

  /** The enumerated sets left in the template: those with at most one value. */
  function FixedSets(sets: seq<EnumeratedSet>): (r: seq<EnumeratedSet>)
    ensures |r| <= |sets|
    ensures forall s :: s in r <==> s in sets && |s.values| <= 1
    decreases |sets|
  {
    if |sets| == 0 then
      []
    else
      var rest := FixedSets(sets[1..]);
      assert forall s :: s in sets <==> s == sets[0] || s in sets[1..];
      if |sets[0].values| <= 1 then [sets[0]] + rest else rest
  }

  /**
   Removing the varying sets keeps the rest in document order, duplicates
   included: the sets kept from two consecutive stretches are those kept
   from each, concatenated.
   */
  lemma {:induction false} FixedSetsAppend(a: seq<EnumeratedSet>, b: seq<EnumeratedSet>)
    ensures FixedSets(a + b) == FixedSets(a) + FixedSets(b)
    decreases |a|
  {
    if |a| > 0 {
      assert (a + b)[1..] == a[1..] + b;
      FixedSetsAppend(a[1..], b);
    } else {
      assert a + b == b;
    }
  }

  /** Every enumerated set is either kept in the template or collected as varying, never both. */
  lemma {:induction false} FixedOrSelected(sets: seq<EnumeratedSet>)
    ensures |FixedSets(sets)| + |SelectEnumerated(sets)| == |sets|
    decreases |sets|
  {
    if |sets| > 0 {
      FixedOrSelected(sets[1..]);
    }
  }

  /** Integers as values. */
  function Nums(xs: seq<int>): (r: seq<Value>)
    ensures |r| == |xs| && forall i :: 0 <= i < |xs| ==> r[i] == Num(xs[i])
  {
    seq(|xs|, i requires 0 <= i < |xs| => Num(xs[i]))
  }

  /**
   Every stepped set as a range, in document order, whatever its length; the
   first set with a zero step aborts with that error.
   */
  function SteppedRanges(sets: seq<SteppedSet>): (r: Result<seq<VarRange>, Error>)
    ensures r.Ok? <==> forall i :: 0 <= i < |sets| ==> sets[i].step != 0
    ensures r.Ok? ==> |r.value| == |sets|
    ensures r.Ok? ==> forall i :: 0 <= i < |sets| ==>
      r.value[i] == VarRange(sets[i].variable, Nums(SteppedValues(sets[i]).value))
    ensures r.Err? ==> exists i :: (0 <= i < |sets| && sets[i].step == 0 && r.error == ZeroStep(sets[i].variable)
      && forall j :: 0 <= j < i ==> sets[j].step != 0)
    decreases |sets|
  {
    if |sets| == 0 then
      Ok([])
    else
      match SteppedValues(sets[0])
      case Err(e) => Err(e)
      case Ok(values) =>
        match SteppedRanges(sets[1..])
        case Err(e) =>
          assert exists i :: (0 <= i < |sets[1..]| && sets[1..][i].step == 0 && e == ZeroStep(sets[1..][i].variable)
            && forall j :: 0 <= j < i ==> sets[1..][j].step != 0);
          var i :| 0 <= i < |sets[1..]| && sets[1..][i].step == 0 && e == ZeroStep(sets[1..][i].variable)
            && forall j :: 0 <= j < i ==> sets[1..][j].step != 0;
          assert sets[i + 1].step == 0 && forall j :: 0 <= j < i + 1 ==> sets[j].step != 0 by {
            forall j | 0 <= j < i + 1
              ensures sets[j].step != 0
            {
              if j > 0 {
                assert sets[j] == sets[1..][j - 1];
              }
            }
          }
          Err(e)
        case Ok(rest) =>
          assert forall i :: 1 <= i < |sets| ==> sets[i] == sets[1..][i - 1];
          Ok([VarRange(sets[0].variable, Nums(values))] + rest)
  }

  /**
   The varying sets of an experiment: the enumerated sets with more than one
   value, then every stepped set, each group in document order.
   */
  function Varying(exp: Experiment): (r: Result<seq<VarRange>, Error>)
    ensures r.Ok? <==> forall s :: s in exp.stepped ==> s.step != 0
    ensures r.Ok? ==> exists stepped :: (SteppedRanges(exp.stepped) == Ok(stepped)
      && r.value == SelectEnumerated(exp.enumerated) + stepped)
  {
    match SteppedRanges(exp.stepped)
    case Err(e) => Err(e)
    case Ok(stepped) => Ok(SelectEnumerated(exp.enumerated) + stepped)
  }

  // ---------------------------------------------------------------------
  // Combinations, runs and the run table
  // ---------------------------------------------------------------------

  /**
   The combinations iterated for an experiment: the expansion of the varying
   sets when their product exceeds one, otherwise a single empty combination
   so that the experiment is still emitted once.
   */
  function Combinations(varying: seq<VarRange>): (r: seq<Combination>)
    ensures |r| == if Product(varying) > 1 then Product(varying) else 1
    ensures Product(varying) <= 1 ==> r == [[]]
    ensures Product(varying) > 1 ==> forall c :: c in r ==> Conforms(c, varying)
  {
    if Product(varying) > 1 then Expand(varying) else [[]]
  }

  /** The header row: the run-number heading, then the variable names of the first combination. */
  function Header(c: Combination): (row: Row)
    ensures |row| == 1 + |c| && row[0] == Str(RunNumberHeading)
    ensures forall j :: 0 <= j < |c| ==> row[j + 1] == Str(c[j].variable)
  {
    [Str(RunNumberHeading)] + seq(|c|, j requires 0 <= j < |c| => Str(c[j].variable))
  }

  /** A data row: the run number, then the values of the run's combination. */
  function DataRow(number: nat, c: Combination): (row: Row)
    ensures |row| == 1 + |c| && row[0] == Num(number)
    ensures forall j :: 0 <= j < |c| ==> row[j + 1] == c[j].value
  {
    [Num(number)] + seq(|c|, j requires 0 <= j < |c| => c[j].value)
  }

  /**
   Runs numbered 1, 2, ... without gaps: run `i + 1` is clone `i % repsOf`
   of combination `i / repsOf`, and every run carries `repsIn` repetitions.
   */
  predicate NumberedRuns(combos: seq<Combination>, repsOf: nat, repsIn: int, runs: seq<Run>) {
    forall i :: 0 <= i < |runs| ==>
      repsOf > 0 && i / repsOf < |combos| && runs[i] == Run(i + 1, combos[i / repsOf], repsIn)
  }

  /** Every clone of every combination has its run, numbered densely. */
  predicate DenseRuns(combos: seq<Combination>, repsOf: nat, repsIn: int, runs: seq<Run>) {
    |runs| == |combos| * repsOf && NumberedRuns(combos, repsOf, repsIn, runs)
  }

  /** The run table of a list of runs: a header from the first combination, then one row per run. */
  predicate TableOf(combos: seq<Combination>, runs: seq<Run>, table: seq<Row>) {
    && (|runs| == 0 ==> table == [])
    && (|runs| > 0 ==>
          && |combos| > 0
          && |table| == |runs| + 1
          && table[0] == Header(combos[0])
          && forall i :: 0 <= i < |runs| ==> table[i + 1] == DataRow(runs[i].number, runs[i].combination))
  }

  /** The file names of a list of runs, one per run, built from the run's number. */
  function RunFileNames(prefix: string, name: string, numIndividualRuns: nat, runs: seq<Run>): seq<string> {
    seq(|runs|, i requires 0 <= i < |runs| => RunFileName(prefix, name, runs[i].number, numIndividualRuns))
  }

  /** The table after adding the row of run `number` of combination `c`, preceded by the header for the first run. */
  function AddRow(table: seq<Row>, number: nat, c: Combination): seq<Row> {
    (if number == 1 then table + [Header(c)] else table) + [DataRow(number, c)]
  }

  /** One step of the run loop keeps the numbering and the table in step. */
  lemma EnumerateStep(
    combos: seq<Combination>, repsOf: nat, repsIn: int,
    runs: seq<Run>, table: seq<Row>, c: nat, k: nat)
    requires c < |combos| && k < repsOf && |runs| == c * repsOf + k
    requires NumberedRuns(combos, repsOf, repsIn, runs)
    requires TableOf(combos, runs, table)
    ensures var n := |runs| + 1;
      var runs' := runs + [Run(n, combos[c], repsIn)];
      && NumberedRuns(combos, repsOf, repsIn, runs')
      && TableOf(combos, runs', AddRow(table, n, combos[c]))
  {
    BlockPosition(c, k, repsOf);
    var n := |runs| + 1;
    var runs' := runs + [Run(n, combos[c], repsIn)];
    var table' := AddRow(table, n, combos[c]);
    forall i | 0 <= i < |runs'|
      ensures repsOf > 0 && i / repsOf < |combos| && runs'[i] == Run(i + 1, combos[i / repsOf], repsIn)
    {
      if i < |runs| {
        assert runs'[i] == runs[i];
      }
    }
    if |runs| == 0 {
      assert table' == [Header(combos[0]), DataRow(1, combos[0])];
    } else {
      assert table' == table + [DataRow(n, combos[c])];
      forall i | 0 <= i < |runs'|
        ensures table'[i + 1] == DataRow(runs'[i].number, runs'[i].combination)
      {
        if i < |runs| {
          assert runs'[i] == runs[i];
        }
      }
    }
  }

  /**
   The run loop of the source: for each combination, for each repetition
   clone, take the next run number, add the header before the first run and
   then the run's row.  The total is the last number handed out.
   */
  method EnumerateRuns(combos: seq<Combination>, repsOf: nat, repsIn: int)
    returns (runs: seq<Run>, table: seq<Row>, total: nat)
    ensures total == |combos| * repsOf
    ensures DenseRuns(combos, repsOf, repsIn, runs)
    ensures TableOf(combos, runs, table)
  {
    runs, table := [], [];
    var enum: nat := 1;
    var c := 0;
    while c < |combos|
      invariant 0 <= c <= |combos|
      invariant |runs| == c * repsOf && enum == |runs| + 1
      invariant NumberedRuns(combos, repsOf, repsIn, runs)
      invariant TableOf(combos, runs, table)
    {
      var k := 0;
      while k < repsOf
        invariant 0 <= k <= repsOf
        invariant |runs| == c * repsOf + k && enum == |runs| + 1
        invariant NumberedRuns(combos, repsOf, repsIn, runs)
        invariant TableOf(combos, runs, table)
      {
        EnumerateStep(combos, repsOf, repsIn, runs, table, c, k);
        if enum == 1 {
          table := table + [Header(combos[c])];
        }
        table := table + [DataRow(enum, combos[c])];
        runs := runs + [Run(enum, combos[c], repsIn)];
        enum := enum + 1;
        k := k + 1;
      }
      Distribute(c, repsOf);
      c := c + 1;
    }
    total := enum - 1;
  }

  /** Clone `k` of combination `c` is run `c * repsOf + k + 1`; the first run belongs to combination 0. */
  lemma BlockPosition(c: nat, k: nat, repsOf: nat)
    requires k < repsOf
    ensures (c * repsOf + k) / repsOf == c
    ensures c * repsOf + k == 0 ==> c == 0
  {
    Distribute(c, repsOf);
    DivUnique(c * repsOf + k, repsOf, c);
  }

  // ---------------------------------------------------------------------
  // The emitted experiments
  // ---------------------------------------------------------------------

  /** An integer as `str` writes it. */
  function IntText(n: int): (r: string)
    ensures n >= 0 ==> r == DecimalString(n)
    ensures n < 0 ==> r == "-" + DecimalString(-n)
    ensures n < 0 ==> |r| > 1 && r[0] == '-' && AllDigits(r[1..]) && ParseDecimal(r[1..]) == -n
  {
    if n < 0 then
      var d := DecimalString(-n);
      ParseDecimalString(-n);
      assert ("-" + d)[1..] == d;
      "-" + d
    else
      DecimalString(n)
  }

  /**
   The text of a value written into a `value` attribute: an enumerated
   value's own text, and an integer as decimal digits, signed when negative,
   that read back as the integer.
   */
  function ValueText(v: Value): (r: string)
    ensures v.Str? ==> r == v.text
    ensures v.Num? ==> r == IntText(v.n)
    ensures v.Num? && v.n >= 0 ==> AllDigits(r) && ParseDecimal(r) == v.n
    ensures v.Num? && v.n < 0 ==> |r| > 1 && r[0] == '-' && AllDigits(r[1..]) && ParseDecimal(r[1..]) == -v.n
  {
    match v
    case Str(t) => t
    case Num(n) =>
      if n >= 0 then ParseDecimalString(n); IntText(n) else IntText(n)
  }

  /** An emitted experiment: the template's name, the run's repetitions, and its enumerated sets. */
  datatype Emitted = Emitted(name: string, repetitions: int, sets: seq<EnumeratedSet>)

  /** A single-valued enumerated set for one binding. */
  function BindingSet(b: Binding): (s: EnumeratedSet)
    ensures s.variable == b.variable && s.values == [ValueText(b.value)]
  {
    EnumeratedSet(b.variable, [ValueText(b.value)])
  }

  /**
   The experiment written for a run: the template's remaining sets in their
   order, then one single-valued set per binding of the run's combination.
   */
  function Instance(t: Template, run: Run): (e: Emitted)
    ensures e.name == t.name && e.repetitions == run.repetitions
    ensures |e.sets| == |t.fixed| + |run.combination|
    ensures e.sets[..|t.fixed|] == t.fixed
    ensures forall j :: 0 <= j < |run.combination| ==> e.sets[|t.fixed| + j] == BindingSet(run.combination[j])
  {
    var bound := seq(|run.combination|, j requires 0 <= j < |run.combination| => BindingSet(run.combination[j]));
    assert (t.fixed + bound)[..|t.fixed|] == t.fixed;
    Emitted(t.name, run.repetitions, t.fixed + bound)
  }

  /**
   An emitted experiment varies nothing any more: every set in it has at most
   one value, so splitting it again selects no set and yields one run.
   */
  lemma EmittedIsFixed(exp: Experiment, run: Run)
    ensures var e := Instance(Template(exp.name, FixedSets(exp.enumerated)), run);
      && (forall s :: s in e.sets ==> |s.values| <= 1)
      && SelectEnumerated(e.sets) == []
  {
    var t := Template(exp.name, FixedSets(exp.enumerated));
    var e := Instance(t, run);
    forall s | s in e.sets
      ensures |s.values| <= 1
    {
      var m :| 0 <= m < |e.sets| && e.sets[m] == s;
      if m < |t.fixed| {
        assert e.sets[..|t.fixed|][m] == s;
      } else {
        assert e.sets[|t.fixed| + (m - |t.fixed|)] == s;
      }
    }
    SelectNone(e.sets);
  }

  /** No set is selected from sets that each have at most one value. */
  lemma {:induction false} SelectNone(sets: seq<EnumeratedSet>)
    requires forall s :: s in sets ==> |s.values| <= 1
    ensures SelectEnumerated(sets) == []
    decreases |sets|
  {
    if |sets| > 0 {
      assert sets[0] in sets;
      assert forall s :: s in sets[1..] ==> s in sets;
      SelectNone(sets[1..]);
    }
  }

  // ---------------------------------------------------------------------
  // One experiment
  // ---------------------------------------------------------------------

  /**
   The parts of an expansion fit together: the combinations are those of its
   varying sets, every clone of every combination has its densely numbered
   run, and the table and file names are those of the runs.
   */
  predicate Consistent(prefix: string, x: Expansion) {
    && x.combos == Combinations(x.varying)
    && x.numIndividualRuns == Product(x.varying)
    && x.split.repsOf >= 1
    && x.total == |x.combos| * x.split.repsOf
    && DenseRuns(x.combos, x.split.repsOf, x.split.repsIn, x.runs)
    && TableOf(x.combos, x.runs, x.table)
    && x.fileNames == RunFileNames(prefix, x.template.name, x.numIndividualRuns, x.runs)
    && x.tableFileName == RunTableFileName(prefix, x.template.name)
  }

  /** `x` is what expanding `exp` produces, with `perRun` repetitions per run and file prefix `prefix`. */
  predicate IsExpansionOf(exp: Experiment, perRun: int, prefix: string, x: Expansion) {
    && Varying(exp) == Ok(x.varying)
    && x.template == Template(exp.name, FixedSets(exp.enumerated))
    && x.split == SplitRepetitions(exp.repetitions, perRun)
    && Consistent(prefix, x)
  }

  /** The experiment has a stepped set with a zero step, on which `range` fails. */
  predicate HasZeroStep(exp: Experiment) {
    exists s :: s in exp.stepped && s.step == 0
  }

  /** Expanding one experiment: the body of the source's per-experiment loop. */
  method ExpandExperiment(exp: Experiment, perRun: int, prefix: string) returns (r: Result<Expansion, Error>)
    ensures r.Err? <==> HasZeroStep(exp)
    ensures r.Ok? ==> IsExpansionOf(exp, perRun, prefix, r.value)
  {
    var v := Varying(exp);
    if v.Err? {
      return Err(v.error);
    }
    var varying := v.value;
    var numIndividualRuns := Product(varying);
    var split := SplitRepetitions(exp.repetitions, perRun);
    var combos := Combinations(varying);
    var runs, table, total := EnumerateRuns(combos, split.repsOf, split.repsIn);
    var fileNames := RunFileNames(prefix, exp.name, numIndividualRuns, runs);
    r := Ok(Expansion(
      Template(exp.name, FixedSets(exp.enumerated)),
      varying, combos, numIndividualRuns, split, runs, table, fileNames,
      RunTableFileName(prefix, exp.name), total));
  }

  /**
   Every expansion emits at least one run; the runs are numbered 1 to the
   total with the last number equal to the total, in increasing order, and
   each carries the split's per-run repetition count.
   */
  lemma RunsAreDense(prefix: string, x: Expansion)
    requires Consistent(prefix, x)
    ensures x.total >= 1 && |x.runs| == x.total
    ensures x.runs[x.total - 1].number == x.total
    ensures forall i :: 0 <= i < |x.runs| ==> x.runs[i].number == i + 1 && x.runs[i].repetitions == x.split.repsIn
    ensures forall i, j :: 0 <= i < j < |x.runs| ==> x.runs[i].number < x.runs[j].number
  {
    assert |x.combos| >= 1 && x.split.repsOf >= 1;
    MulAtLeastOne(|x.combos|, x.split.repsOf);
  }

  /**
   The run table has one row more than there are runs, and every row is as
   wide as the header: one column for the run number and one per varying
   variable when the sweep expands, only the run-number column otherwise.
   */
  lemma TableIsRectangular(prefix: string, x: Expansion)
    requires Consistent(prefix, x)
    ensures |x.table| == 1 + x.total
    ensures forall i :: 0 <= i < |x.table| ==> |x.table[i]| == |x.table[0]|
    ensures |x.table[0]| == 1 + (if x.numIndividualRuns > 1 then |x.varying| else 0)
  {
    RunsAreDense(prefix, x);
    var width := if x.numIndividualRuns > 1 then |x.varying| else 0;
    assert forall c :: c in x.combos ==> |c| == width;
    RowsHaveWidth(x.combos, x.split.repsOf, x.split.repsIn, x.runs, x.table, width);
  }

  /** When all combinations bind `w` variables, every row of the run table has `1 + w` cells. */
  lemma RowsHaveWidth(combos: seq<Combination>, repsOf: nat, repsIn: int, runs: seq<Run>, table: seq<Row>, w: nat)
    requires NumberedRuns(combos, repsOf, repsIn, runs) && TableOf(combos, runs, table)
    requires forall c :: c in combos ==> |c| == w
    ensures forall j :: 0 <= j < |table| ==> |table[j]| == 1 + w
  {
    forall j | 0 <= j < |table|
      ensures |table[j]| == 1 + w
    {
      if j == 0 {
        assert combos[0] in combos;
      } else {
        var i := j - 1;
        assert table[i + 1] == DataRow(runs[i].number, runs[i].combination);
        assert combos[i / repsOf] in combos;
      }
    }
  }

  /** No two runs of one experiment are written to the same file. */
  lemma FileNamesAreDistinct(prefix: string, x: Expansion, i: nat, j: nat)
    requires Consistent(prefix, x)
    requires i < j < |x.fileNames|
    ensures x.fileNames[i] != x.fileNames[j]
  {
    RunsAreDense(prefix, x);
    if x.fileNames[i] == x.fileNames[j] {
      RunFileNameInjective(prefix, x.template.name, x.runs[i].number, x.runs[j].number, x.numIndividualRuns);
    }
  }

  /**
   When the varying sets expand, the clones of run `i + 1` carry the
   combination at position `i / repsOf` of the nested-loop order: the value
   positions are the mixed-radix digits of that position.
   */
  lemma RunCombination(prefix: string, x: Expansion, i: nat)
    requires Consistent(prefix, x)
    requires x.numIndividualRuns > 1 && i < |x.runs|
    ensures x.runs[i].combination == Pick(x.varying, Unrank(x.varying, i / x.split.repsOf))
  {
    assert |x.varying| > 0;
    assert x.runs[i].combination == x.combos[i / x.split.repsOf];
    ExpandNth(x.varying, i / x.split.repsOf);
  }

  /** The number of runs an experiment expands into. */
  function TotalRuns(exp: Experiment, perRun: int): (n: nat)
    requires !HasZeroStep(exp)
    ensures n >= 1
  {
    var p := Product(Varying(exp).value);
    var repsOf := SplitRepetitions(exp.repetitions, perRun).repsOf;
    MulAtLeastOne(if p > 1 then p else 1, repsOf);
    (if p > 1 then p else 1) * repsOf
  }

  /** The recorded total is the combination count (at least one) times the number of clones. */
  lemma TotalIsTotalRuns(exp: Experiment, perRun: int, prefix: string, x: Expansion)
    requires IsExpansionOf(exp, perRun, prefix, x)
    ensures !HasZeroStep(exp) && x.total == TotalRuns(exp, perRun)
  {
  }

  /**
   A sweep whose combination count is at most one collapses to the single
   empty combination: every varying set, a one-valued or empty stepped set
   included, is dropped from the emitted files, and the run table has only
   the run-number column.
   */
  lemma CollapsedSweep(prefix: string, x: Expansion)
    requires Consistent(prefix, x)
    requires x.numIndividualRuns <= 1
    ensures x.total == x.split.repsOf
    ensures forall i :: 0 <= i < |x.runs| ==> x.runs[i].combination == []
    ensures x.table[0] == [Str(RunNumberHeading)]
  {
    assert x.combos == [[]];
    assert x.total == x.split.repsOf;
    forall i | 0 <= i < |x.runs|
      ensures x.runs[i].combination == []
    {
      assert x.runs[i].combination == x.combos[i / x.split.repsOf];
    }
    assert |x.runs| > 0;
    assert Header([]) == [Str(RunNumberHeading)];
  }

  /** A stepped set with no values (say `first > last` with a positive step) empties the whole sweep. */
  lemma EmptySteppedSetCollapses(exp: Experiment, k: nat)
    requires !HasZeroStep(exp)
    requires k < |exp.stepped| && SteppedValues(exp.stepped[k]).value == []
    ensures Product(Varying(exp).value) == 0
    ensures Combinations(Varying(exp).value) == [[]]
  {
    var v := Varying(exp).value;
    var e := |SelectEnumerated(exp.enumerated)|;
    assert e + k < |v| && |v[e + k].values| == 0 by {
      SteppedPosition(exp, k);
    }
    assert Product(v) == 0 by {
      ProductZero(v);
    }
  }

  /**
   The combination count is the running product the source keeps: the
   lengths of the selected enumerated sets multiplied in first, then those of
   the stepped sets.
   */
  lemma CountIsRunningProduct(exp: Experiment)
    requires !HasZeroStep(exp)
    ensures Product(Varying(exp).value)
         == Product(SelectEnumerated(exp.enumerated)) * Product(SteppedRanges(exp.stepped).value)
  {
    ProductAppend(SelectEnumerated(exp.enumerated), SteppedRanges(exp.stepped).value);
  }

  /** Stepped set `k` is varying set `e + k`, after the `e` selected enumerated sets. */
  lemma SteppedPosition(exp: Experiment, k: nat)
    requires !HasZeroStep(exp) && k < |exp.stepped|
    ensures var e := |SelectEnumerated(exp.enumerated)|;
      && e + k < |Varying(exp).value|
      && Varying(exp).value[e + k] == VarRange(exp.stepped[k].variable, Nums(SteppedValues(exp.stepped[k]).value))
  {
    assert forall i :: 0 <= i < |exp.stepped| ==> exp.stepped[i] in exp.stepped;
    var stepped := SteppedRanges(exp.stepped).value;
    var selected := SelectEnumerated(exp.enumerated);
    assert Varying(exp) == Ok(selected + stepped);
    assert (selected + stepped)[|selected| + k] == stepped[k];
  }

  // ---------------------------------------------------------------------
  // All selected experiments
  // ---------------------------------------------------------------------

  /** Which experiments the command line asks for: all of them, or those with the given names. */
  datatype Selection = AllExperiments | Named(names: seq<string>)

  predicate Selected(sel: Selection, exp: Experiment) {
    sel.AllExperiments? || exp.name in sel.names
  }

  /** Experiment `i` is selected and no later selected experiment before position `k` has its name. */
  predicate LastBefore(exps: seq<Experiment>, sel: Selection, i: nat, k: nat)
    requires i < k <= |exps|
  {
    && Selected(sel, exps[i])
    && forall j :: i < j < k && Selected(sel, exps[j]) ==> exps[j].name != exps[i].name
  }

  /** Expanding one experiment and keeping only its total, the value the source records for it. */
  method ExpandAndCount(exp: Experiment, perRun: int, prefix: string) returns (r: Result<nat, Error>)
    ensures r.Err? <==> HasZeroStep(exp)
    ensures r.Ok? ==> r.value == TotalRuns(exp, perRun)
  {
    var x := ExpandExperiment(exp, perRun, prefix);
    if x.Err? {
      return Err(x.error);
    }
    TotalIsTotalRuns(exp, perRun, prefix, x.value);
    r := Ok(x.value.total);
  }

  /** The names of the selected experiments among the first `k`. */
  function SelectedNames(exps: seq<Experiment>, sel: Selection, k: nat): set<string>
    requires k <= |exps|
  {
    set i | 0 <= i < k && Selected(sel, exps[i]) :: exps[i].name
  }

  /** No selected experiment among the first `k` has a zero step. */
  predicate NoZeroStepBefore(exps: seq<Experiment>, sel: Selection, k: nat)
    requires k <= |exps|
  {
    forall i :: 0 <= i < k && Selected(sel, exps[i]) ==> !HasZeroStep(exps[i])
  }

  /** Each name of the first `k` experiments maps to the total of the last selected experiment carrying it. */
  predicate TotalsRecorded(exps: seq<Experiment>, sel: Selection, perRun: int, m: map<string, nat>, k: nat)
    requires k <= |exps|
  {
    forall i :: 0 <= i < k && LastBefore(exps, sel, i, k) ==>
      !HasZeroStep(exps[i]) && exps[i].name in m && m[exps[i].name] == TotalRuns(exps[i], perRun)
  }

  /**
   The record after the first `k` experiments: no selected one among them has
   a zero step, the record holds exactly their names, and each name maps to
   the total of the last selected experiment carrying it.
   */
  predicate Recorded(exps: seq<Experiment>, sel: Selection, perRun: int, m: map<string, nat>, k: nat)
    requires k <= |exps|
  {
    && NoZeroStepBefore(exps, sel, k)
    && m.Keys == SelectedNames(exps, sel, k)
    && TotalsRecorded(exps, sel, perRun, m, k)
  }

  /** Recording experiment `k` (or skipping it when it is not selected) extends the record by one experiment. */
  lemma RecordStep(exps: seq<Experiment>, sel: Selection, perRun: int, before: map<string, nat>, after: map<string, nat>, k: nat)
    requires k < |exps| && Recorded(exps, sel, perRun, before, k)
    requires Selected(sel, exps[k]) ==>
      !HasZeroStep(exps[k]) && after == before[exps[k].name := TotalRuns(exps[k], perRun)]
    requires !Selected(sel, exps[k]) ==> after == before
    ensures Recorded(exps, sel, perRun, after, k + 1)
  {
    SelectedNamesStep(exps, sel, k);
    TotalsStep(exps, sel, perRun, before, after, k);
  }

  /** The totals part of one recording step. */
  lemma TotalsStep(exps: seq<Experiment>, sel: Selection, perRun: int, before: map<string, nat>, after: map<string, nat>, k: nat)
    requires k < |exps| && TotalsRecorded(exps, sel, perRun, before, k)
    requires Selected(sel, exps[k]) ==>
      !HasZeroStep(exps[k]) && after == before[exps[k].name := TotalRuns(exps[k], perRun)]
    requires !Selected(sel, exps[k]) ==> after == before
    ensures TotalsRecorded(exps, sel, perRun, after, k + 1)
  {
    forall i | 0 <= i < k + 1 && LastBefore(exps, sel, i, k + 1)
      ensures !HasZeroStep(exps[i]) && exps[i].name in after && after[exps[i].name] == TotalRuns(exps[i], perRun)
    {
      if i < k {
        LastBeforeShrinks(exps, sel, i, k);
      }
    }
  }

  lemma SelectedNamesStep(exps: seq<Experiment>, sel: Selection, k: nat)
    requires k < |exps|
    ensures SelectedNames(exps, sel, k + 1)
         == SelectedNames(exps, sel, k) + (if Selected(sel, exps[k]) then {exps[k].name} else {})
  {
  }

  /** Being the last of its name up to `k + 1` means being so up to `k`, and `exps[k]` does not carry the name if selected. */
  lemma LastBeforeShrinks(exps: seq<Experiment>, sel: Selection, i: nat, k: nat)
    requires i < k < |exps| && LastBefore(exps, sel, i, k + 1)
    ensures LastBefore(exps, sel, i, k)
    ensures Selected(sel, exps[k]) ==> exps[k].name != exps[i].name
  {
  }

  /**
   Expanding every selected experiment in document order and recording each
   one's total under its name (a later experiment of the same name replaces
   the record).  A zero step in any selected experiment aborts the whole run.
   */
  method ProcessExperiments(exps: seq<Experiment>, sel: Selection, perRun: int, prefix: string)
    returns (r: Result<map<string, nat>, Error>)
    ensures r.Err? <==> exists i :: 0 <= i < |exps| && Selected(sel, exps[i]) && HasZeroStep(exps[i])
    ensures r.Ok? ==> Recorded(exps, sel, perRun, r.value, |exps|)
  {
    var processed: map<string, nat> := map[];
    assert SelectedNames(exps, sel, 0) == {};
    var k := 0;
    while k < |exps|
      invariant 0 <= k <= |exps|
      invariant Recorded(exps, sel, perRun, processed, k)
    {
      ghost var before := processed;
      if Selected(sel, exps[k]) {
        var x := ExpandAndCount(exps[k], perRun, prefix);
        if x.Err? {
          assert Selected(sel, exps[k]) && HasZeroStep(exps[k]);
          return Err(x.error);
        }
        processed := processed[exps[k].name := x.value];
      }
      RecordStep(exps, sel, perRun, before, processed, k);
      k := k + 1;
    }
    r := Ok(processed);
  }
}
