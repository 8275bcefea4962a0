/**
 Worked instances of the expansion, each pinned to concrete values: a small
 sweep with split repetitions, the stop value of a negative stepped set, and
 a padding width taken from the combination count rather than the run count.
 */
module Scenarios {
  import opened Wrappers
  import opened Text
  import opened Combinator
  import opened Stepped
  import opened Repetitions
  import opened Naming
  import opened Expander

  /** The experiment of the worked sweep: `x` takes three values and six repetitions are declared. */
  function Sweep(): Experiment {
    Experiment("sweep", 6, [EnumeratedSet("x", ["1", "2", "3"])], [])
  }

  /** Its only varying set is `x`, with its three values as text. */
  lemma SweepVarying()
    ensures !HasZeroStep(Sweep())
    ensures Varying(Sweep()) == Ok([VarRange("x", [Str("1"), Str("2"), Str("3")])])
  {
    var exp := Sweep();
    var range := EnumeratedRange(exp.enumerated[0]);
    assert range == VarRange("x", [Str("1"), Str("2"), Str("3")]);
    assert exp.enumerated[1..] == [];
    assert SelectEnumerated(exp.enumerated) == [range] + SelectEnumerated([]) == [range];
    assert SteppedRanges([]) == Ok([]);
  }

  /**
   Six repetitions, two per run: the split gives three clones of two
   repetitions each, so the three values make nine runs.
   */
  lemma SweepOfThree()
    ensures SplitRepetitions(Sweep().repetitions, 2) == RepSplit(2, 3)
    ensures !HasZeroStep(Sweep()) && TotalRuns(Sweep(), 2) == 9
  {
    SweepVarying();
    var range := VarRange("x", [Str("1"), Str("2"), Str("3")]);
    assert Product([range]) == 3 * Product([range][1..]);
  }

  /** The last of the nine runs is numbered `9` in its file name: one digit, as three combinations need. */
  lemma SweepLastRunNumber()
    ensures RunNumberText(9, 3) == "9"
  {
    SingleDigitRun(9, 3);
  }

  /** With fewer than ten combinations, a run number below ten is written as its single digit. */
  lemma SingleDigitRun(run: nat, numIndividualRuns: nat)
    requires run < 10 && numIndividualRuns < 10
    ensures RunNumberText(run, numIndividualRuns) == [DigitChar(run)]
  {
  }

  /**
   A negative step stops before `last`: from 5 down to 1 in steps of -1 the
   stop value is 2, so the values are 5, 4 and 3, and neither 2 nor 1 appears.
   */
  lemma NegativeStepStopsEarly()
    ensures SteppedValues(SteppedSet("y", 5, 1, -1)) == Ok([5, 4, 3])
  {
    assert PyRange(2, 2, -1) == [];
    assert PyRange(3, 2, -1) == [3];
    assert PyRange(4, 2, -1) == [4, 3];
    assert PyRange(5, 2, -1) == [5, 4, 3];
  }

  /**
   Four combinations cloned three times give twelve runs, but the padding
   width comes from the four combinations: run 1 is numbered `1` and run 12
   `12` in their file names, so the names do not all have the same length.
   */
  lemma PaddingFollowsCombinationCount()
    ensures PadWidth(4) == 1
    ensures RunNumberText(1, 4) == "1" && RunNumberText(12, 4) == "12"
  {
    SingleDigitRun(1, 4);
    TwelveUnpadded();
  }

  /**
   A separator that overlaps itself is cut at its leftmost non-overlapping
   occurrences: `"baabaaa".split("aa")` is `["b", "b", "a"]`.
   */
  lemma SplitOverlapping()
    ensures Split("baabaaa", "aa") == ["b", "b", "a"]
  {
    calc {
      Split("baabaaa", "aa");
    == { assert "baabaaa" == "b" + "aa" + "baaa"; }
      Split("b" + "aa" + "baaa", "aa");
    == { CutAfterB("baaa"); }
      ["b"] + Split("baaa", "aa");
    == { SplitOverlappingTail(); }
      ["b", "b", "a"];
    }
  }

  /** The last four characters of that text: `baaa` is cut after the `b`, and the lone `a` is left. */
  lemma SplitOverlappingTail()
    ensures Split("baaa", "aa") == ["b", "a"]
  {
    SplitWhole("a", "aa");
    assert "b" + "aa" + "a" == "baaa";
    CutAfterB("a");
  }

  /** A text that starts `baa` is cut first after its leading `b`. */
  lemma CutAfterB(t: string)
    ensures Split("b" + "aa" + t, "aa") == ["b"] + Split(t, "aa")
  {
    var s := "b" + "aa" + t;
    assert s[0] == 'b';
    assert !OccursAt(s, "aa", 0) by { assert s[0..2][0] == 'b'; }
    SplitFirstCut("b", t, "aa");
  }

  /** Spaces in an experiment name become underscores in its file names. */
  lemma SanitizeSpace()
    ensures Sanitize("a b") == "a_b"
  {
  }

  /** Run 12 of a sweep of four combinations keeps both its digits and gets no padding. */
  lemma TwelveUnpadded()
    ensures RunNumberText(12, 4) == "12"
  {
    assert DecimalString(4) == "4";
    assert DecimalString(12) == DecimalString(1) + [DigitChar(2)] == "12";
  }
}
