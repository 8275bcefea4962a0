/**
 The repetition splitter: how an experiment's declared `repetitions` are
 divided between the emitted files when `--repetitions_per_run` asks for it.
 */
module Repetitions {

  /**
   `repsIn` is the `repetitions` attribute each emitted experiment carries;
   `repsOf` is how many copies of each parameter combination are emitted.
   */
  datatype RepSplit = RepSplit(repsIn: int, repsOf: nat)

  /** The run is split only for a positive request no larger than the declared count. */
  predicate Splits(original: int, perRun: int) {
    perRun > 0 && original >= perRun
  }

  /**
   The split for an experiment declaring `original` repetitions when
   `perRun` repetitions per emitted file are requested (zero or less: no
   splitting).
   */
  function SplitRepetitions(original: int, perRun: int): (r: RepSplit)
    ensures r.repsOf >= 1
    ensures r.repsIn * r.repsOf <= original
    ensures Splits(original, perRun) ==> r.repsIn == perRun
    ensures Splits(original, perRun) ==> 0 <= original - r.repsIn * r.repsOf < r.repsIn
    ensures !Splits(original, perRun) ==> r.repsIn == original && r.repsOf == 1
  {
    if perRun > 0 && original >= perRun then
      var q := original / perRun;
      assert q >= 1;
      RepSplit(perRun, q)
    else
      RepSplit(original, 1)
  }

  /**
   The splitter keeps every declared repetition exactly when it does not
   split or the requested size divides the declared count; otherwise the
   shortfall is the remainder of the division.  The source warns in exactly
   the lossy case.
   */
  lemma SplitLoss(original: int, perRun: int)
    ensures var r := SplitRepetitions(original, perRun);
      r.repsIn * r.repsOf == original <==> !Splits(original, perRun) || original % perRun == 0
    ensures Splits(original, perRun) ==>
      original - SplitRepetitions(original, perRun).repsIn * SplitRepetitions(original, perRun).repsOf == original % perRun
  {
    var r := SplitRepetitions(original, perRun);
    if Splits(original, perRun) {
      assert original == (original / perRun) * perRun + original % perRun;
      assert r.repsIn * r.repsOf == (original / perRun) * perRun;
    }
  }
}
