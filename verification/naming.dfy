/**
 The naming policy: file-system-safe experiment names and the zero-padded,
 numbered names of the emitted experiment files.
 */
module Naming {
  import opened Text

  /** What one character of an experiment name becomes in a file name. */
  function SafeChar(c: char): char {
    if c == ' ' then '_' else if c == '/' || c == '\\' then '-' else c
  }

  /** A character the sanitised name may not contain. */
  predicate Unsafe(c: char) {
    c == ' ' || c == '/' || c == '\\'
  }

  /**
   The experiment name with spaces turned into `_` and both kinds of slash
   into `-`, by the source's chain of three `replace` calls.
   */
  function Sanitize(name: string): (r: string)
    ensures |r| == |name|
    ensures forall i :: 0 <= i < |r| ==> r[i] == SafeChar(name[i])
    ensures forall i :: 0 <= i < |r| ==> !Unsafe(r[i])
  {
    ReplaceChar(ReplaceChar(ReplaceChar(name, ' ', '_'), '/', '-'), '\\', '-')
  }

  /** Sanitising twice changes nothing more, and a name is left as it is exactly when it is already safe. */
  lemma SanitizeFixpoint(name: string)
    ensures Sanitize(Sanitize(name)) == Sanitize(name)
    ensures Sanitize(name) == name <==> forall i :: 0 <= i < |name| ==> !Unsafe(name[i])
  {
    if forall i :: 0 <= i < |name| ==> !Unsafe(name[i]) {
      assert forall i :: 0 <= i < |name| ==> Sanitize(name)[i] == name[i];
    }
  }

  /** The zero-padding width: the number of decimal digits of the combination count. */
  function PadWidth(numIndividualRuns: nat): (w: nat)
    ensures w >= 1 && numIndividualRuns < Pow10(w)
    ensures w > 1 ==> Pow10(w - 1) <= numIndividualRuns
  {
    DigitCount(numIndividualRuns);
    |DecimalString(numIndividualRuns)|
  }

  /**
   The run number as written into a file name: digits that read back as the
   run number, zero-padded to the width of the combination count, so exactly
   that wide for every run number up to the count; a run number above the
   count (a repetition clone's) is written unpadded.
   */
  function RunNumberText(run: nat, numIndividualRuns: nat): (r: string)
    ensures AllDigits(r) && ParseDecimal(r) == run
    ensures |r| >= PadWidth(numIndividualRuns)
    ensures run <= numIndividualRuns ==> |r| == PadWidth(numIndividualRuns)
    ensures numIndividualRuns < run ==> r == DecimalString(run)
  {
    var r := ZeroPad(run, PadWidth(numIndividualRuns));
    if run <= numIndividualRuns then DigitCountMono(run, numIndividualRuns); r
    else DigitCountMono(numIndividualRuns, run); r
  }

  /**
   The name of the emitted file of run `run`, before the output directory is
   joined on: the sanitised stem, the run number's text, then `.xml`.
   */
  function RunFileName(prefix: string, name: string, run: nat, numIndividualRuns: nat): (r: string)
    ensures var stem := prefix + Sanitize(name) + "_";
      && |r| >= |stem| + 4
      && r[..|stem|] == stem
      && r[|r| - 4..] == ".xml"
      && r[|stem|..|r| - 4] == RunNumberText(run, numIndividualRuns)
  {
    var stem := prefix + Sanitize(name) + "_";
    var digits := RunNumberText(run, numIndividualRuns);
    Parts(stem, digits, ".xml");
    stem + digits + ".xml"
  }

  /** The three parts of a concatenation can be read back off it by their lengths. */
  lemma Parts(a: string, b: string, c: string)
    ensures var r := a + b + c;
      && r[..|a|] == a && r[|a|..|r| - |c|] == b && r[|r| - |c|..] == c
  {
    var r := a + b + c;
    assert r[..|a|] == a;
    assert r[|a|..|r| - |c|] == b;
  }

  /** Within one experiment, different run numbers never share a file name. */
  lemma RunFileNameInjective(prefix: string, name: string, a: nat, b: nat, numIndividualRuns: nat)
    requires RunFileName(prefix, name, a, numIndividualRuns) == RunFileName(prefix, name, b, numIndividualRuns)
    ensures a == b
  {
    var stem := prefix + Sanitize(name) + "_";
    var f := RunFileName(prefix, name, a, numIndividualRuns);
    assert f[|stem|..|f| - 4] == RunNumberText(a, numIndividualRuns) == RunNumberText(b, numIndividualRuns);
  }

  /** The name of the run-table file of an experiment. */
  function RunTableFileName(prefix: string, name: string): (r: string)
    ensures |r| == |prefix| + |name| + 14
    ensures r[..|prefix| + |name|] == prefix + Sanitize(name)
    ensures r[|prefix| + |name|..] == "_run_table.csv"
    ensures r[|r| - 4..] == ".csv"
  {
    var r := prefix + Sanitize(name) + "_run_table.csv";
    assert r[..|prefix| + |name|] == prefix + Sanitize(name);
    assert r[|prefix| + |name|..] == "_run_table.csv";
    r
  }

  /** The run table never overwrites an emitted experiment file. */
  lemma RunTableNameIsNotARunFile(prefix: string, name: string, prefix': string, name': string, run: nat, numIndividualRuns: nat)
    ensures RunTableFileName(prefix, name) != RunFileName(prefix', name', run, numIndividualRuns)
  {
    SuffixesDiffer(RunTableFileName(prefix, name), RunFileName(prefix', name', run, numIndividualRuns));
  }

  /** A `.csv` name is not an `.xml` name. */
  lemma SuffixesDiffer(t: string, f: string)
    requires |t| >= 4 && t[|t| - 4..] == ".csv"
    requires |f| >= 4 && f[|f| - 4..] == ".xml"
    ensures t != f
  {
    assert t[|t| - 4..][1] == 'c';
    assert f[|f| - 4..][1] == 'x';
  }
}
