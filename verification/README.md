# split_nlogo_experiment: the experiment expander, in Dafny

`split_nlogo_experiment` takes a NetLogo model file and turns each selected
BehaviorSpace experiment into a numbered batch of single-combination
experiments, one XML file per run, plus a CSV run table. This project models
the logic of that expansion and proves properties about it:

- **Extraction** (`extraction.dfy`). The `<experiments>…</experiments>` blocks are cut out of the model file with two `str.split` calls and re-wrapped. `text.dfy` models Python's `str.split`, which splits at the leftmost non-overlapping occurrences.
- **Value-set combinator** (`combinator.dfy`). `expandValueSets` is the Cartesian product of the varying sets in nested-loop order, with the first set varying slowest. The model states its order against an independent mixed-radix reference: `Rank` and `Unrank`.
- **Stepped ranges** (`stepped.dfy`). A stepped set yields Python's `range(first, last + 1, step)`. A zero step raises `ValueError` and aborts the program; the model returns this as an error.
- **Repetition split** (`repetitions.dfy`). `--repetitions_per_run` divides the declared repetitions with floor division.
- **Naming** (`naming.dfy`). Experiment names are sanitised. A run number is zero-filled to the width of the combination count. The run-table file is named after the experiment.
- **Expansion** (`expander.dfy`). This covers:
  - choosing the varying sets;
  - the fallback to a single empty combination;
  - the run loop, with combinations outer and clones inner, numbering runs densely from 1;
  - the run table and the emitted instances;
  - processing every selected experiment and recording its total.
- **Scenarios** (`scenarios.dfy`). These are worked concrete instances.

The model works on values already read from the XML: integers already
parsed, and value sets as lists in document order. Strings are `seq<char>`.

Where the code and its own comments and docstrings disagree, the model
follows the code. The comment at `split_nlogo_experiment/__init__.py:357`
calls the stepped range inclusive of its last value. The comment at lines
380-382 describes the dummy expansion. The `saveExperimentToXMLFile`
docstring describes the zero padding. The code does the following:

- A stepped set is always varying, even with zero or one value. An enumerated set is varying only with more than one value.
- When the product of the varying sets' lengths is at most one, the single empty combination is used. This includes a product of zero, from an empty stepped range. Every stepped set has been removed from the template by then, so such a set disappears from the emitted files (`Expander.CollapsedSweep`).
- The zero-fill width is the number of digits of the combination count, not of the run count. With repetition clones, run numbers can be wider than the padding (`Scenarios.PaddingFollowsCombinationCount`).
- With a negative step the stop value is `last + 1`, so `last` itself is never produced (`Stepped.SteppedNegative`).

## Model

| member | source | states |
|---|---|---|
| Combinator.Expand | split_nlogo_experiment/__init__.py:29-53 | for a non-empty list of varying sets, exactly the product of their lengths combinations, each binding every variable in list order to one of its own values |
| Combinator.ProductZero | split_nlogo_experiment/__init__.py:351-366 | the combination count, the product of the set lengths, is zero exactly when some varying set has no value |
| Combinator.ProductAppend | split_nlogo_experiment/__init__.py:351-366 | the count is a running product: the count of two lists of sets together is the product of their counts |
| Combinator.PrependEach | split_nlogo_experiment/__init__.py:51-53 | the outer loop lists one combination per value of the first set and tail, `|values| * |tails|` in all, each starting with the first variable bound to one of its values |
| Combinator.PrependEachParts | split_nlogo_experiment/__init__.py:51-53 | every combination the outer loop lists is the first variable bound to one of its values, followed by one of the tails |
| Combinator.PrependEachAt | split_nlogo_experiment/__init__.py:51-53 | in the outer loop, the combination at position `i * |tails| + k` is value `i` of the first set followed by tail `k` |
| Combinator.Unrank | split_nlogo_experiment/__init__.py:47-53 | every position below the product has mixed-radix digits that are valid value positions and rank back to that position |
| Combinator.RankBound | split_nlogo_experiment/__init__.py:47-53 | the rank of every choice of value positions lies below the number of combinations |
| Combinator.RankCons | split_nlogo_experiment/__init__.py:51-53 | choosing value `d` of the first set in front of a choice for the rest is valid, and its rank is `d` times the product of the rest plus the rest's rank |
| Combinator.ExpandAt | split_nlogo_experiment/__init__.py:47-53 | the combination listed at the rank of a choice is exactly the combination that choice picks, which is nested-loop order with the first set slowest |
| Combinator.ExpandNth | split_nlogo_experiment/__init__.py:47-53 | the combination at position `i` picks the mixed-radix digits of `i` |
| Combinator.ExpandOrder | split_nlogo_experiment/__init__.py:47-53 | a choice that is lexicographically smaller is listed earlier |
| Combinator.ExpandDistinct | split_nlogo_experiment/__init__.py:47-53 | when no value list repeats a value, no combination is listed twice |
| Combinator.PickInjective | split_nlogo_experiment/__init__.py:47-53 | with duplicate-free value lists, different choices give different combinations |
| Stepped.PyRange | split_nlogo_experiment/__init__.py:365 | Python's `range` with a non-zero step: element `i` is `start + i * step`, all elements lie strictly before `stop` in the step's direction, and the next one would not |
| Stepped.SteppedValues | split_nlogo_experiment/__init__.py:358-365 | a stepped set fails exactly when its step is zero, with that set's variable in the error |
| Stepped.SteppedPositive | split_nlogo_experiment/__init__.py:358-365 | with a positive step all values lie in `[first, last]`; the list is empty exactly when `first > last`; otherwise it has `(last - first) / step + 1` values; `last` is included exactly when the step divides `last - first` |
| Stepped.SteppedCount | split_nlogo_experiment/__init__.py:365 | a non-empty positive-step range has `(last - first) / step + 1` values |
| Stepped.SteppedReachesLast | split_nlogo_experiment/__init__.py:365 | a non-empty positive-step range contains `last` exactly when the step divides `last - first` |
| Stepped.SteppedNegative | split_nlogo_experiment/__init__.py:365 | with a negative step every value exceeds `last + 1`, so `last` is never produced; the list is empty exactly when `first <= last + 1` |
| Repetitions.SplitRepetitions | split_nlogo_experiment/__init__.py:309-326 | at least one clone; clones times per-run repetitions never exceed the declared count. When splitting, each run has the requested count and the shortfall is below it. Otherwise there is one clone with the declared count |
| Repetitions.SplitLoss | split_nlogo_experiment/__init__.py:324-338 | no repetition is lost exactly when there is no split or the division is exact; the loss otherwise is the remainder, the case the source warns about |
| Text.Find | split_nlogo_experiment/__init__.py:239-241 | the leftmost occurrence of a separator: it occurs there and nowhere earlier, and none is found exactly when the text does not contain it |
| Text.Split | split_nlogo_experiment/__init__.py:239-241 | at least one piece; the pieces joined with the separator give back the text; no piece contains the separator; no occurrence starts inside the first piece; one piece exactly when the separator does not occur |
| Text.SplitFirstPiece | split_nlogo_experiment/__init__.py:239-241 | the first piece is a prefix of the text, followed by an occurrence of the separator unless it is the whole text |
| Text.SplitCuts | split_nlogo_experiment/__init__.py:239-241 | every cut is leftmost and non-overlapping: scanning from the left, no occurrence of the separator starts inside any piece |
| Text.SplitUnique | split_nlogo_experiment/__init__.py:239-241 | Python's `str.split` is fully determined: any pieces that join back to the text with no occurrence of the separator starting inside a piece are exactly the pieces `Split` returns |
| Text.SplitWhole | split_nlogo_experiment/__init__.py:239-241 | a text in which the separator never starts splits into itself alone |
| Text.SplitFirstCut | split_nlogo_experiment/__init__.py:239-241 | when no occurrence starts inside `p`, `p + sep + t` is cut first right after `p`, and the rest are the pieces of `t` |
| Text.SplitSkip | split_nlogo_experiment/__init__.py:239-241 | when no separator starts inside a prefix, splitting extends the first piece by that prefix and leaves the later pieces alone |
| Text.SplitLeading | split_nlogo_experiment/__init__.py:239-241 | a text that starts with the separator splits into an empty piece followed by the pieces of the rest |
| Extraction.ExtractExperiments | split_nlogo_experiment/__init__.py:238-242 | the extracted XML is empty exactly when the text holds no `<experiments>` tag |
| Extraction.FragmentShape | split_nlogo_experiment/__init__.py:241-242 | a fragment is the opening tag, then a prefix of the piece that holds no closing tag and is followed in the piece by a closing tag unless it is the whole piece, then the closing tag and a newline |
| Extraction.Fragments | split_nlogo_experiment/__init__.py:241-242 | the concatenated fragments are empty exactly when there are no pieces |
| Extraction.FragmentsAppend | split_nlogo_experiment/__init__.py:241-242 | fragments are concatenated in order: those of two runs of pieces are those of each, one after the other |
| Extraction.ExtractStep | split_nlogo_experiment/__init__.py:239-242 | for any text after the first opening tag, the result is the fragment of that text up to its next opening tag, followed by the extraction of that text; a nested opening tag ends a block early |
| Extraction.ExtractUnterminated | split_nlogo_experiment/__init__.py:239-242 | a block that is never closed is closed at the end of the text |
| Extraction.SplitAtFirstOpen | split_nlogo_experiment/__init__.py:239-240 | the pieces after the first opening tag are the pieces of the text that follows it |
| Extraction.FragmentOfBlock | split_nlogo_experiment/__init__.py:241-242 | a block whose body holds no closing tag is re-wrapped as opening tag, body, closing tag and newline |
| Extraction.ExtractCons | split_nlogo_experiment/__init__.py:239-242 | a leading block comes out re-wrapped, followed by the extraction of the rest of the text |
| Extraction.ExtractSingleBlock | split_nlogo_experiment/__init__.py:239-242 | a model file with one experiments block yields exactly that block |
| Text.ReplaceChar | split_nlogo_experiment/__init__.py:413 | `str.replace` of one character: same length, that character replaced at every position and nothing else changed |
| Naming.Sanitize | split_nlogo_experiment/__init__.py:413 | the sanitised name has the same length; spaces become `_` and both slashes `-`; no space or slash remains |
| Naming.SanitizeFixpoint | split_nlogo_experiment/__init__.py:413 | sanitising is idempotent, and it leaves a name unchanged exactly when the name is already safe |
| Text.DecimalString | split_nlogo_experiment/__init__.py:417 | `str` of a natural number: non-empty, all digits, no leading zero, one digit exactly below ten |
| Text.ParseDecimalString | split_nlogo_experiment/__init__.py:417 | the decimal text of a number reads back as that number |
| Text.ZeroPad | split_nlogo_experiment/__init__.py:417 | `zfill`: the length is the larger of the width and the digit count; the result is all digits, padded with `0` in front of the number's text, and reads back as the number |
| Text.ZeroPadInjective | split_nlogo_experiment/__init__.py:417 | different numbers are padded to different texts |
| Text.DigitCount | split_nlogo_experiment/__init__.py:417 | the digit count `k` of `str(n)` satisfies `n < 10^k`, and `10^(k-1) <= n` when `k > 1` |
| Text.DigitCountExact | split_nlogo_experiment/__init__.py:417 | conversely, any `k >= 1` with `n < 10^k`, and `10^(k-1) <= n` when `k > 1`, is the digit count of `str(n)`; with `DigitCount` this fixes `len(str(n))` |
| Text.DigitCountMono | split_nlogo_experiment/__init__.py:417 | a larger number never has fewer digits |
| Naming.PadWidth | split_nlogo_experiment/__init__.py:417 | the padding width is the number of decimal digits of the combination count: at least one, with the count below `10^w`, and at or above `10^(w-1)` when `w > 1` |
| Naming.RunNumberText | split_nlogo_experiment/__init__.py:417 | the run number is written as digits that read back as it, at least the padding width long, and exactly that wide for every run number up to the combination count; a run number above the count is its plain decimal text, with no padding |
| Naming.RunFileName | split_nlogo_experiment/__init__.py:414-418 | a run file name is the prefix, the sanitised name and `_`, then the run number text, then `.xml` |
| Naming.RunFileNameInjective | split_nlogo_experiment/__init__.py:414-418 | within one experiment, different run numbers never share a file name |
| Naming.RunTableFileName | split_nlogo_experiment/__init__.py:433-436 | the run-table name is the prefix and the sanitised name followed by exactly `_run_table.csv` |
| Naming.RunTableNameIsNotARunFile | split_nlogo_experiment/__init__.py:433-436 | the run table never takes the name of a run file |
| Expander.EnumeratedRange | split_nlogo_experiment/__init__.py:349-350 | an enumerated set becomes a range with the same variable and its values as text, in order |
| Expander.SelectEnumerated | split_nlogo_experiment/__init__.py:341-351 | exactly the enumerated sets with more than one value are collected as ranges |
| Expander.SelectEnumeratedAppend | split_nlogo_experiment/__init__.py:341-351 | collection keeps document order: collecting from two stretches concatenates the two collections |
| Expander.SelectNone | split_nlogo_experiment/__init__.py:341-351 | nothing is collected from sets that each have at most one value |
| Expander.FixedSets | split_nlogo_experiment/__init__.py:346-354 | the template keeps exactly the enumerated sets with at most one value, and never more sets than there were |
| Expander.FixedSetsAppend | split_nlogo_experiment/__init__.py:346-354 | the kept sets stay in document order, duplicates included: keeping from two stretches concatenates what is kept from each |
| Expander.FixedOrSelected | split_nlogo_experiment/__init__.py:346-354 | every enumerated set is either kept in the template or collected as varying |
| Expander.SteppedRanges | split_nlogo_experiment/__init__.py:358-369 | every stepped set becomes a range of its values, whatever their number; the first zero step aborts with that set's error |
| Expander.Varying | split_nlogo_experiment/__init__.py:341-369 | fails exactly when some stepped set has a zero step; otherwise the selected enumerated sets followed by all stepped ranges |
| Expander.SteppedPosition | split_nlogo_experiment/__init__.py:341-369 | stepped set `k` is varying set `e + k`, after the `e` selected enumerated sets |
| Expander.CountIsRunningProduct | split_nlogo_experiment/__init__.py:341-366 | the combination count is the product over the selected enumerated sets, multiplied first, times the product over the stepped sets |
| Expander.Combinations | split_nlogo_experiment/__init__.py:377-383 | when the product exceeds one, that many conforming combinations; otherwise exactly the single empty combination |
| Expander.Header | split_nlogo_experiment/__init__.py:388-389 | the header row is the `Experiment number` heading followed by the variable of each binding of the first combination, in order |
| Expander.DataRow | split_nlogo_experiment/__init__.py:390-407 | a data row is the run number followed by the value of each binding, in order |
| Expander.EnumerateStep | split_nlogo_experiment/__init__.py:385-407 | one pass of the inner loop keeps the numbering dense and the table in step, adding the header before the first run |
| Expander.EnumerateRuns | split_nlogo_experiment/__init__.py:372-429 | `combinations × clones` runs; run `i + 1` is clone `i % clones` of combination `i / clones` with the per-run repetitions; the table is empty without runs, otherwise the header from the first combination and one row per run |
| Expander.IntText | split_nlogo_experiment/__init__.py:398 | `str` of an integer: exactly the decimal text of a non-negative integer, and exactly `-` followed by the decimal text of the magnitude for a negative one, so no leading zeros on either side |
| Expander.ValueText | split_nlogo_experiment/__init__.py:398 | a value is written as its own text when enumerated, and an integer exactly as `str` writes it, digits with a `-` when negative, that read back as the integer |
| Expander.BindingSet | split_nlogo_experiment/__init__.py:394-400 | a binding becomes an enumerated set for its variable whose one value is the binding's value as text |
| Expander.Instance | split_nlogo_experiment/__init__.py:392-400 | the emitted experiment keeps the template's name and remaining sets, carries the run's repetitions, and then has one single-valued set per binding, in order |
| Expander.EmittedIsFixed | split_nlogo_experiment/__init__.py:392-400 | every set of an emitted experiment has at most one value, so splitting it again collects nothing |
| Expander.ExpandExperiment | split_nlogo_experiment/__init__.py:297-436 | fails exactly when a stepped set has a zero step; otherwise returns the varying sets, template, split, runs, table and file names that the definitions above prescribe |
| Expander.RunsAreDense | split_nlogo_experiment/__init__.py:385-429 | at least one run; runs are numbered 1 to the total without gaps or repeats, in increasing order; the last number is the total; every run carries the per-run repetitions |
| Expander.TableIsRectangular | split_nlogo_experiment/__init__.py:375-407 | the table has one row more than there are runs; every row is as wide as the header, which has the run-number column plus one column per varying set when the sweep expands |
| Expander.RowsHaveWidth | split_nlogo_experiment/__init__.py:388-407 | when all combinations bind `w` variables, every row has `1 + w` cells |
| Expander.FileNamesAreDistinct | split_nlogo_experiment/__init__.py:413-418 | no two runs of an experiment are written to the same file |
| Expander.RunCombination | split_nlogo_experiment/__init__.py:385-386 | run `i + 1` carries the combination whose value positions are the mixed-radix digits of `i / clones` |
| Expander.TotalRuns | split_nlogo_experiment/__init__.py:429 | every experiment without a zero step expands into at least one run |
| Expander.TotalIsTotalRuns | split_nlogo_experiment/__init__.py:429 | the recorded total is the combination count, or one when the sweep collapses, times the clones |
| Expander.CollapsedSweep | split_nlogo_experiment/__init__.py:377-383 | a product of at most one gives exactly one run per clone, all with the empty combination, and a header with the run-number column only |
| Expander.EmptySteppedSetCollapses | split_nlogo_experiment/__init__.py:358-383 | a stepped set with no value makes the product zero and the sweep collapse to the single empty combination |
| Expander.ExpandAndCount | split_nlogo_experiment/__init__.py:429 | fails exactly on a zero step; otherwise gives the experiment's run total |
| Expander.LastBeforeShrinks | split_nlogo_experiment/__init__.py:293-295 | being the last selected experiment of its name stays true over a shorter stretch, and a later selected experiment does not carry that name |
| Expander.SelectedNamesStep | split_nlogo_experiment/__init__.py:293-295 | the names recorded grow by the next experiment's name exactly when it is selected |
| Expander.TotalsStep | split_nlogo_experiment/__init__.py:429 | recording the next experiment keeps every name mapped to the total of the last selected experiment carrying it |
| Expander.RecordStep | split_nlogo_experiment/__init__.py:293-429 | recording or skipping the next experiment extends the record by one experiment |
| Expander.ProcessExperiments | split_nlogo_experiment/__init__.py:291-429 | fails exactly when a selected experiment has a zero step; otherwise the record holds exactly the selected names, each mapped to the total of the last selected experiment of that name |
| Scenarios.SweepVarying | split_nlogo_experiment/__init__.py:341-351 | an experiment with `x` in {1, 2, 3} has `x` as its only varying set, with the values as text |
| Scenarios.SweepOfThree | split_nlogo_experiment/__init__.py:324-326 | six repetitions, two per run, split into three clones of two; with three values that is nine runs |
| Scenarios.SingleDigitRun | split_nlogo_experiment/__init__.py:417 | with fewer than ten combinations, a run number below ten is written as its one digit |
| Scenarios.NegativeStepStopsEarly | split_nlogo_experiment/__init__.py:365 | from 5 down to 1 in steps of -1 the values are 5, 4 and 3 only |
| Scenarios.SplitOverlapping | split_nlogo_experiment/__init__.py:239-241 | a separator that overlaps itself is cut at its leftmost non-overlapping occurrences: `"baabaaa".split("aa")` gives `b`, `b`, `a` |
| Scenarios.PaddingFollowsCombinationCount | split_nlogo_experiment/__init__.py:417 | with four combinations the padding width is one, so runs 1 and 12 are written as `1` and `12`, of different lengths |
| Scenarios.TwelveUnpadded | split_nlogo_experiment/__init__.py:417 | run 12 of four combinations is written `12` |

## Left out

- Parsing the model file's XML, and the DOM cloning, removal and serialisation of experiment nodes: library tree work. An experiment is modelled as its name, its `repetitions` and its two lists of value sets. An emitted experiment is modelled as its name, repetitions and enumerated sets.
- Writing the XML files, the run-table CSV and the script files, and the `IOError` exits: I/O. The model produces the file names and contents that would be written.
- The output directory join (`os.path.join`) and the absolute-path translation: OS path handling. File names are modelled before the directory is joined on.
- Argument parsing: the selection, `--repetitions_per_run` and `--output_prefix` are parameters. `--create_run_table` only decides whether the table is written, so the table is always built.
- Array-job script generation from a template, and the script file name: string templating over a library. The script file name uses the unsanitised experiment name.
- Warnings and debug output, including the warning for a requested experiment that is absent: side-effect output only. `Repetitions.SplitLoss` states the exact condition of the lossy-split warning.
- `int()` parsing of the `repetitions`, `first`, `last` and `step` attributes: the integers are taken as given.
- Text.ZeroPad: models `zfill` for non-negative numbers only, because run numbers start at 1.
- Expander.EnumerateRuns: file names are derived from the finished run list rather than built inside the loop. Each name depends only on its run's number, so the names are the same.
- Text.Split: its own contract fixes only the first cut. `Text.SplitCuts` and `Text.SplitUnique` fix every later cut.
- Extraction.ExtractExperiments: its own contract states only when the result is empty. `Extraction.ExtractStep` gives the content block by block for any text.
- Extraction.ExtractCons: is stated for block bodies that hold neither tag. `Extraction.ExtractStep` covers every text, including nested and unterminated blocks (`Extraction.ExtractUnterminated`).
