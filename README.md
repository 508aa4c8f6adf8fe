# Patriot air defence simulation: the detection engine

This project models the core of `PatriotAirDefenseSystem`: the time-stepped
detection loop of `run_simulation` and the guards of `_write_results`.

Each row of radar tokens is one time step. For each step the engine does this:

- It strips every token and looks at its last character. A `'0'` counts the
  token as even. Any other character counts it as odd, with no check that it
  is a binary digit.
- It calls the row hostile when odd tokens strictly outnumber even ones. A tie
  is clear, and so is an empty row.
- On a hostile row only, it reads one uniform draw `u`. The hostile is
  identified when `u < Pk`.
- It raises `hostiles_count` on every step. It raises
  `hostile_detected_count` on hostile steps, and `hostile_identified_count`
  on identified ones.
- It stops after 20 steps.

At the end, `_write_results` prints the three counts. It prints the two
percentages only when at least one step ran, and the realised Pk ratio only
when at least one hostile was detected.

Files:

- `tokens.dfy` (module `Tokens`): Python's `strip`, with its whitespace set,
  and the even/odd class of one token.
- `classifier.dfy` (module `Classifier`): the inner counting loop
  (`CountParities`) and the row verdict (`Classify`).
- `simulation.dfy` (module `Simulation`): `Simulate`, a function giving the
  counters after a run in terms of the counters before it, the rows, the
  draw stream and Pk. All run-level properties are proved about it.
- `reporting.dfy` (module `Reporting`): the lines of the results file.
- `patriot.dfy` (module `Patriot`): the class with its three `nat` counters.
  The loop in its `Steps` method updates the counters in place, and its
  postcondition ties the new state to `Simulate` of the old state.
  `RunSimulation` adds the file checks around it and writes the report.

Modelling choices:

- The radar file arrives already parsed, as `seq<seq<string>>`. Whether the
  file exists is a boolean parameter.
- The seeded random stream is an injected function `draws: nat -> real`,
  fixed when the object is built. The field `drawIndex` is the stream
  position, so a second `run_simulation` call goes on from where the first
  stopped. The counters are not reset between calls, matching the source.
- A token that is empty after stripping makes the source fail with an index
  error at `binary_number[-1]`. By then `hostiles_count` has already been
  raised for that step, and no results file is written. The model keeps this
  behaviour as `Outcome.Crashed(step)`, with the counters left as the source
  leaves them. Skipping blank tokens would avoid the crash; the model keeps
  the crash because the code does.
- Whether the log file (src/functions.py:49) and the results file
  (src/functions.py:125) can be opened for writing are boolean parameters.
  If the log file cannot be opened, the run fails before any step, with the
  counters unchanged (`LogUnavailable`). If the results file cannot be
  opened, every step has already updated the counters, but nothing is
  written (`ResultsUnavailable`).

## Model

| member | source | states |
|---|---|---|
| `Tokens.TrimLeftIsSuffix` | src/functions.py:72 | left-stripping keeps a suffix, drops only whitespace, and stops at a non-whitespace character |
| `Tokens.TrimRightIsPrefix` | src/functions.py:72 | right-stripping keeps a prefix, drops only whitespace, and stops at a non-whitespace character |
| `Tokens.StripIsSlice` | src/functions.py:72 | `strip()` leaves the slice of the token between its leading and trailing whitespace |
| `Tokens.StripSliceUnique` | src/functions.py:72 | only one slice has whitespace-only borders and non-whitespace ends, so the result of stripping is fully determined |
| `Tokens.TrimRightEndsAtLastNonSpace` | src/functions.py:72-74 | right-stripping leaves nothing iff the token has no non-whitespace character; otherwise it ends at the last such character |
| `Tokens.TrimLeftKeepsLast` | src/functions.py:72-74 | left-stripping a string that ends in a non-whitespace character keeps that character last |
| `Tokens.StripDecidesParity` | src/functions.py:72-77 | the source's test (strip, then compare the last character with `'0'`) gives exactly the token's class; the stripped token is empty exactly in the error case |
| `Tokens.TokenParityNoneIffBlank` | src/functions.py:72-74 | a token has no class (the index-error case) iff it is empty or all whitespace |
| `Tokens.TokenParityIgnoresTrailingSpace` | src/functions.py:72-77 | trailing whitespace never changes a token's class |
| `Classifier.CountParities` | src/functions.py:67-77 | the counting loop succeeds iff every token is non-blank after stripping; it then returns the even and odd counts, their sum is the row length, and its verdict equals `Classify` |
| `Classifier.CountsCoverRow` | src/functions.py:71-77 | in a well-formed row every token is counted exactly once: odd + even = number of tokens |
| `Classifier.ClassifyMajority` | src/functions.py:79-80 | a row is hostile iff it is well formed and more than half its tokens are odd; it is clear iff at most half are, so ties and the empty row are clear |
| `Classifier.CountPermutation` | src/functions.py:71-77 | reordering the tokens of a row leaves each count unchanged |
| `Classifier.ClassifyPermutation` | src/functions.py:71-80 | reordering the tokens of a row leaves its verdict unchanged |
| `Classifier.ClassifyUniform` | src/functions.py:71-80 | a non-empty all-odd row is hostile; an all-even row is clear |
| `Classifier.ClassifyExamples` | src/functions.py:71-80 | 2 odd vs 1 even is hostile; 1 odd vs 2 even, a tie and an empty row are clear; a last character such as `x` counts as odd; a blank token is the error case |
| `Simulation.SimulateKeepsCounterInvariant` | src/functions.py:59-86 | no counter ever decreases; identified <= detected <= hostiles is preserved; one draw is consumed per detection; at most min(rows, steps left) steps are counted |
| `Simulation.SimulateOneStep` | src/functions.py:66-86 | a well-formed step raises hostiles by 1, raises detected by 1 iff the row is hostile, raises identified by 1 iff hostile and the draw is below Pk, and advances the draw stream only when hostile |
| `Simulation.SimulateFailingStep` | src/functions.py:66-74 | a blank token stops the run at that step, after the step has been counted in hostiles and before anything else changes |
| `Simulation.SimulateSteps` | src/functions.py:59-66 | a finished run counts exactly min(number of rows, 20) steps; a failed run fails inside that window, after counting the failing step |
| `Simulation.SimulateFinishedIff` | src/functions.py:59-74 | a run finishes normally iff every row inside the 20-step window is well formed |
| `Simulation.SimulateIgnoresLateRows` | src/functions.py:59-64 | rows after the 20th never affect the result |
| `Simulation.SimulateDetectsHostileRows` | src/functions.py:79-84 | in a finished run, detections and consumed draws both equal the number of hostile rows in the window |
| `Simulation.SimulateUsesOnlyConsumedDraws` | src/functions.py:81-86 | two draw streams that agree on the consumed draws give the same run, so clear steps never read a draw and a fixed seed reproduces the run |
| `Simulation.SimulateNeverIdentifies` | src/functions.py:84-86 | with Pk <= 0 and draws in [0, 1), nothing is identified |
| `Simulation.SimulateAlwaysIdentifies` | src/functions.py:84-86 | with Pk >= 1 and draws below 1, every detection is identified |
| `Simulation.SimulateWholeRun` | src/functions.py:59-66 | from zero counters over well-formed rows, the run finishes with hostiles = min(number of rows, 20) (25 rows give 20) and ordered counters |
| `Simulation.SimulateThreeRowExample` | src/functions.py:59-86 | rows all-odd, all-even, then 2-odd/1-even with Pk = 1 end at 3 steps, 2 detections, 2 identifications and 2 draws consumed |
| `Reporting.Report` | src/functions.py:121-138 | the results start with the title and the two counts; the identified count comes fourth, or fifth after the detection rate; there are exactly 4 lines plus 2 when hostiles > 0 plus 1 when detected > 0; each percentage line appears iff hostiles > 0; the ratio line appears iff detected > 0; each printed value is detected/hostiles*100, identified/hostiles*100 or identified/detected, with a non-zero denominator |
| `Reporting.ReportBounds` | src/functions.py:129-138 | for ordered counters, both percentages lie in [0, 100] and the realised Pk ratio lies in [0, 1] |
| `Reporting.ReportOfEmptyRun` | src/functions.py:125-138 | with no steps, the results are just the title and the three zero counts, with no ratio lines |
| `Patriot.PatriotAirDefenseSystem.constructor` | src/functions.py:11-27 | Pk, pacing and the seeded draw stream are stored; all three counters and the stream position start at 0 |
| `Patriot.PatriotAirDefenseSystem.Steps` | src/functions.py:59-86 | the in-place step loop leaves the counters and the stream position where `Simulate` from the old state says, and returns how the run stopped; no counter decreases and the counter ordering is kept |
| `Patriot.PatriotAirDefenseSystem.RunSimulation` | src/functions.py:36-125 | without an input file, or when the log file cannot be opened, nothing changes and nothing is written; otherwise the counters and stream position become those of `Simulate` from the old state, and the outcome is the crash step, the report, or the unwritable results file; the counter ordering is kept, and every rate in a written report lies within its bounds |

## Left out

- Reading the CSV file with `csv.reader` and the `os.path.exists` check: rows arrive already parsed, and existence is a boolean parameter.
- Console and log-file output (step headers, verdict lines, the elapsed-time line): output only. Failure to open the log or results file is modelled; other write errors are not.
- Failure to open the radar file after `os.path.exists` succeeded (src/functions.py:55), for example for lack of permission: the existence check is the only input check modelled.
- `time.time` and the `time.sleep(0.995)` pacing: wall-clock effects only. `realTime` is stored and has no effect.
- `random.seed` and `random.uniform`: replaced by the injected stream `draws`. Python's generator is module-wide state shared by all instances; the model gives each object its own stream.
- Draws are exact reals, not IEEE doubles. Percentages are exact reals, not floats, and the `:.2f` formatting is not modelled.
- Results and log file names built from the seed: file naming only.
- `extra/Pk_analysis.py`, `extra/large_scale_test.py` and `main.py`: plotting, data generation and entry-point wiring.
- Characters are Unicode scalar values, so lone surrogate code points, which a Python string can hold, cannot occur in a token.
