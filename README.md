# Neural DevOps Autopilot: risk scorer and fix cleanup

This project models the two computational pieces of the autopilot's core and
proves properties about them.

- **The failure predictor** (`AnomalyDetector`). It takes one telemetry
  sample (CPU usage, memory usage, error rate) and adds a weighted point
  count for each metric strictly above its limit:
  - 40 when CPU usage is above 85.0;
  - 30 when memory usage is above 80.0;
  - 30 when the error rate is above 2.5.

  A failure is predicted when the score reaches 70. The source's
  accumulator is modelled as a method, `PredictFailure`. That method is
  proved equal to the specification functions `RiskScore` and `WillFail`,
  and the lemmas are stated about those functions.
- **The cleanup of the generated fix** (`PrGenerator`, on top of
  `PythonStrings`). The language model's reply goes through
  `.replace("```python", "")`, then `.replace("```", "")`, then `.strip()`.
  `PythonStrings` defines the Python semantics of `str.replace` and
  `str.strip` over `seq<char>`:
  - `replace` scans left to right, does not overlap matches, and handles
    an empty pattern;
  - `strip` uses the full set of whitespace code points that `str.isspace`
    accepts.

  `PrGenerator.CleanFix` composes them in the source's order.

The failure rule is not "any two of the three metrics": memory and error
rate together reach only 60, below the threshold of 70. A failure is
predicted exactly when the CPU is above its limit together with memory or
error rate (see `WillFail` and `NoFailureWithoutCpu`).

The metrics are modelled as `real`. The scorer only compares them against
constants, so this needs no floating-point arithmetic.

## Model

| member | source | states |
|---|---|---|
| AnomalyDetector.RiskScore | neural_devops_autopilot/src/prediction_engine/anomaly_detector.py:2-8 | The score always lies in 0..100. It is one of the six subset sums 0, 30, 40, 60, 70, 100 of the weights. |
| AnomalyDetector.WillFail | neural_devops_autopilot/src/prediction_engine/anomaly_detector.py:10 | A score of at least 70 holds exactly when CPU > 85.0 and (memory > 80.0 or error rate > 2.5). This is proved in both directions. |
| AnomalyDetector.PredictFailure | neural_devops_autopilot/src/prediction_engine/anomaly_detector.py:1-11 | The accumulator method returns the score `RiskScore` defines. It returns `will_fail` true exactly when that score is at least 70, which is `WillFail`. |
| AnomalyDetector.EveryScoreLevelOccurs | neural_devops_autopilot/src/prediction_engine/anomaly_detector.py:2-8 | Each of the six possible scores is produced by some sample, so the range in `RiskScore` is exact. |
| AnomalyDetector.ThresholdsAreStrict | neural_devops_autopilot/src/prediction_engine/anomaly_detector.py:3-8 | A metric exactly at its limit adds nothing. Any positive amount above the limit adds that metric's full weight. |
| AnomalyDetector.RiskIsMonotone | neural_devops_autopilot/src/prediction_engine/anomaly_detector.py:2-10 | Raising metrics never lowers the score and never withdraws a predicted failure. |
| AnomalyDetector.NoFailureWithoutCpu | neural_devops_autopilot/src/prediction_engine/anomaly_detector.py:3-10 | With CPU at or below 85.0 the score is at most 60 and no failure is predicted, whatever memory and error rate are. |
| AnomalyDetector.OnlyThreeMetricsMatter | neural_devops_autopilot/src/prediction_engine/anomaly_detector.py:3-7 | Only CPU, memory and error rate are read. Two samples that agree on them get the same score and decision. |
| AnomalyDetector.WorkedScenarios | neural_devops_autopilot/src/prediction_engine/anomaly_detector.py:1-11 | Four worked samples give 40/no failure, 70/failure, 30/no failure and 100/failure. |
| PythonStrings.ReplaceAll | neural_devops_autopilot/src/remediation_agent/pr_generator.py:4 | Python's `str.replace`, scanning left to right without overlapping matches; an empty pattern matches before every character and at the end. With a non-empty pattern and a replacement no longer than it, the result is never longer than the input. For non-empty patterns `NoOccurrenceUnchanged` and `FirstOccurrenceReplaced` together determine it. |
| PythonStrings.ReplaceSkipsUnmatchedPrefix | neural_devops_autopilot/src/remediation_agent/pr_generator.py:4 | A prefix in which no occurrence starts is copied unchanged in front of the replaced rest. |
| PythonStrings.NoOccurrenceUnchanged | neural_devops_autopilot/src/remediation_agent/pr_generator.py:4 | `replace` of a non-empty pattern that does not occur returns the input unchanged. |
| PythonStrings.FirstOccurrenceReplaced | neural_devops_autopilot/src/remediation_agent/pr_generator.py:4 | The leftmost occurrence is replaced, and the scan resumes right after it, so matches never overlap. |
| PythonStrings.OnlyOccurrenceRemoved | neural_devops_autopilot/src/remediation_agent/pr_generator.py:4 | Removing a pattern that occurs exactly once deletes just that occurrence and keeps the rest in order. |
| PythonStrings.RemovalIsSubsequence | neural_devops_autopilot/src/remediation_agent/pr_generator.py:4 | Replacing a pattern by the empty string only deletes characters: the result is a subsequence of the input. |
| PythonStrings.IsWhitespace | neural_devops_autopilot/src/remediation_agent/pr_generator.py:4 | The characters `str.isspace()` accepts, which `str.strip()` removes: U+0009 to U+000D, U+001C to U+0020, U+0085, U+00A0, U+1680, U+2000 to U+200A, U+2028, U+2029, U+202F, U+205F and U+3000. |
| PythonStrings.StripLeading | neural_devops_autopilot/src/remediation_agent/pr_generator.py:4 | The result is a suffix of the input. Everything removed is whitespace, and the result does not start with whitespace. |
| PythonStrings.StripTrailing | neural_devops_autopilot/src/remediation_agent/pr_generator.py:4 | The result is a prefix of the input. Everything removed is whitespace, and the result does not end with whitespace. |
| PythonStrings.Strip | neural_devops_autopilot/src/remediation_agent/pr_generator.py:4 | The result is trimmed. It sits in the input with only whitespace before and after it. |
| PythonStrings.StripFindsCore | neural_devops_autopilot/src/remediation_agent/pr_generator.py:4 | Only one such core exists: any trimmed string padded by whitespace strips to exactly itself. |
| PythonStrings.StripKeepsTrimmed | neural_devops_autopilot/src/remediation_agent/pr_generator.py:4 | A string with no whitespace at either end strips to itself. |
| PythonStrings.StripIgnoresPadding | neural_devops_autopilot/src/remediation_agent/pr_generator.py:4 | Whitespace added before and after a string does not change what it strips to. |
| PythonStrings.StripKeepsAbsence | neural_devops_autopilot/src/remediation_agent/pr_generator.py:4 | Stripping creates no occurrence of any pattern. |
| PythonStrings.StripIsSubsequence | neural_devops_autopilot/src/remediation_agent/pr_generator.py:4 | Stripping only deletes characters. |
| PrGenerator.CleanFix | neural_devops_autopilot/src/remediation_agent/pr_generator.py:4 | The cleaned fix has no leading or trailing whitespace. |
| PrGenerator.FenceRemovalLeavesNoFence | neural_devops_autopilot/src/remediation_agent/pr_generator.py:4 | Removing every "```" never leaves a "```" behind, even in runs of four or more backticks. |
| PrGenerator.CleanFixHasNoFence | neural_devops_autopilot/src/remediation_agent/pr_generator.py:4 | The cleaned fix contains no "```" for any input. |
| PrGenerator.CleanFixKeepsCleanText | neural_devops_autopilot/src/remediation_agent/pr_generator.py:4 | Text with no fence and no surrounding whitespace comes back unchanged. |
| PrGenerator.CleanFixIdempotent | neural_devops_autopilot/src/remediation_agent/pr_generator.py:4 | Cleaning an already cleaned fix changes nothing. |
| PrGenerator.ClosingFenceIsTheOnlyFence | neural_devops_autopilot/src/remediation_agent/pr_generator.py:4 | In fence-free code followed by a closing fence on its own line, with backtick-free text before and after, removing "```" deletes only that closing fence. |
| PrGenerator.CleanFixUnwrapsCodeBlock | neural_devops_autopilot/src/remediation_agent/pr_generator.py:4 | A reply made of a "```python\n" + code + "\n```" block, with any whitespace before and after it, cleans to the code with its own surrounding whitespace stripped, provided the code holds no fence. |
| PrGenerator.CleanFixUnwrapsTrimmedCode | neural_devops_autopilot/src/remediation_agent/pr_generator.py:4 | For code that is already trimmed, the bare block cleans to exactly that code. |
| PrGenerator.CleanFixDropsLeadingTag | neural_devops_autopilot/src/remediation_agent/pr_generator.py:4 | A leading "```python" disappears whole, including its word: cleaning the reply equals cleaning the text after the tag. |
| PrGenerator.FenceFirstKeepsWord | neural_devops_autopilot/src/remediation_agent/pr_generator.py:4 | Removing the bare fence from a wrapped block leaves "python\n" + code + "\n". |
| PrGenerator.FenceFirstWouldKeepTheWord | neural_devops_autopilot/src/remediation_agent/pr_generator.py:4 | The order of the two replacements matters. Removing "```" first would leave the word "python" in front of the code. |
| PrGenerator.CleanFixOnlyDeletes | neural_devops_autopilot/src/remediation_agent/pr_generator.py:4 | The cleaned fix is the reply with some characters deleted, in their original order. |

## Left out

- The metric sample is a record with the three metrics, a timestamp and a commit count. The source indexes a dictionary; a missing key there raises `KeyError`, which the model does not represent.
- Floating point: metrics are exact reals. IEEE NaN compares false against every limit, so in the source it contributes no points; the model has no NaN.
- The call to the language model on line 3 of pr_generator.py and the prompt built on line 2 are left out. The reply text is an input of `CleanFix`.
- The metric collector (`github_metrics.py`) is left out because it draws random values and reads the clock. Its output is only an input of the scorer.
- The dashboard in `app.py`, its history plotting and its session state are user interface and are left out.
- The simulated test run of a generated fix (`simulate_test` from `src/simulation_suite/container_tester.py`) is not part of this model.
- A Dafny `char` is a Unicode scalar value, while a Python `str` may also hold the lone surrogate code points U+D800 to U+DFFF. Replies containing such code points are not modelled. None of them is whitespace or a backtick, so the cleanup would pass them through unchanged. Nothing in the cleanup depends on an encoding.
