# Job or Joke: the scam heuristic and its page state

This project models the job analysis page of "Job or Joke". A user pastes a job
posting into a text box and presses "Analyze Job". The page then:

- refuses a description that is empty or only whitespace, leaving the page as it was;
- otherwise enters an analysing state with no result shown;
- lower-cases the description;
- keeps, in list order, those of ten fixed red-flag phrases that occur in it;
- flags the posting as fake when at least two phrases occur;
- shows one reason line per matched phrase when flagged, and a fixed two-line message otherwise;
- returns to idle with the result shown.

The model has three modules:

- `Strings` (strings.dfy) covers the three JavaScript string operations the page relies on.
  `Trim` uses the exact ECMA-262 whitespace and line-terminator set. `Lower` and `Upper`
  are lower- and upper-casing over ASCII letters. `Includes` is substring containment,
  proved equal to a declarative "occurs at some index" predicate.
- `Classifier` (classifier.dfy) is the pure heuristic: the phrase list, the filter
  (`FilterFlags`, `Matches`), the reason lines and `Classify`. It also holds the
  lemmas about them: list order, no duplicates, the cardinality of the matched set,
  case-insensitivity, the threshold in both directions, and a sample posting.
- `JobAnalysis` (job_analysis.dfy) is the page's component state as a class with the
  fields `jobDescription`, `isAnalyzing` and `result`, plus `running`: the description
  the run in progress was started on, which the handler's closure holds during the wait.
  Its invariant `Valid` says three things:
  - a run is in progress exactly when there is a captured description, and that
    description is never blank;
  - no result is shown while a run is in progress;
  - every shown result has the classifier's shape.

  `Begin` is the handler up to its two-second wait. `Settle` is the handler after the
  wait. `Analyze` is a whole press with no edit in between.

## Model

| member | source | states |
|---|---|---|
| `Strings.TrimStart` | src/pages/JobAnalysis.tsx:18 | the result is a suffix of the input that does not start with whitespace, and every dropped character is whitespace |
| `Strings.TrimEnd` | src/pages/JobAnalysis.tsx:18 | the result is a prefix of the input that does not end with whitespace, and every dropped character is whitespace |
| `Strings.Trim` | src/pages/JobAnalysis.tsx:18 | the trimmed text is a contiguous block of the input with only whitespace before it and only whitespace after it; it neither starts nor ends with whitespace; it is empty exactly when every character of the input is whitespace |
| `JobAnalysis.BlankIffTrimEmpty` | src/pages/JobAnalysis.tsx:18 | the blank-input guard (every character is whitespace, the empty description included) holds exactly when `trim` leaves the empty string |
| `Strings.ToLower` | src/pages/JobAnalysis.tsx:48 | an upper-case ASCII letter becomes its lower-case partner; every other character is kept; the result is never upper case |
| `Strings.Lower` | src/pages/JobAnalysis.tsx:48 | lower-casing keeps the length, leaves no upper-case letter, and changes each position to its lower-case form |
| `Strings.LowerIdempotent` | src/pages/JobAnalysis.tsx:48 | lower-casing twice gives the same as lower-casing once |
| `Strings.LowerEqualIffSameIgnoringCase` | src/pages/JobAnalysis.tsx:48 | two descriptions lower-case to the same text if and only if they differ only in the case of ASCII letters |
| `Strings.Includes` | src/pages/JobAnalysis.tsx:50 | `includes` is true if and only if the phrase occurs as a contiguous block at some index of the text; the empty phrase is always included |
| `Classifier.RedFlagsDistinct` | src/pages/JobAnalysis.tsx:35-46 | the ten red-flag phrases are pairwise different |
| `Classifier.RedFlagsLowerCase` | src/pages/JobAnalysis.tsx:35-50 | lower-casing any of the ten phrases (the `flag.toLowerCase()` in the filter) returns it unchanged |
| `Classifier.FilterFlags` | src/pages/JobAnalysis.tsx:49-51 | the filter keeps a subsequence of the phrase list in list order, and keeps a phrase exactly when its lower-cased form occurs in the lower-cased text |
| `Classifier.Matches` | src/pages/JobAnalysis.tsx:48-51 | `foundRedFlags` is a subsequence of the ten phrases in list order, has no duplicates and at most ten entries, and contains a phrase exactly when it occurs in the lower-cased description |
| `Classifier.MatchesCount` | src/pages/JobAnalysis.tsx:49-53 | the number of matched phrases equals the number of distinct phrases that occur in the lower-cased description |
| `Classifier.Reason` | src/pages/JobAnalysis.tsx:56 | a reason line is `Contains suspicious phrase: "`, then the phrase, then a closing `"` |
| `Classifier.ReasonInjective` | src/pages/JobAnalysis.tsx:56 | two reason lines are equal exactly when their phrases are |
| `Classifier.ReasonLines` | src/pages/JobAnalysis.tsx:56 | the map from phrases to reason lines keeps the length and formats each phrase at its own position |
| `Classifier.ReasonLinesSubsequence` | src/pages/JobAnalysis.tsx:56 | mapping a subsequence of the phrase list to reason lines gives a subsequence of the reason lines of the whole list, so list order carries over to the reasons |
| `Classifier.Classify` | src/pages/JobAnalysis.tsx:35-57 | `isFake` holds exactly when at least two distinct phrases occur. When fake, there is one reason per occurring phrase: a phrase's line is listed exactly when the phrase occurs, and the lines are in list order, without duplicates, between two and ten of them. When not fake, the reasons are exactly the fixed two lines |
| `Classifier.TwoMatchesFlag` | src/pages/JobAnalysis.tsx:53-56 | any two different phrases that both occur make the posting fake, and both are named among the reasons |
| `Classifier.AtMostOneMatchLegitimate` | src/pages/JobAnalysis.tsx:53-57 | when at most one phrase occurs, the result is not fake and carries the fixed two-line message, whether zero phrases or one matched |
| `Classifier.FakeReasonsFormat` | src/pages/JobAnalysis.tsx:55-56 | when fake, there are as many reasons as matched phrases, and entry i is the prefix, the i-th matched phrase and a closing quote |
| `Classifier.CaseInsensitive` | src/pages/JobAnalysis.tsx:48-50 | descriptions that differ only in the case of ASCII letters get the same verdict and the same reasons |
| `Classifier.UpperCaseInsensitive` | src/pages/JobAnalysis.tsx:48-50 | upper-casing a description does not change its classification |
| `Classifier.SampleLowered` | src/pages/JobAnalysis.tsx:48 | the sample posting `Easy Money, NO interview!` lower-cases to `easy money, no interview!` |
| `Classifier.SampleFlagged` | src/pages/JobAnalysis.tsx:35-57 | the sample posting `Easy Money, NO interview!` is flagged, and both `easy money` and `no interview` are named among its reasons |
| `JobAnalysis.JobAnalysisPage.constructor` | src/pages/JobAnalysis.tsx:12-14 | the page starts with an empty description, not analysing, with no result and no run in progress |
| `JobAnalysis.JobAnalysisPage.SetJobDescription` | src/pages/JobAnalysis.tsx:112 | editing the box replaces the description and changes neither `isAnalyzing`, nor `result`, nor the description a run in progress captured |
| `JobAnalysis.JobAnalysisPage.Begin` | src/pages/JobAnalysis.tsx:17-28 | callable only while idle, as the button is disabled during a run (line 120). It accepts exactly when the description is not blank. Blank input leaves the whole page unchanged, so the previous result stays. Otherwise the page is analysing with no result, and the run captures the current description |
| `JobAnalysis.JobAnalysisPage.Settle` | src/pages/JobAnalysis.tsx:34-68 | callable only while a run is in progress. The result becomes the classification of the description that run captured, not of the box's current text. `isAnalyzing` is false again (the `finally` at line 68), no run is in progress, and the box text is untouched |
| `JobAnalysis.JobAnalysisPage.Analyze` | src/pages/JobAnalysis.tsx:17-70 | a whole press from the idle page. Blank input changes nothing. Otherwise the page ends idle, showing the classification of the description, and the page invariant is kept |

## Left out

- Rendering, styling, animation and the Lottie graphic (src/pages/JobAnalysis.tsx:72-235) are presentation only.
- The toast notifications for blank input and for a failed analysis call into UI code outside this model. The blank case is `Begin` returning false.
- The two-second delay is a timing effect. The model splits the handler at that point into `Begin` and `Settle`, with no clock. An edit to the box during the delay is `SetJobDescription` between the two; `Settle` still classifies the description the run started on, as the handler's closure does.
- The `catch` branch is left out because nothing in the classification can throw. Only its `finally` reset of `isAnalyzing` is modelled, in `Settle`.
- Strings.Lower: lower-cases ASCII letters only. JavaScript's `toLowerCase` follows full Unicode case mapping; for example, it maps the Kelvin sign to `k` and can change the length of a string. A description that matches only through such a character is classified differently here. Case-insensitivity is stated for ASCII letters.
- The button is disabled while a run is in progress (src/pages/JobAnalysis.tsx:120). `Begin` and `Analyze` therefore require the page to be idle, and overlapping runs are not modelled. Any number of edits to the box may still happen during a run.
- Classifier.SampleFlagged: states that the sample is flagged and names both phrases, but not that its reason list is exactly those two lines. That would need proving that each of the other eight phrases is absent from a literal string, which this model does not do.
- src/pages/Team.tsx is a static roster rendered as cards and has no logic to model.
- Calling the classifier twice on the same description gives the same result. This needs no lemma: `Classify` is a Dafny function, so it is deterministic.
