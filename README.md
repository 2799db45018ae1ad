# icsisumm TAC 2008 driver — decoding, task selection and output text in Dafny

This project models the self-contained logic of `tac08/main.py`, the driver of
the ICSI extractive summarizer. After the integer program for a problem has
been solved, the driver keeps every solver variable named like `s<digits>`
whose value is 1, looks each one up in the program's `binary` table to get its
sentence, and halts the run when nothing was selected. It then joins the
selected sentences' original text with newlines and writes one file per
problem. Around that sit three smaller pieces: the mapping from the `--task`
code to a task, the two cache-file paths under `--dataroot`, and the reading
of three ROUGE scores out of the scorer's report.

Modules:

- `Wrappers` (`wrappers.dfy`): `Option` and `Result`, for `parser.error`,
  the KeyError, `sys.exit(1)` and the unpacking error.
- `Chars` (`chars.dfy`): `\d` of a Python 2 byte-string pattern (ASCII digits).
- `Tasks` (`tasks.dfy`): the `--task` dispatch and the state-file paths of
  `parse_options`.
- `Decoder` (`decoder.dfy`): the decoding loop, written as a method with loop
  invariants and proved equal to a reference function `Decode`, with the
  lemmas about `Decode`.
- `Summary` (`summary.dfy`): the `"\n".join` of the compressed branch, with
  `str.split("\n")` as its inverse, and the write loop of the uncompressed
  branch, as a method.
- `Scores` (`scores.dfy`): `re.findall(': (\d\.\d+)', report)` as a
  left-to-right scan, and the unpacking into exactly three scores.
- `Pipeline` (`pipeline.dfy`): the loop of the compressed branch over the
  problems. The solved program of each problem is its input. The steps done
  by modules that are not part of this model (`ordering.by_dendrogram`,
  `compression.addAcronymDefinitionsToSummary`) are function parameters.
  Written files are a map from path to text.

Behaviours of the code that the model keeps exactly:

- Sentence variable names. `re.match(r'^s\d+$', name)` accepts leading zeros
  (`s007`). Because Python's `$` also matches before one final newline, it
  also accepts `s12\n`. The model accepts both
  (`Decoder.SentenceVariableShape`). Such a name then goes through the
  `program.binary[...]` lookup like any other.
- An empty selection ends the whole run: `sys.exit(1)` stops the program, and
  files already written for earlier problems stay. A qualifying variable
  missing from `binary` raises an uncaught KeyError, which also ends the run
  with status 1.
- The scores stay strings. Python 2's `findall` returns strings, and nothing
  converts them. Any match count other than three is an error.

## Model

| member | source | states |
|---|---|---|
| `Tasks.Dispatch` | tac08/main.py:23-29 | succeeds exactly for the codes u08, u07, m07, m06, m05; on success the code is the chosen task's own code; anything else, including no code, is an unrecognized-task error carrying the code |
| `Tasks.DispatchRoundTrip` | tac08/main.py:23-29 | each task is selected by its own code, and only by that code |
| `Tasks.TaskCodeInjective` | tac08/main.py:23-27 | the five codes are pairwise distinct, so they name five distinct tasks |
| `Tasks.StatePathsDifferInSuffixOnly` | tac08/main.py:33-34 | both paths are `dataroot/name_` followed by `data.pickle` or `punkt.pickle`; the two paths never coincide |
| `Tasks.DataPicklePathInjective` | tac08/main.py:33 | two data paths are equal exactly when their `dataroot/name` parts are equal |
| `Tasks.PunktPicklePathInjective` | tac08/main.py:34 | two punkt paths are equal exactly when their `dataroot/name` parts are equal |
| `Tasks.WithStatePaths` | tac08/main.py:31-34 | a non-empty dataroot sets both state paths from the dataroot and the name; an absent or empty one changes nothing; the name never changes |
| `Tasks.ParseOptions` | tac08/main.py:23-36 | fails exactly when dispatch fails; otherwise returns the predefined task for the code, with its state paths moved under the dataroot |
| `Tasks.ParseOptionsSelects` | tac08/main.py:23-34 | for every task code and non-empty dataroot, the result is that task with `root/name_data.pickle` and `root/name_punkt.pickle` |
| `Decoder.SentenceVariableShape` | tac08/main.py:91 | a name passes `^s\d+$` if and only if it is `s` plus one or more ASCII digits, optionally followed by one newline |
| `Decoder.SentenceVariableExamples` | tac08/main.py:91 | `c3`, `s`, `s1a`, `xs1`, `s1\n\n` and the empty name are rejected; `s007` and `s12\n` are accepted |
| `Decoder.QualifyingNamesMembers` | tac08/main.py:90-91 | a name is among the kept names exactly when some variable of that name passes the pattern and has value 1 |
| `Decoder.DecodeSelection` | tac08/main.py:89-95 | the loop over `program.output` returns what the reference `Decode` gives: the KeyError of the first unknown qualifying name, the empty-summary error, or the looked-up sentences |
| `Decoder.DecodeExact` | tac08/main.py:90-92 | on success, entry k of the selection is the table entry of the k-th qualifying variable, and a sentence is selected if and only if it is the entry of some qualifying variable |
| `Decoder.DecodeEmpty` | tac08/main.py:93-95 | decoding ends in the empty-summary error exactly when no variable qualifies; a successful selection is never empty |
| `Decoder.DecodeUnknown` | tac08/main.py:92 | the lookup fails (KeyError) exactly when some qualifying variable has no entry in `binary` |
| `Decoder.DecodeUnknownIsFirst` | tac08/main.py:90-92 | the failing name belongs to a qualifying variable with no table entry, and every qualifying variable before it has one |
| `Decoder.DecodeIgnoresNonQualifying` | tac08/main.py:91 | inserting a variable that fails the test, at any position and with any value, leaves the result unchanged |
| `Decoder.DecodeIgnoresOtherEntries` | tac08/main.py:91-92 | changing or removing the table entry of a name no qualifying variable has leaves the result unchanged |
| `Decoder.DecodeKeepsOrder` | tac08/main.py:90-92 | of two qualifying variables, the sentence of the earlier one in iteration order comes earlier in the selection |
| `Decoder.QualifyingNamesDistinct` | tac08/main.py:90-92 | over a dictionary (distinct names), no variable is kept twice |
| `Decoder.DecodeCountsVariables` | tac08/main.py:90-92 | over a dictionary, the selection has exactly as many entries as there are distinct qualifying variables |
| `Summary.SplitJoin` | tac08/main.py:98 | splitting the newline-joined text of lines without newlines gives back exactly those lines |
| `Summary.JoinSplit` | tac08/main.py:98 | joining the pieces of any text split at newlines gives back that text |
| `Summary.AssembleSummaryLines` | tac08/main.py:98 | the assembled summary of single-line sentences reads back, line by line, as their originals in selection order |
| `Summary.WriteSentences` | tac08/main.py:123-124 | the write loop produces every original followed by its own newline, in selection order |
| `Summary.TerminatedIsJoinPlusNewline` | tac08/main.py:123-124 | writing each line followed by a newline gives the newline-joined text plus one final newline, or nothing for no lines |
| `Summary.UncompressedIsSummaryPlusNewline` | tac08/main.py:123-124 | the uncompressed file is the assembled summary plus a trailing newline, and empty for an empty selection |
| `Scores.MatchEnd` | tac08/main.py:130 | a match is found at the front exactly when the text starts with `": "` followed by a score (digit, point, digits); it captures the score and ends where the digit run ends |
| `Scores.FindScores` | tac08/main.py:130 | every captured string is a score: one digit, a point, one or more digits |
| `Scores.FindScoresTakesAny` | tac08/main.py:130 | `": "`, a score, then anything but a digit: the score is captured whole (greedy `\d+`) and the scan resumes right after it |
| `Scores.FindScoresScan` | tac08/main.py:130 | positions where no match starts contribute nothing: the scan passes over them |
| `Scores.FindScoresFirst` | tac08/main.py:130 | the first capture is the leftmost match, and the remaining captures come from the text after that match (non-overlapping) |
| `Scores.FindScoresOccur` | tac08/main.py:130 | every captured score stands in the report right after `": "` |
| `Scores.FindScoresLine` | tac08/main.py:130 | one report line `label: score tail`, with no colon in the label or the tail and no digit right after the score, contributes exactly its score |
| `Scores.RougeLineExample` | tac08/main.py:130 | on a ROUGE line `1 ROUGE-1 Average_R: 0.38090 (95%-conf.int. 0.36908 - 0.39311)` only `0.38090` is captured |
| `Scores.FindScoresReport` | tac08/main.py:130 | a report of such lines yields exactly its scores, in order |
| `Scores.ParseRouge` | tac08/main.py:130 | succeeds exactly when there are three matches, giving them in order; otherwise reports how many were found |
| `Scores.ParseRougeReport` | tac08/main.py:130 | a three-line report of such lines unpacks into its three scores |
| `Pipeline.OutputPathInjective` | tac08/main.py:101 | within one output directory, different problem ids give different file paths |
| `Pipeline.FirstFailure` | tac08/main.py:92-95 | every problem before the returned position decodes, and the problem at it does not |
| `Pipeline.SummarizeProblem` | tac08/main.py:89-99 | for one problem: decode, stop on failure, reorder, join with newlines, add acronym definitions; equals the reference `ProblemSummary` |
| `Pipeline.RunCompressed` | tac08/main.py:66-103 | the loop over problems ends the run with status 1 exactly when some problem fails to decode, and otherwise finishes (status 0 here; the score unpacking on line 130 can still end the run with status 1 afterwards); the files are those of the problems before the first failure |
| `Pipeline.WrittenFiles` | tac08/main.py:101-103 | the files written are exactly the output paths of the problems processed |
| `Pipeline.WrittenContents` | tac08/main.py:101-103 | each file holds the summary of the last processed problem with that id |
| `Pipeline.EmptySelectionAborts` | tac08/main.py:93-95 | a problem with no qualifying variable is where the run stops; no file is opened for it or for any later problem unless an earlier problem shares the id |
| `Pipeline.CompletedRunWritesAll` | tac08/main.py:66-103 | when every problem decodes, every problem has a file |

## Left out

- Option parsing with `optparse` and the message and exit of `parser.error` (tac08/main.py:5-21, 29): library plumbing. Only the outcome of the dispatch is modelled.
- Shell and file input/output: `mkdir -p` on the dataroot, `rm -rf` and `os.mkdir` on the output directory, opening, writing and closing files, and stderr logging. A written file appears in the model as a path-to-text entry.
- The TAC and DUC task constants and their names come from `globals`, which is not part of this model. They enter `Tasks.ParseOptions` as the `predefined` parameter.
- Setting up problems, parsing, re-normalizing sentences, concept mapping, building the program and running the solver (tac08/main.py:43-52, 66-87, 111-119): they call modules that are not part of this model. Their result enters as each problem's solved assignment and `binary` table.
- `ordering.by_dendrogram` and `compression.addAcronymDefinitionsToSummary` (tac08/main.py:97, 99) are not part of this model. They are the `reorder` and `define` parameters of `Pipeline`, and no property of them is assumed. In particular, the model does not assume that reordering is a permutation.
- The uncompressed branch (tac08/main.py:111-125): its selection comes from `format_output` and `ordering.by_date`, which are not part of this model. Only the text its write loop produces is modelled (`Summary.WriteSentences`). That branch writes an empty file for an empty selection. It does not abort.
- The release of problem memory (tac08/main.py:106-108): resource management only.
- Running the ROUGE scorer and printing its report (tac08/main.py:127-129, 131). This also covers the `u08` test that decides whether the scorer runs. Only the parsing on line 130 is modelled.
- Solver values are integers in the model. A float `1.0`, which Python also treats as equal to 1, is not represented.
- The traceback text of the uncaught KeyError is not modelled. The model keeps only that the run stops with status 1 at that variable.
- The length budget, the concept weights and the integer program are built by modules that are not part of this model. The model states no property of them.
- `invaliddataerror.py` declares an empty exception subclass with no behaviour.
