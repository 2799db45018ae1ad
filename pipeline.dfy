/** The per-problem loop of the compressed branch of tac08/main.py, from the
    solver's assignment to the file written for each problem. The steps that
    live in modules outside this model (building and solving the program,
    `ordering.by_dendrogram`, `compression.addAcronymDefinitionsToSummary`)
    enter as data: each problem's solved assignment and table, and two
    functions indexed by the problem's position in the batch. */
module Pipeline {
  import opened Wrappers
  import opened Decoder
  import opened Summary

  /** A problem after `program.run()`: its id, `program.output`, `program.binary`. */
  datatype SolvedProblem = SolvedProblem(id: string, output: Assignment, binary: map<string, Sentence>)

  /** `"%s/%s" % (options.output, problem.id)` */
  function OutputPath(outdir: string, id: string): string
  {
    outdir + "/" + id
  }

  /** Within one output directory, distinct problem ids get distinct files. */
  lemma OutputPathInjective(outdir: string, id1: string, id2: string)
    ensures OutputPath(outdir, id1) == OutputPath(outdir, id2) ==> id1 == id2
  {
    if OutputPath(outdir, id1) == OutputPath(outdir, id2) {
      assert id1 == OutputPath(outdir, id1)[|outdir| + 1..];
      assert id2 == OutputPath(outdir, id2)[|outdir| + 1..];
    }
  }

  predicate Decodes(p: SolvedProblem)
  {
    Decode(p.output, p.binary).Success?
  }

  /** What the loop body yields for the problem at position `k`: the text to
      write (its decoded selection, reordered, joined by newlines, with acronym
      definitions added), or the reason the run stops. */
  function ProblemSummary(k: nat, p: SolvedProblem,
                          reorder: (nat, seq<Sentence>) -> seq<Sentence>,
                          define: (nat, string) -> string): Result<string, DecodeError>
  {
    match Decode(p.output, p.binary)
    case Failure(e) => Failure(e)
    case Success(selection) => Success(define(k, AssembleSummary(reorder(k, selection))))
  }

  /** The position of the first problem whose decoding fails, or the number
      of problems when all decode. */
  function FirstFailure(problems: seq<SolvedProblem>): (n: nat)
    ensures n <= |problems|
    ensures forall k :: 0 <= k < n ==> Decodes(problems[k])
    ensures n < |problems| ==> !Decodes(problems[n])
  {
    if problems == [] then 0
    else if !Decodes(problems[0]) then 0
    else
      var n := FirstFailure(problems[1..]);
      assert forall k :: 1 <= k < |problems| ==> problems[k] == problems[1..][k - 1];
      1 + n
  }

  /** The files after the first `n` problems have been written; a later
      problem with the same id overwrites the file (`open(..., "w")`). */
  function Written(outdir: string, problems: seq<SolvedProblem>, n: nat,
                   reorder: (nat, seq<Sentence>) -> seq<Sentence>,
                   define: (nat, string) -> string): map<string, string>
    requires n <= |problems|
  {
    if n == 0 then map[]
    else
      var before := Written(outdir, problems, n - 1, reorder, define);
      match ProblemSummary(n - 1, problems[n - 1], reorder, define)
      case Success(text) => before[OutputPath(outdir, problems[n - 1].id) := text]
      case Failure(_) => before
  }

  /** The compressed branch's loop over `task.problems`. A problem whose
      decoding fails ends the whole run with exit status 1 (`sys.exit(1)`, or
      the uncaught KeyError, which Python also reports with status 1) before
      its file is opened; the files of the problems before it stay written.
      `status` is the outcome of this loop alone: 0 means every problem was
      written. The program's own exit status can still be 1 after that, when
      the score unpacking (`Scores.ParseRouge`) fails. */
  method RunCompressed(outdir: string, problems: seq<SolvedProblem>,
                       reorder: (nat, seq<Sentence>) -> seq<Sentence>,
                       define: (nat, string) -> string)
    returns (files: map<string, string>, status: nat)
    ensures status == if FirstFailure(problems) < |problems| then 1 else 0
    ensures files == Written(outdir, problems, FirstFailure(problems), reorder, define)
  {
    files := map[];
    var k := 0;
    while k < |problems|
      invariant k <= FirstFailure(problems)
      invariant files == Written(outdir, problems, k, reorder, define)
    {
      var summary := SummarizeProblem(k, problems[k], reorder, define);
      if summary.Failure? {
        assert FirstFailure(problems) == k;
        return files, 1;
      }
      assert Decodes(problems[k]);
      files := files[OutputPath(outdir, problems[k].id) := summary.value];
      k := k + 1;
    }
    assert FirstFailure(problems) == |problems|;
    return files, 0;
  }

  /** One pass of the loop body up to the text to write: decode, stop on an
      empty selection, reorder, join with newlines, add acronym definitions. */
  method SummarizeProblem(k: nat, p: SolvedProblem,
                          reorder: (nat, seq<Sentence>) -> seq<Sentence>,
                          define: (nat, string) -> string)
    returns (r: Result<string, DecodeError>)
    ensures r == ProblemSummary(k, p, reorder, define)
  {
    var selection := DecodeSelection(p.output, p.binary);
    if selection.Failure? {
      return Failure(selection.error);
    }
    var ordered := reorder(k, selection.value);
    var summary := JoinLines(Originals(ordered));
    summary := define(k, summary);
    return Success(summary);
  }

  /** The files written are exactly those of the problems processed. */
  lemma {:induction false} WrittenFiles(outdir: string, problems: seq<SolvedProblem>, n: nat,
                                        reorder: (nat, seq<Sentence>) -> seq<Sentence>,
                                        define: (nat, string) -> string)
    requires n <= |problems|
    requires forall k :: 0 <= k < n ==> Decodes(problems[k])
    ensures forall path :: path in Written(outdir, problems, n, reorder, define) <==>
      exists k :: 0 <= k < n && path == OutputPath(outdir, problems[k].id)
  {
    if n > 0 {
      WrittenFiles(outdir, problems, n - 1, reorder, define);
    }
  }

  /** Each file holds the summary of the last processed problem with its id. */
  lemma {:induction false} WrittenContents(outdir: string, problems: seq<SolvedProblem>, n: nat,
                                           reorder: (nat, seq<Sentence>) -> seq<Sentence>,
                                           define: (nat, string) -> string, k: nat)
    requires n <= |problems|
    requires forall j :: 0 <= j < n ==> Decodes(problems[j])
    requires k < n
    requires forall j :: k < j < n ==> problems[j].id != problems[k].id
    ensures OutputPath(outdir, problems[k].id) in Written(outdir, problems, n, reorder, define)
    ensures ProblemSummary(k, problems[k], reorder, define) ==
      Success(Written(outdir, problems, n, reorder, define)[OutputPath(outdir, problems[k].id)])
  {
    var last := problems[n - 1];
    var before := Written(outdir, problems, n - 1, reorder, define);
    assert Decodes(last);
    var text := ProblemSummary(n - 1, last, reorder, define).value;
    assert Written(outdir, problems, n, reorder, define) == before[OutputPath(outdir, last.id) := text];
    if k < n - 1 {
      WrittenContents(outdir, problems, n - 1, reorder, define, k);
      OutputPathInjective(outdir, last.id, problems[k].id);
    }
  }

  /** A problem whose solver output selects no sentence stops the run with
      status 1, and none of it or the problems after it gets a file of its
      own: a file under its id exists only if an earlier problem shares it. */
  lemma EmptySelectionAborts(outdir: string, problems: seq<SolvedProblem>, m: nat,
                             reorder: (nat, seq<Sentence>) -> seq<Sentence>,
                             define: (nat, string) -> string)
    requires m < |problems|
    requires forall j :: 0 <= j < m ==> Decodes(problems[j])
    requires forall i :: 0 <= i < |problems[m].output| ==> !Qualifies(problems[m].output[i])
    ensures FirstFailure(problems) == m
    ensures forall k :: m <= k < |problems| ==>
      (OutputPath(outdir, problems[k].id) in Written(outdir, problems, m, reorder, define) ==>
         exists j :: 0 <= j < m && problems[j].id == problems[k].id)
  {
    DecodeEmpty(problems[m].output, problems[m].binary);
    WrittenFiles(outdir, problems, m, reorder, define);
    forall k | m <= k < |problems| && OutputPath(outdir, problems[k].id) in Written(outdir, problems, m, reorder, define)
      ensures exists j :: 0 <= j < m && problems[j].id == problems[k].id
    {
      var j :| 0 <= j < m && OutputPath(outdir, problems[k].id) == OutputPath(outdir, problems[j].id);
      OutputPathInjective(outdir, problems[k].id, problems[j].id);
    }
  }

  /** A run that ends with status 0 wrote a file for every problem. */
  lemma CompletedRunWritesAll(outdir: string, problems: seq<SolvedProblem>,
                              reorder: (nat, seq<Sentence>) -> seq<Sentence>,
                              define: (nat, string) -> string)
    requires FirstFailure(problems) == |problems|
    ensures forall k :: 0 <= k < |problems| ==>
      OutputPath(outdir, problems[k].id) in Written(outdir, problems, |problems|, reorder, define)
  {
    WrittenFiles(outdir, problems, |problems|, reorder, define);
  }
}
