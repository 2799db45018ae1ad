/** Reading the three ROUGE scores out of the scorer's report:
    `[rouge_1, rouge_2, rouge_su4] = re.findall(': (\d\.\d+)', eval)`. */
module Scores {
  import opened Wrappers
  import opened Chars

  /** What the capture group accepts: one digit, a point, one or more digits. */
  predicate IsScore(t: string)
  {
    |t| >= 3 && IsDigit(t[0]) && t[1] == '.' && AllDigits(t[2..])
  }

  /** Length of the run of digits at the front of `t` (greedy `\d+`). */
  function DigitRun(t: string): (n: nat)
    ensures n <= |t|
    ensures AllDigits(t[..n])
    ensures n == |t| || !IsDigit(t[n])
  {
    if t != [] && IsDigit(t[0]) then
      var n := 1 + DigitRun(t[1..]);
      assert forall i :: 1 <= i < n ==> t[..n][i] == t[1..][..n - 1][i - 1];
      n
    else 0
  }

  /** The end of a match of `: (\d\.\d+)` that starts at the front of `s`, if any. */
  function MatchEnd(s: string): (r: Option<nat>)
    ensures r.Some? ==> 5 <= r.value <= |s| && s[..2] == ": " && IsScore(s[2..r.value])
    ensures r.Some? ==> r.value == |s| || !IsDigit(s[r.value])
    ensures r.Some? <==> exists n :: 5 <= n <= |s| && s[..2] == ": " && IsScore(s[2..n])
  {
    if |s| >= 5 && s[0] == ':' && s[1] == ' ' && IsDigit(s[2]) && s[3] == '.' && IsDigit(s[4]) then
      var n := 4 + DigitRun(s[4..]);
      assert forall i :: 2 <= i < n - 2 ==> s[2..n][i] == s[4..][..n - 4][i - 2];
      Some(n)
    else None
  }

  /** `re.findall`: scan left to right, take each match's group and resume
      after the match; where nothing matches, move on by one character. */
  function FindScores(s: string): (found: seq<string>)
    ensures forall k :: 0 <= k < |found| ==> IsScore(found[k])
    decreases |s|
  {
    if s == [] then []
    else
      match MatchEnd(s)
      case Some(n) => [s[2..n]] + FindScores(s[n..])
      case None => FindScores(s[1..])
  }

  /** `t` stands in `s` at position `i`. */
  predicate OccursAt(t: string, s: string, i: nat)
  {
    i + |t| <= |s| && s[i..i + |t|] == t
  }

  /** An occurrence in a suffix is an occurrence in the whole text. */
  lemma OccursInSuffix(w: string, s: string, d: nat, j: nat)
    requires d <= |s| && OccursAt(w, s[d..], j)
    ensures OccursAt(w, s, d + j)
  {
    assert s[d + j..d + j + |w|] == s[d..][j..j + |w|];
  }

  /** Each score scraped stands in the report right after a `": "`. */
  lemma {:induction false} FindScoresOccur(s: string, k: nat)
    requires k < |FindScores(s)|
    ensures exists i: nat :: OccursAt(": " + FindScores(s)[k], s, i)
    decreases |s|
  {
    var w := ": " + FindScores(s)[k];
    match MatchEnd(s)
    case Some(n) =>
      if k == 0 {
        assert w == ": " + s[2..n];
        assert s[0..n] == w;
        assert OccursAt(w, s, 0);
      } else {
        var t := s[n..];
        assert FindScores(s)[k] == FindScores(t)[k - 1];
        FindScoresOccur(t, k - 1);
        var j: nat :| OccursAt(w, t, j);
        OccursInSuffix(w, s, n, j);
      }
    case None =>
      var t := s[1..];
      assert FindScores(s)[k] == FindScores(t)[k];
      FindScoresOccur(t, k);
      var j: nat :| OccursAt(w, t, j);
      OccursInSuffix(w, s, 1, j);
  }

  /** Text without a colon holds no match and is skipped over. */
  lemma {:induction false} FindScoresSkips(a: string, t: string)
    requires ':' !in a
    ensures FindScores(a + t) == FindScores(t)
  {
    if a != [] {
      assert (a + t)[0] == a[0];
      assert (a + t)[1..] == a[1..] + t;
      FindScoresSkips(a[1..], t);
    } else {
      assert a + t == t;
    }
  }

  /** A labelled score followed by anything but a digit yields exactly that
      score, and the scan resumes right after it. */
  lemma FindScoresTakesAny(score: string, t: string)
    requires IsScore(score) && (t == [] || !IsDigit(t[0]))
    ensures FindScores(": " + score + t) == [score] + FindScores(t)
  {
    var s := ": " + score + t;
    var n := 2 + |score|;
    assert s[4..][..|score| - 2] == score[2..];
    assert t != [] ==> s[4..][|score| - 2] == t[0];
    assert DigitRun(s[4..]) == |score| - 2 by {
      DigitRunOf(s[4..], |score| - 2);
    }
    assert MatchEnd(s) == Some(n);
    assert s[2..n] == score;
    assert s[n..] == t;
  }

  /** A labelled score followed by a newline yields exactly that score. */
  lemma FindScoresTakes(score: string, t: string)
    requires IsScore(score)
    ensures FindScores(": " + score + "\n" + t) == [score] + FindScores(t)
  {
    assert ": " + score + "\n" + t == ": " + score + ("\n" + t);
    FindScoresTakesAny(score, "\n" + t);
    FindScoresSkips("\n", t);
  }

  lemma DigitRunOf(t: string, n: nat)
    requires n <= |t| && AllDigits(t[..n]) && (n == |t| || !IsDigit(t[n]))
    ensures DigitRun(t) == n
  {
    var m := DigitRun(t);
    forall i | 0 <= i < n
      ensures IsDigit(t[i])
    {
      assert t[..n][i] == t[i];
    }
    forall i | 0 <= i < m
      ensures IsDigit(t[i])
    {
      assert t[..m][i] == t[i];
    }
  }

  /** Positions where no match starts are passed over one character at a time. */
  lemma {:induction false} FindScoresScan(s: string, i: nat)
    requires i <= |s|
    requires forall j :: 0 <= j < i ==> MatchEnd(s[j..]).None?
    ensures FindScores(s) == FindScores(s[i..])
  {
    if i > 0 {
      assert s[0..] == s;
      assert MatchEnd(s).None?;
      var t := s[1..];
      forall j | 0 <= j < i - 1
        ensures MatchEnd(t[j..]).None?
      {
        assert t[j..] == s[j + 1..];
      }
      FindScoresScan(t, i - 1);
      assert t[i - 1..] == s[i..];
    }
  }

  /** `findall` captures the leftmost match: the first position where the
      pattern matches gives the first capture, and the scan goes on after that
      match. */
  lemma FindScoresFirst(s: string, i: nat)
    requires i <= |s| && MatchEnd(s[i..]).Some?
    requires forall j :: 0 <= j < i ==> MatchEnd(s[j..]).None?
    ensures var u := s[i..]; var n := MatchEnd(u).value;
      FindScores(s) == [u[2..n]] + FindScores(u[n..])
  {
    FindScoresScan(s, i);
  }

  /** A report line `label: score tail` (then a newline) whose label and tail
      hold no colon and whose tail does not go on with a digit contributes
      exactly its score. ROUGE's lines `1 ROUGE-1 Average_R: 0.38090 (95%-conf.int. ...)`
      have this form. */
  lemma FindScoresLine(tag: string, score: string, tail: string, rest: string)
    requires ':' !in tag && IsScore(score)
    requires ':' !in tail && (tail == [] || !IsDigit(tail[0]))
    ensures FindScores(tag + ": " + score + tail + "\n" + rest) == [score] + FindScores(rest)
  {
    var after := tail + "\n" + rest;
    assert tag + ": " + score + tail + "\n" + rest == tag + (": " + score + after);
    FindScoresSkips(tag, ": " + score + after);
    assert after[0] == if tail == [] then '\n' else tail[0];
    FindScoresTakesAny(score, after);
    assert after == (tail + "\n") + rest;
    FindScoresSkips(tail + "\n", rest);
  }

  /** On a ROUGE summary line only the score after the colon is captured;
      the interval bounds have no `": "` before them. */
  lemma RougeLineExample(rest: string)
    ensures FindScores("1 ROUGE-1 Average_R" + ": " + "0.38090"
                       + " (95%-conf.int. 0.36908 - 0.39311)" + "\n" + rest)
      == ["0.38090"] + FindScores(rest)
  {
    assert AllDigits("0.38090"[2..]);
    FindScoresLine("1 ROUGE-1 Average_R", "0.38090", " (95%-conf.int. 0.36908 - 0.39311)", rest);
  }

  /** What the report builder below accepts for one line. */
  predicate ReportLine(e: (string, string, string))
  {
    ':' !in e.0 && IsScore(e.1) && ':' !in e.2 && (e.2 == [] || !IsDigit(e.2[0]))
  }

  /** A report made of lines `label: score tail`, each ended by a newline. */
  function Report(entries: seq<(string, string, string)>): string
  {
    if entries == [] then ""
    else entries[0].0 + ": " + entries[0].1 + entries[0].2 + "\n" + Report(entries[1..])
  }

  function ScoresOf(entries: seq<(string, string, string)>): (scores: seq<string>)
    ensures |scores| == |entries|
    ensures forall k :: 0 <= k < |entries| ==> scores[k] == entries[k].1
  {
    seq(|entries|, k requires 0 <= k < |entries| => entries[k].1)
  }

  /** Scraping a report gives back exactly the scores it was written with, in order. */
  lemma {:induction false} FindScoresReport(entries: seq<(string, string, string)>)
    requires forall k :: 0 <= k < |entries| ==> ReportLine(entries[k])
    ensures FindScores(Report(entries)) == ScoresOf(entries)
  {
    if entries != [] {
      var e := entries[0];
      assert ReportLine(e);
      FindScoresLine(e.0, e.1, e.2, Report(entries[1..]));
      FindScoresReport(entries[1..]);
      assert ScoresOf(entries) == [e.1] + ScoresOf(entries[1..]);
    }
  }

  /** The three scores the driver unpacks. */
  datatype Rouge = Rouge(rouge1: string, rouge2: string, rougeSu4: string)

  /** The unpacking raises ValueError unless there are exactly three matches. */
  datatype ScoreError = WrongNumberOfScores(found: nat)

  function ParseRouge(report: string): (r: Result<Rouge, ScoreError>)
    ensures r.Success? <==> |FindScores(report)| == 3
    ensures r.Success? ==> [r.value.rouge1, r.value.rouge2, r.value.rougeSu4] == FindScores(report)
    ensures r.Success? ==> IsScore(r.value.rouge1) && IsScore(r.value.rouge2) && IsScore(r.value.rougeSu4)
    ensures r.Failure? ==> r.error.found == |FindScores(report)|
  {
    var found := FindScores(report);
    if |found| == 3 then Success(Rouge(found[0], found[1], found[2]))
    else Failure(WrongNumberOfScores(|found|))
  }

  /** A three-line report `label: score tail` unpacks into its three scores. */
  lemma ParseRougeReport(entries: seq<(string, string, string)>)
    requires |entries| == 3
    requires forall k :: 0 <= k < 3 ==> ReportLine(entries[k])
    ensures ParseRouge(Report(entries)) == Success(Rouge(entries[0].1, entries[1].1, entries[2].1))
  {
    FindScoresReport(entries);
  }
}
