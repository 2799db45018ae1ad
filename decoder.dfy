/** Decoding the solver's assignment back into the selected sentences
    (tac08/main.py, the loop that builds `selection` after `program.run()`). */
module Decoder {
  import opened Wrappers
  import opened Chars

  /** `program.output` in its iteration order: variable name and solved value. */
  type Assignment = seq<(string, int)>

  /** A Python dictionary never holds the same key twice. */
  predicate DistinctNames(output: Assignment)
  {
    forall i, j :: 0 <= i < j < |output| ==> output[i].0 != output[j].0
  }

  /** Python's `$` matches at the very end or just before one final newline,
      so the text that must match `s\d+` is the name without that newline. */
  function MatchedPart(v: string): (body: string)
    ensures body == v || body + "\n" == v
  {
    if |v| > 0 && v[|v| - 1] == '\n' then v[..|v| - 1] else v
  }

  /** `re.match(r'^s\d+$', v)` */
  predicate IsSentenceVariable(v: string)
  {
    var body := MatchedPart(v);
    |body| >= 2 && body[0] == 's' && AllDigits(body[1..])
  }

  /** The test of the loop's `if`: a sentence variable whose value is exactly 1. */
  predicate Qualifies(p: (string, int))
  {
    IsSentenceVariable(p.0) && p.1 == 1
  }

  /** The names of the qualifying variables, in iteration order. */
  function QualifyingNames(output: Assignment): (names: seq<string>)
    ensures |names| <= |output|
  {
    if output == [] then []
    else
      var rest := QualifyingNames(output[1..]);
      if Qualifies(output[0]) then [output[0].0] + rest else rest
  }

  /** A name is kept exactly when some variable of that name qualifies. */
  lemma {:induction false} QualifyingNamesMembers(output: Assignment, v: string)
    ensures v in QualifyingNames(output) <==>
      exists i :: 0 <= i < |output| && output[i].0 == v && Qualifies(output[i])
  {
    if output != [] {
      QualifyingNamesMembers(output[1..], v);
      assert forall i :: 1 <= i < |output| ==> output[i] == output[1..][i - 1];
      if exists i :: 0 <= i < |output| && output[i].0 == v && Qualifies(output[i]) {
        var i :| 0 <= i < |output| && output[i].0 == v && Qualifies(output[i]);
        if i > 0 {
          assert output[1..][i - 1].0 == v && Qualifies(output[1..][i - 1]);
        }
      }
    }
  }

  /** Filtering distributes over concatenation. */
  lemma {:induction false} QualifyingNamesAppend(a: Assignment, b: Assignment)
    ensures QualifyingNames(a + b) == QualifyingNames(a) + QualifyingNames(b)
  {
    if a == [] {
      assert a + b == b;
    } else {
      assert (a + b)[0] == a[0];
      assert (a + b)[1..] == a[1..] + b;
      QualifyingNamesAppend(a[1..], b);
    }
  }

  lemma QualifyingNamesSnoc(a: Assignment, p: (string, int))
    ensures QualifyingNames(a + [p]) == QualifyingNames(a) + (if Qualifies(p) then [p.0] else [])
  {
    QualifyingNamesAppend(a, [p]);
    assert [p][1..] == [];
  }

  /** The first name that `program.binary[variable]` would fail on (KeyError). */
  function FirstUnknown<S>(names: seq<string>, binary: map<string, S>): (r: Option<string>)
    ensures r.None? <==> forall k :: 0 <= k < |names| ==> names[k] in binary
    ensures r.Some? ==> r.value in names && r.value !in binary
  {
    if names == [] then None
    else if names[0] !in binary then Some(names[0])
    else
      var r := FirstUnknown(names[1..], binary);
      assert forall k :: 1 <= k < |names| ==> names[k] == names[1..][k - 1];
      r
  }

  lemma {:induction false} FirstUnknownAppend<S>(a: seq<string>, b: seq<string>, binary: map<string, S>)
    ensures FirstUnknown(a + b, binary) ==
      if FirstUnknown(a, binary).None? then FirstUnknown(b, binary) else FirstUnknown(a, binary)
  {
    if a == [] {
      assert a + b == b;
    } else {
      assert (a + b)[0] == a[0];
      assert (a + b)[1..] == a[1..] + b;
      FirstUnknownAppend(a[1..], b, binary);
    }
  }

  /** Each name replaced by its entry in the table. */
  function Lookup<S>(names: seq<string>, binary: map<string, S>): (sel: seq<S>)
    requires forall k :: 0 <= k < |names| ==> names[k] in binary
    ensures |sel| == |names|
    ensures forall k :: 0 <= k < |names| ==> sel[k] == binary[names[k]]
  {
    seq(|names|, k requires 0 <= k < |names| => binary[names[k]])
  }

  /** Why decoding a problem stops the run. */
  datatype DecodeError =
    | UnknownVariable(name: string)  // KeyError from `program.binary[variable]`
    | EmptySummary                   // "ERROR: empty summary, check the output of the solver"

  /** What the decoding loop and the emptiness check that follows it produce. */
  function Decode<S>(output: Assignment, binary: map<string, S>): Result<seq<S>, DecodeError>
  {
    var names := QualifyingNames(output);
    match FirstUnknown(names, binary)
    case Some(v) => Failure(UnknownVariable(v))
    case None => if names == [] then Failure(EmptySummary) else Success(Lookup(names, binary))
  }

  /** The loop of the driver: walk `program.output`, append the table entry of
      every qualifying variable, then give up on an empty selection. */
  method DecodeSelection<S>(output: Assignment, binary: map<string, S>)
    returns (r: Result<seq<S>, DecodeError>)
    ensures r == Decode(output, binary)
  {
    var selection: seq<S> := [];
    var i := 0;
    while i < |output|
      invariant 0 <= i <= |output|
      invariant FirstUnknown(QualifyingNames(output[..i]), binary).None?
      invariant selection == Lookup(QualifyingNames(output[..i]), binary)
    {
      var (variable, value) := output[i];
      assert output[..i + 1] == output[..i] + [output[i]];
      QualifyingNamesSnoc(output[..i], output[i]);
      if IsSentenceVariable(variable) && value == 1 {
        if variable !in binary {
          QualifyingNamesAppend(output[..i + 1], output[i + 1..]);
          assert output[..i + 1] + output[i + 1..] == output;
          FirstUnknownAppend(QualifyingNames(output[..i]), [variable], binary);
          FirstUnknownAppend(QualifyingNames(output[..i + 1]), QualifyingNames(output[i + 1..]), binary);
          return Failure(UnknownVariable(variable));
        }
        FirstUnknownAppend(QualifyingNames(output[..i]), [variable], binary);
        selection := selection + [binary[variable]];
      }
      i := i + 1;
    }
    assert output[..i] == output;
    if |selection| == 0 {
      return Failure(EmptySummary);
    }
    return Success(selection);
  }

  /** Decoding is exact: a sentence is selected if and only if it is the table
      entry of a qualifying variable, and the k-th entry belongs to the k-th
      qualifying variable. */
  lemma DecodeExact<S>(output: Assignment, binary: map<string, S>, x: S)
    requires Decode(output, binary).Success?
    ensures var sel := Decode(output, binary).value;
      && |sel| == |QualifyingNames(output)|
      && (forall k :: 0 <= k < |sel| ==> sel[k] == binary[QualifyingNames(output)[k]])
      && (x in sel <==> exists i :: 0 <= i < |output| && Qualifies(output[i]) && output[i].0 in binary
                                   && binary[output[i].0] == x)
  {
    var names := QualifyingNames(output);
    var sel := Decode(output, binary).value;
    if x in sel {
      var k :| 0 <= k < |sel| && sel[k] == x;
      assert names[k] in names;
      QualifyingNamesMembers(output, names[k]);
    }
    if exists i :: 0 <= i < |output| && Qualifies(output[i]) && output[i].0 in binary && binary[output[i].0] == x {
      var i :| 0 <= i < |output| && Qualifies(output[i]) && output[i].0 in binary && binary[output[i].0] == x;
      QualifyingNamesMembers(output, output[i].0);
      assert output[i].0 in names;
      var k :| 0 <= k < |names| && names[k] == output[i].0;
      assert sel[k] == x;
    }
  }

  /** The run aborts with an empty selection exactly when no variable
      qualifies, and a successful decoding is never empty. */
  lemma DecodeEmpty<S>(output: Assignment, binary: map<string, S>)
    ensures Decode(output, binary) == Failure(EmptySummary) <==>
      forall i :: 0 <= i < |output| ==> !Qualifies(output[i])
    ensures Decode(output, binary).Success? ==> |Decode(output, binary).value| > 0
  {
    var names := QualifyingNames(output);
    if names != [] {
      assert names[0] in names;
      QualifyingNamesMembers(output, names[0]);
      assert Decode(output, binary) != Failure(EmptySummary);
    } else {
      forall i | 0 <= i < |output|
        ensures !Qualifies(output[i])
      {
        QualifyingNamesMembers(output, output[i].0);
      }
    }
  }

  /** A KeyError is raised exactly when some qualifying variable has no table
      entry. */
  lemma DecodeUnknown<S>(output: Assignment, binary: map<string, S>)
    ensures Decode(output, binary).Failure? && Decode(output, binary).error.UnknownVariable? <==>
      exists i :: 0 <= i < |output| && Qualifies(output[i]) && output[i].0 !in binary
  {
    if exists i :: 0 <= i < |output| && Qualifies(output[i]) && output[i].0 !in binary {
      var i :| 0 <= i < |output| && Qualifies(output[i]) && output[i].0 !in binary;
      QualifyingNamesMembers(output, output[i].0);
    }
    var r := FirstUnknown(QualifyingNames(output), binary);
    if r.Some? {
      QualifyingNamesMembers(output, r.value);
    }
  }

  /** The KeyError names the first qualifying variable in iteration order
      that has no table entry: every qualifying variable before it was found. */
  lemma {:induction false} DecodeUnknownIsFirst<S>(output: Assignment, binary: map<string, S>)
    requires Decode(output, binary).Failure? && Decode(output, binary).error.UnknownVariable?
    ensures var v := Decode(output, binary).error.name;
      exists i :: 0 <= i < |output| && Qualifies(output[i]) && output[i].0 == v && v !in binary
               && forall j :: 0 <= j < i && Qualifies(output[j]) ==> output[j].0 in binary
  {
    FirstUnknownPosition(output, binary);
  }

  lemma {:induction false} FirstUnknownPosition<S>(output: Assignment, binary: map<string, S>)
    requires FirstUnknown(QualifyingNames(output), binary).Some?
    ensures var v := FirstUnknown(QualifyingNames(output), binary).value;
      exists i :: 0 <= i < |output| && Qualifies(output[i]) && output[i].0 == v && v !in binary
               && forall j :: 0 <= j < i && Qualifies(output[j]) ==> output[j].0 in binary
  {
    var v := FirstUnknown(QualifyingNames(output), binary).value;
    var rest := QualifyingNames(output[1..]);
    if Qualifies(output[0]) && output[0].0 !in binary {
      assert QualifyingNames(output)[0] == output[0].0;
    } else {
      if Qualifies(output[0]) {
        assert QualifyingNames(output) == [output[0].0] + rest;
        assert QualifyingNames(output)[1..] == rest;
      }
      assert FirstUnknown(rest, binary) == Some(v);
      FirstUnknownPosition(output[1..], binary);
      var i' :| 0 <= i' < |output[1..]| && Qualifies(output[1..][i']) && output[1..][i'].0 == v && v !in binary
               && forall j :: 0 <= j < i' && Qualifies(output[1..][j]) ==> output[1..][j].0 in binary;
      var i := i' + 1;
      forall j | 0 <= j < i && Qualifies(output[j])
        ensures output[j].0 in binary
      {
        if j > 0 {
          assert output[j] == output[1..][j - 1];
        }
      }
      assert output[i] == output[1..][i'];
    }
  }

  /** The pattern accepts exactly `s` followed by one or more ASCII digits,
      optionally followed by one newline (Python's `$`). */
  lemma SentenceVariableShape(v: string)
    ensures IsSentenceVariable(v) <==>
      exists d :: |d| >= 1 && AllDigits(d) && (v == "s" + d || v == "s" + d + "\n")
  {
    if IsSentenceVariable(v) {
      var d := MatchedPart(v)[1..];
      assert MatchedPart(v) == "s" + d;
    }
    if exists d :: |d| >= 1 && AllDigits(d) && (v == "s" + d || v == "s" + d + "\n") {
      var d :| |d| >= 1 && AllDigits(d) && (v == "s" + d || v == "s" + d + "\n");
      if v == "s" + d {
        assert v[|v| - 1] == d[|d| - 1];
        assert MatchedPart(v) == v;
        assert v[1..] == d;
      } else {
        assert MatchedPart(v) == "s" + d;
        assert ("s" + d)[1..] == d;
      }
    }
  }

  /** Names the pattern turns away, whatever their value: another prefix, no
      digits, a non-digit after the digits, text before the `s`, two final
      newlines; leading zeros are accepted. */
  lemma SentenceVariableExamples()
    ensures !IsSentenceVariable("c3") && !IsSentenceVariable("s") && !IsSentenceVariable("s1a")
    ensures !IsSentenceVariable("xs1") && !IsSentenceVariable("s1\n\n") && !IsSentenceVariable("")
    ensures IsSentenceVariable("s007") && IsSentenceVariable("s12\n")
  {
    assert "s1a"[1..][1] == 'a';
    assert MatchedPart("s1\n\n") == "s1\n";
    assert "s1\n"[1..][1] == '\n';
    assert MatchedPart("s12\n") == "s12";
    assert "s12"[1..] == "12";
    assert "s007"[1..] == "007";
  }

  /** A variable that fails the test leaves the decoding unchanged wherever it
      stands and whatever its value. */
  lemma DecodeIgnoresNonQualifying<S>(a: Assignment, p: (string, int), b: Assignment, binary: map<string, S>)
    requires !Qualifies(p)
    ensures Decode(a + [p] + b, binary) == Decode(a + b, binary)
  {
    QualifyingNamesAppend(a + [p], b);
    QualifyingNamesSnoc(a, p);
    QualifyingNamesAppend(a, b);
    assert QualifyingNames(a + [p]) == QualifyingNames(a);
  }

  /** Table entries of variables that do not qualify are never consulted. */
  lemma DecodeIgnoresOtherEntries<S>(output: Assignment, binary: map<string, S>, v: string, x: S)
    requires forall i :: 0 <= i < |output| && Qualifies(output[i]) ==> output[i].0 != v
    ensures Decode(output, binary[v := x]) == Decode(output, binary)
    ensures Decode(output, binary - {v}) == Decode(output, binary)
  {
    var names := QualifyingNames(output);
    QualifyingNamesMembers(output, v);
    assert v !in names;
    FirstUnknownAgree(names, binary, binary[v := x]);
    FirstUnknownAgree(names, binary, binary - {v});
    if FirstUnknown(names, binary).None? {
      assert Lookup(names, binary[v := x]) == Lookup(names, binary);
      assert Lookup(names, binary - {v}) == Lookup(names, binary);
    }
  }

  lemma {:induction false} FirstUnknownAgree<S>(names: seq<string>, b1: map<string, S>, b2: map<string, S>)
    requires forall k :: 0 <= k < |names| ==> (names[k] in b1 <==> names[k] in b2)
    ensures FirstUnknown(names, b1) == FirstUnknown(names, b2)
  {
    if names != [] {
      FirstUnknownAgree(names[1..], b1, b2);
    }
  }

  /** Selection order follows the iteration order of `program.output`: of two
      qualifying variables, the earlier one's sentence comes first. */
  lemma DecodeKeepsOrder<S>(output: Assignment, binary: map<string, S>, i: nat, j: nat)
    requires Decode(output, binary).Success?
    requires i < j < |output| && Qualifies(output[i]) && Qualifies(output[j])
    ensures output[i].0 in binary && output[j].0 in binary
    ensures var sel := Decode(output, binary).value;
      exists p, q :: 0 <= p < q < |sel| && sel[p] == binary[output[i].0] && sel[q] == binary[output[j].0]
  {
    var names := QualifyingNames(output);
    var sel := Decode(output, binary).value;
    var front := QualifyingNames(output[..j]);
    QualifyingNamesAround(output, j);
    assert names == front + [output[j].0] + QualifyingNames(output[j + 1..]);
    assert output[..j][i] == output[i];
    QualifyingNamesMembers(output[..j], output[i].0);
    var p :| 0 <= p < |front| && front[p] == output[i].0;
    var q := |front|;
    assert names[p] == output[i].0 && names[q] == output[j].0;
    assert sel[p] == binary[names[p]] && sel[q] == binary[names[q]];
  }

  /** The kept names are those before position `j`, then the name at `j` if
      it qualifies, then those after it. */
  lemma {:induction false} QualifyingNamesAround(output: Assignment, j: nat)
    requires j < |output|
    ensures QualifyingNames(output) ==
      QualifyingNames(output[..j]) + (if Qualifies(output[j]) then [output[j].0] else [])
                                   + QualifyingNames(output[j + 1..])
  {
    var upto := output[..j + 1];
    var after := output[j + 1..];
    assert upto + after == output;
    assert output[..j] + [output[j]] == upto;
    QualifyingNamesAppend(upto, after);
    QualifyingNamesSnoc(output[..j], output[j]);
  }

  predicate NoDuplicates(s: seq<string>)
  {
    forall p, q :: 0 <= p < q < |s| ==> s[p] != s[q]
  }

  /** Over a dictionary each qualifying variable contributes exactly one entry:
      the qualifying names are pairwise distinct. */
  lemma {:induction false} QualifyingNamesDistinct(output: Assignment)
    requires DistinctNames(output)
    ensures NoDuplicates(QualifyingNames(output))
  {
    if output != [] {
      var rest := QualifyingNames(output[1..]);
      assert DistinctNames(output[1..]) by {
        forall i, j | 0 <= i < j < |output[1..]|
          ensures output[1..][i].0 != output[1..][j].0
        {
          assert output[1..][i] == output[i + 1] && output[1..][j] == output[j + 1];
        }
      }
      QualifyingNamesDistinct(output[1..]);
      assert NoDuplicates(rest);
      if Qualifies(output[0]) {
        assert output[0].0 !in rest by {
          forall i | 0 <= i < |output[1..]|
            ensures output[1..][i].0 != output[0].0
          {
            assert output[1..][i] == output[i + 1];
          }
          QualifyingNamesMembers(output[1..], output[0].0);
        }
        var names := [output[0].0] + rest;
        assert names == QualifyingNames(output);
        assert NoDuplicates(names) by {
        forall p, q | 0 <= p < q < |names|
          ensures names[p] != names[q]
        {
          if p == 0 {
            assert names[q] == rest[q - 1];
            assert rest[q - 1] in rest;
          } else {
            assert names[p] == rest[p - 1] && names[q] == rest[q - 1];
          }
        }
        }
      } else {
        assert QualifyingNames(output) == rest;
      }
    }
  }

  /** The names of the variables that qualify, as a set. */
  function QualifyingSet(output: Assignment): set<string>
  {
    set i | 0 <= i < |output| && Qualifies(output[i]) :: output[i].0
  }

  lemma {:induction false} NoDuplicatesCard(s: seq<string>)
    requires NoDuplicates(s)
    ensures |set k | 0 <= k < |s| :: s[k]| == |s|
  {
    if s != [] {
      var last := s[|s| - 1];
      var init := s[..|s| - 1];
      assert NoDuplicates(init) by {
        forall p, q | 0 <= p < q < |init|
          ensures init[p] != init[q]
        {
          assert init[p] == s[p] && init[q] == s[q];
        }
      }
      NoDuplicatesCard(init);
      var front := set k | 0 <= k < |init| :: init[k];
      assert last !in front by {
        forall k | 0 <= k < |init|
          ensures init[k] != last
        {
          assert init[k] == s[k];
        }
      }
      assert (set k | 0 <= k < |s| :: s[k]) == front + {last} by {
        forall k | 0 <= k < |s|
          ensures s[k] in front + {last}
        {
          if k < |s| - 1 {
            assert s[k] == init[k];
          }
        }
        forall k | 0 <= k < |init|
          ensures init[k] in (set k | 0 <= k < |s| :: s[k])
        {
          assert init[k] == s[k];
        }
      }
    }
  }

  /** Over a dictionary, a successful decoding holds one sentence per
      distinct qualifying variable. */
  lemma DecodeCountsVariables<S>(output: Assignment, binary: map<string, S>)
    requires DistinctNames(output)
    requires Decode(output, binary).Success?
    ensures |Decode(output, binary).value| == |QualifyingSet(output)|
  {
    var names := QualifyingNames(output);
    QualifyingNamesDistinct(output);
    NoDuplicatesCard(names);
    assert (set k | 0 <= k < |names| :: names[k]) == QualifyingSet(output) by {
      forall v | v in QualifyingSet(output)
        ensures v in names
      {
        QualifyingNamesMembers(output, v);
      }
      forall k | 0 <= k < |names|
        ensures names[k] in QualifyingSet(output)
      {
        assert names[k] in names;
        QualifyingNamesMembers(output, names[k]);
      }
    }
  }
}
