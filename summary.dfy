/** The text written for a problem: the selected sentences' original text,
    one per line (tac08/main.py, the `"\n".join(...)` of the compressed branch
    and the write loop of the uncompressed one). */
module Summary {

  /** A source sentence; only its original surface text is read here. */
  datatype Sentence = Sentence(original: string)

  function Originals(selection: seq<Sentence>): (texts: seq<string>)
    ensures |texts| == |selection|
    ensures forall k :: 0 <= k < |selection| ==> texts[k] == selection[k].original
  {
    seq(|selection|, k requires 0 <= k < |selection| => selection[k].original)
  }

  /** `"\n".join(lines)` */
  function JoinLines(lines: seq<string>): string
  {
    if |lines| == 0 then ""
    else if |lines| == 1 then lines[0]
    else lines[0] + "\n" + JoinLines(lines[1..])
  }

  /** `text.split("\n")`: the pieces between newlines, always at least one. */
  function SplitLines(text: string): (pieces: seq<string>)
    ensures |pieces| >= 1
  {
    if text == [] then [""]
    else
      var rest := SplitLines(text[1..]);
      if text[0] == '\n' then [""] + rest else [[text[0]] + rest[0]] + rest[1..]
  }

  predicate HasNoNewline(line: string)
  {
    '\n' !in line
  }

  lemma {:induction false} SplitSingleLine(line: string)
    requires HasNoNewline(line)
    ensures SplitLines(line) == [line]
  {
    if line != [] {
      SplitSingleLine(line[1..]);
      assert [line[0]] + line[1..] == line;
    }
  }

  lemma {:induction false} SplitAfterLine(line: string, text: string)
    requires HasNoNewline(line)
    ensures SplitLines(line + "\n" + text) == [line] + SplitLines(text)
  {
    if line == [] {
      assert line + "\n" + text == "\n" + text;
      assert ("\n" + text)[1..] == text;
    } else {
      var whole := line + "\n" + text;
      assert whole[0] == line[0];
      assert whole[1..] == line[1..] + "\n" + text;
      SplitAfterLine(line[1..], text);
      assert [line[0]] + line[1..] == line;
    }
  }

  /** Joining lines that hold no newline can be undone by splitting: the
      summary file shows each selected sentence on a line of its own. */
  lemma {:induction false} SplitJoin(lines: seq<string>)
    requires |lines| >= 1
    requires forall k :: 0 <= k < |lines| ==> HasNoNewline(lines[k])
    ensures SplitLines(JoinLines(lines)) == lines
  {
    if |lines| == 1 {
      SplitSingleLine(lines[0]);
    } else {
      SplitAfterLine(lines[0], JoinLines(lines[1..]));
      SplitJoin(lines[1..]);
      assert [lines[0]] + lines[1..] == lines;
    }
  }

  /** Splitting and re-joining gives back any text at all. */
  lemma {:induction false} JoinSplit(text: string)
    ensures JoinLines(SplitLines(text)) == text
  {
    if text != [] {
      var rest := SplitLines(text[1..]);
      JoinSplit(text[1..]);
      if text[0] == '\n' {
        assert ([""] + rest)[1..] == rest;
        assert text == "\n" + text[1..];
      } else {
        var pieces := [[text[0]] + rest[0]] + rest[1..];
        assert pieces[1..] == rest[1..];
        if |rest| == 1 {
          assert text == [text[0]] + rest[0];
        } else {
          assert JoinLines(rest) == rest[0] + "\n" + JoinLines(rest[1..]);
          assert text == [text[0]] + (rest[0] + "\n" + JoinLines(rest[1..]));
        }
      }
    }
  }

  /** The summary of the compressed branch, before acronym definitions are
      added: `"\n".join(sentence.original for sentence in selection)`. */
  function AssembleSummary(selection: seq<Sentence>): string
  {
    JoinLines(Originals(selection))
  }

  /** A selection of sentences without line breaks reads back, line by line,
      as the originals in selection order. */
  lemma AssembleSummaryLines(selection: seq<Sentence>)
    requires |selection| >= 1
    requires forall k :: 0 <= k < |selection| ==> HasNoNewline(selection[k].original)
    ensures SplitLines(AssembleSummary(selection)) == Originals(selection)
  {
    SplitJoin(Originals(selection));
  }

  /** Every line followed by its own newline. */
  function Terminated(lines: seq<string>): string
  {
    if lines == [] then "" else Terminated(lines[..|lines| - 1]) + lines[|lines| - 1] + "\n"
  }

  /** Writing each line followed by a newline gives the joined text plus one
      trailing newline, and nothing at all for no lines. */
  lemma {:induction false} TerminatedIsJoinPlusNewline(lines: seq<string>)
    ensures Terminated(lines) == if lines == [] then "" else JoinLines(lines) + "\n"
  {
    if |lines| >= 2 {
      var init := lines[..|lines| - 1];
      TerminatedIsJoinPlusNewline(init);
      JoinSnoc(init, lines[|lines| - 1]);
      assert init + [lines[|lines| - 1]] == lines;
    } else if |lines| == 1 {
      assert lines[..0] == [];
    }
  }

  lemma {:induction false} JoinSnoc(lines: seq<string>, last: string)
    requires |lines| >= 1
    ensures JoinLines(lines + [last]) == JoinLines(lines) + "\n" + last
  {
    if |lines| == 1 {
      assert lines + [last] == [lines[0], last];
      assert [lines[0], last][1..] == [last];
    } else {
      assert (lines + [last])[1..] == lines[1..] + [last];
      assert (lines + [last])[0] == lines[0];
      JoinSnoc(lines[1..], last);
    }
  }

  /** The uncompressed branch's write loop:
      `for sentence in selection: output_file.write(sentence.original + "\n")`.
      Returns the text that ends up in the file. */
  method WriteSentences(selection: seq<Sentence>) returns (written: string)
    ensures written == Terminated(Originals(selection))
  {
    written := "";
    var i := 0;
    while i < |selection|
      invariant 0 <= i <= |selection|
      invariant written == Terminated(Originals(selection[..i]))
    {
      assert Originals(selection[..i + 1])[..i] == Originals(selection[..i]);
      written := written + selection[i].original + "\n";
      i := i + 1;
    }
    assert selection[..i] == selection;
  }

  /** The uncompressed file is the assembled summary plus a trailing newline
      (and empty for an empty selection, which that branch does not reject). */
  lemma UncompressedIsSummaryPlusNewline(selection: seq<Sentence>)
    ensures Terminated(Originals(selection)) ==
      if selection == [] then "" else AssembleSummary(selection) + "\n"
  {
    TerminatedIsJoinPlusNewline(Originals(selection));
  }
}
