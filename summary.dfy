/**
 * The text `generate_summary_with_ollama` puts into the prompt: the caption
 * lines, each stripped, blank ones dropped, joined by newlines.
 */
module Summary {
  import opened Options
  import opened Text

  const NothingToSummarise: string := "요약할 텍스트가 없습니다"

  /** The stripped lines that are not blank, in their original order. */
  function StrippedLines(lines: seq<string>): seq<string> {
    if lines == [] then []
    else
      var rest := StrippedLines(lines[..|lines| - 1]);
      var last := Strip(lines[|lines| - 1]);
      if last != "" then rest + [last] else rest
  }

  /** The positions of the lines that are not blank, in increasing order. */
  function NonBlankIndices(lines: seq<string>): seq<nat> {
    if lines == [] then []
    else NonBlankIndices(lines[..|lines| - 1]) + if !Blank(lines[|lines| - 1]) then [|lines| - 1] else []
  }

  /** The positions listed are in range, increase, and are exactly those of the non-blank lines. */
  lemma {:induction false} NonBlankIndicesSpec(lines: seq<string>)
    ensures var idx := NonBlankIndices(lines);
      && (forall k :: 0 <= k < |idx| ==> idx[k] < |lines|)
      && (forall k, l :: 0 <= k < l < |idx| ==> idx[k] < idx[l])
      && (forall i :: 0 <= i < |lines| ==> (i in idx <==> !Blank(lines[i])))
  {
    if lines != [] {
      var n := |lines|;
      var init := lines[..n - 1];
      NonBlankIndicesSpec(init);
      var idx, idxI := NonBlankIndices(lines), NonBlankIndices(init);
      assert idx == idxI + if !Blank(lines[n - 1]) then [n - 1] else [];
      forall i | 0 <= i < n ensures i in idx <==> !Blank(lines[i]) {
        if i < n - 1 {
          assert init[i] == lines[i];
        }
      }
    }
  }

  /**
   * The kept lines are the stripped non-blank lines in their original order:
   * the k-th kept line is the k-th non-blank line, stripped.
   */
  lemma {:induction false} StrippedLinesSpec(lines: seq<string>)
    ensures var r, idx := StrippedLines(lines), NonBlankIndices(lines);
      && |idx| == |r|
      && (forall k :: 0 <= k < |idx| ==> idx[k] < |lines| && r[k] == Strip(lines[idx[k]]))
  {
    if lines != [] {
      var n := |lines|;
      var init := lines[..n - 1];
      StrippedLinesSpec(init);
      StripEmptyIffBlank(lines[n - 1]);
      var r, rI := StrippedLines(lines), StrippedLines(init);
      var idx, idxI := NonBlankIndices(lines), NonBlankIndices(init);
      assert idx == idxI + if !Blank(lines[n - 1]) then [n - 1] else [];
      assert r == rI + if !Blank(lines[n - 1]) then [Strip(lines[n - 1])] else [];
      forall k | 0 <= k < |idx|
        ensures idx[k] < n && r[k] == Strip(lines[idx[k]])
      {
        if k < |idxI| {
          assert idx[k] == idxI[k] && r[k] == rI[k];
          assert init[idxI[k]] == lines[idxI[k]];
        }
      }
    }
  }

  /**
   * The prompt text, or the `ValueError` raised when nothing is left once
   * blank lines are dropped.
   */
  function SummaryText(lines: seq<string>): (r: Result<string, string>)
    ensures r.Ok? ==> r.value != ""
    ensures r.Err? ==> r.error == NothingToSummarise
  {
    var text := Join("\n", StrippedLines(lines));
    if text == "" then Err(NothingToSummarise) else Ok(text)
  }

  /**
   * The kept lines are non-empty and neither start nor end with whitespace,
   * and there are no more of them than input lines.
   */
  lemma {:induction false} StrippedLinesShape(lines: seq<string>)
    ensures var r := StrippedLines(lines);
      && |r| <= |lines|
      && forall k :: 0 <= k < |r| ==> r[k] != "" && !IsSpace(r[k][0]) && !IsSpace(r[k][|r[k]| - 1])
  {
    if lines != [] {
      StrippedLinesShape(lines[..|lines| - 1]);
      StripIsInfix(lines[|lines| - 1]);
    }
  }

  /** No line is kept exactly when every input line is blank. */
  lemma {:induction false} StrippedLinesEmptyIff(lines: seq<string>)
    ensures StrippedLines(lines) == [] <==> forall i :: 0 <= i < |lines| ==> Blank(lines[i])
  {
    if lines != [] {
      var init := lines[..|lines| - 1];
      StrippedLinesEmptyIff(init);
      StripEmptyIffBlank(lines[|lines| - 1]);
      assert forall i :: 0 <= i < |init| ==> init[i] == lines[i];
    }
  }

  /** A character absent from every input line is absent from every kept line. */
  lemma {:induction false} StrippedLinesAvoid(lines: seq<string>, c: char)
    requires forall i :: 0 <= i < |lines| ==> c !in lines[i]
    ensures forall k :: 0 <= k < |StrippedLines(lines)| ==> c !in StrippedLines(lines)[k]
  {
    if lines != [] {
      StrippedLinesAvoid(lines[..|lines| - 1], c);
      StripKeepsAbsent(lines[|lines| - 1], c);
    }
  }

  /** Joining non-empty lines gives the empty string only when there are none. */
  lemma JoinEmptyIff(xs: seq<string>)
    requires forall k :: 0 <= k < |xs| ==> xs[k] != ""
    ensures Join("\n", xs) == "" <==> xs == []
  {
    if |xs| > 1 {
      assert Join("\n", xs)[0] == xs[0][0];
    }
  }

  /** The summary is refused exactly when every line is blank (vacuously, when there are none). */
  lemma SummaryRefusedIffAllBlank(lines: seq<string>)
    ensures SummaryText(lines).Err? <==> forall i :: 0 <= i < |lines| ==> Blank(lines[i])
  {
    StrippedLinesShape(lines);
    StrippedLinesEmptyIff(lines);
    JoinEmptyIff(StrippedLines(lines));
  }

  /**
   * When no input line contains a newline, splitting the prompt text at
   * newlines gives back exactly the kept lines.
   */
  lemma SummaryTextSplits(lines: seq<string>)
    requires forall i :: 0 <= i < |lines| ==> '\n' !in lines[i]
    requires SummaryText(lines).Ok?
    ensures Split(SummaryText(lines).value, '\n') == StrippedLines(lines)
  {
    var r := StrippedLines(lines);
    StrippedLinesAvoid(lines, '\n');
    assert r != [];
    SplitJoin(r, '\n');
  }
}
