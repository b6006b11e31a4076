/** The `ocr()` routine after the image has been submitted: the operation id
    is cut from the Operation-Location header, the read result is polled until
    its status leaves "notStarted"/"running", and on "succeeded" every
    recognised line is gathered into one text, each line followed by "\n".

    The OCR service is not modelled; its answers are supplied: a read
    operation result per poll, in the order the polls receive them. */
module Ocr {
  import opened Strings

  /** One recognised line of text. */
  datatype Line = Line(text: string)

  /** One entry of `analyze_result.read_results`: a recognised region and its lines. */
  datatype TextRegion = TextRegion(lines: seq<Line>)

  /** What one call of `get_read_result` answers: the job status and, once it
      succeeded, the recognised regions. */
  datatype ReadOperationResult = ReadOperationResult(status: string, readResults: seq<TextRegion>)

  /** Where a poll of the job left off. */
  datatype OcrOutcome =
    | StillPolling              // every supplied answer was "notStarted" or "running"
    | Recognized(context: string)
    | Failed(status: string)    // the first terminal status, other than "succeeded"

  const NotStarted := "notStarted"
  const Running := "running"
  const Succeeded := "succeeded"
  const FailurePrefix := "Failed with status: "

  /** Line 52: the operation id is the last piece of the Operation-Location
      header split at "/": the text after its last "/", or all of it when
      there is none. */
  function OperationId(operationLocation: string): (id: string)
    ensures '/' !in id
    ensures |id| <= |operationLocation| && operationLocation[|operationLocation| - |id|..] == id
    ensures |id| < |operationLocation| ==> operationLocation[|operationLocation| - |id| - 1] == '/'
    ensures '/' !in operationLocation ==> id == operationLocation
  {
    var parts := Split(operationLocation, '/');
    SplitLast(operationLocation, '/');
    SplitPartsExcludeSeparator(operationLocation, '/');
    SplitWithoutSeparator(operationLocation, '/');
    parts[|parts| - 1]
  }

  /** Line 56: the job is still in progress while its status is one of these two. */
  predicate InProgress(status: string)
  {
    status == NotStarted || status == Running
  }

  /** Answer `i` is the one that ends the polling loop: it is terminal and
      every answer before it was still in progress. */
  predicate FirstTerminalAt(trace: seq<ReadOperationResult>, i: int)
  {
    0 <= i < |trace| && !InProgress(trace[i].status) &&
    forall k :: 0 <= k < i ==> InProgress(trace[k].status)
  }

  /** The index of the answer that stops the polling loop, if any. */
  function FirstTerminal(trace: seq<ReadOperationResult>): (r: Option<nat>)
    ensures r.Some? ==> FirstTerminalAt(trace, r.value)
    ensures r.None? <==> forall k :: 0 <= k < |trace| ==> InProgress(trace[k].status)
  {
    if trace == [] then None
    else if !InProgress(trace[0].status) then Some(0)
    else
      var rest := FirstTerminal(trace[1..]);
      if rest.None? then None else Some(rest.value + 1)
  }

  /** At most one answer can be the one that stops the loop. */
  lemma FirstTerminalUnique(trace: seq<ReadOperationResult>, i: int, j: int)
    requires FirstTerminalAt(trace, i) && FirstTerminalAt(trace, j)
    ensures i == j
  {
  }

  /** Lines 54-58: poll, answer by answer, until the status is no longer
      "notStarted" or "running"; `None` when the supplied answers run out first. */
  method Poll(trace: seq<ReadOperationResult>) returns (last: Option<nat>)
    ensures last == FirstTerminal(trace)
  {
    var i := 0;
    while i < |trace|
      invariant 0 <= i <= |trace|
      invariant forall k :: 0 <= k < i ==> InProgress(trace[k].status)
    {
      var results := trace[i];
      if !InProgress(results.status) {
        var first := FirstTerminal(trace);
        FirstTerminalUnique(trace, i, first.value);
        return Some(i);
      }
      i := i + 1;
    }
    return None;
  }

  /** The texts of `lines`, in order. */
  function LineTexts(lines: seq<Line>): (texts: seq<string>)
    ensures |texts| == |lines|
    ensures forall i :: 0 <= i < |lines| ==> texts[i] == lines[i].text
  {
    if lines == [] then []
    else LineTexts(lines[..|lines| - 1]) + [lines[|lines| - 1].text]
  }

  /** The texts of every line of every region: region order, then line order. */
  function Flatten(regions: seq<TextRegion>): seq<string>
  {
    if regions == [] then []
    else Flatten(regions[..|regions| - 1]) + LineTexts(regions[|regions| - 1].lines)
  }

  /** Every text followed by "\n", concatenated. */
  function Terminated(texts: seq<string>): string
  {
    if texts == [] then ""
    else Terminated(texts[..|texts| - 1]) + texts[|texts| - 1] + "\n"
  }

  /** The terminated text has one character per text character plus one
      newline per text, and ends in "\n" when there is any text at all. */
  lemma {:induction false} TerminatedShape(texts: seq<string>)
    ensures |Terminated(texts)| == SumLengths(texts) + |texts|
    ensures texts != [] ==> Terminated(texts)[|Terminated(texts)| - 1] == '\n'
  {
    if texts != [] {
      TerminatedShape(texts[..|texts| - 1]);
    }
  }

  /** The text lines 61-64 assemble from a succeeded read result. */
  function RecognizedText(regions: seq<TextRegion>): string
  {
    Terminated(Flatten(regions))
  }

  /** Lines 61-64: for each region, for each of its lines, append the line's
      text and "\n". */
  method AssembleText(regions: seq<TextRegion>) returns (context: string)
    ensures context == RecognizedText(regions)
  {
    context := "";
    for i := 0 to |regions|
      invariant context == Terminated(Flatten(regions[..i]))
    {
      var lines := regions[i].lines;
      ghost var before := Flatten(regions[..i]);
      AppendEmpty(before);
      for j := 0 to |lines|
        invariant context == Terminated(before + LineTexts(lines[..j]))
      {
        ghost var done := LineTexts(lines[..j]);
        PrefixSnoc(lines, j);
        LineTextsSnoc(lines[..j], lines[j]);
        AppendAssoc(before, done, [lines[j].text]);
        TerminatedSnoc(before + done, lines[j].text);
        context := context + lines[j].text + "\n";
      }
      AppendEmpty(lines);
      PrefixSnoc(regions, i);
      FlattenSnoc(regions[..i], regions[i]);
    }
    AppendEmpty(regions);
  }

  lemma LineTextsSnoc(lines: seq<Line>, line: Line)
    ensures LineTexts(lines + [line]) == LineTexts(lines) + [line.text]
  {
    SnocParts(lines, line);
  }

  lemma FlattenSnoc(regions: seq<TextRegion>, region: TextRegion)
    ensures Flatten(regions + [region]) == Flatten(regions) + LineTexts(region.lines)
  {
    SnocParts(regions, region);
  }

  lemma TerminatedSnoc(texts: seq<string>, t: string)
    ensures Terminated(texts + [t]) == Terminated(texts) + t + "\n"
  {
    SnocParts(texts, t);
  }

  /** Concatenating line lists concatenates their terminated texts. */
  lemma {:induction false} TerminatedAppend(a: seq<string>, b: seq<string>)
    ensures Terminated(a + b) == Terminated(a) + Terminated(b)
  {
    if b == [] {
      AppendEmpty(a);
      AppendEmpty(Terminated(a));
    } else {
      var init, last := b[..|b| - 1], b[|b| - 1];
      TerminatedAppend(a, init);
      LastSplit(b);
      AppendAssoc(a, init, [last]);
      TerminatedSnoc(a + init, last);
      TerminatedSnoc(init, last);
      var ta, ti := Terminated(a), Terminated(init);
      AppendAssoc(ta, ti, last);
      AppendAssoc(ta, ti + last, "\n");
    }
  }

  /** Flattening keeps region order: the lines of a concatenation of region
      lists are the lines of the first list, then those of the second. */
  lemma {:induction false} FlattenAppend(a: seq<TextRegion>, b: seq<TextRegion>)
    ensures Flatten(a + b) == Flatten(a) + Flatten(b)
  {
    if b == [] {
      AppendEmpty(a);
      AppendEmpty(Flatten(a));
    } else {
      var init, last := b[..|b| - 1], b[|b| - 1];
      FlattenAppend(a, init);
      LastSplit(b);
      AppendAssoc(a, init, [last]);
      FlattenSnoc(a + init, last);
      FlattenSnoc(init, last);
      AppendAssoc(Flatten(a), Flatten(init), LineTexts(last.lines));
    }
  }

  /** The text of a concatenation of region lists is the text of the first
      list followed by the text of the second. */
  lemma RecognizedTextAppend(a: seq<TextRegion>, b: seq<TextRegion>)
    ensures RecognizedText(a + b) == RecognizedText(a) + RecognizedText(b)
  {
    FlattenAppend(a, b);
    TerminatedAppend(Flatten(a), Flatten(b));
  }

  /** Splitting the assembled text at "\n" gives back the lines, plus the
      empty piece after the final newline, as long as no line holds a "\n"
      of its own. */
  lemma {:induction false} SplitTerminated(texts: seq<string>)
    requires forall i :: 0 <= i < |texts| ==> '\n' !in texts[i]
    ensures Split(Terminated(texts), '\n') == texts + [""]
  {
    if texts != [] {
      var init, last := texts[..|texts| - 1], texts[|texts| - 1];
      SplitTerminated(init);
      var t := Terminated(init);
      SplitExtend(t, last, '\n');
      SnocParts(init, "");
      AppendEmpty(last);
      SplitSnoc(t + last, '\n', '\n');
      LastSplit(texts);
      TerminatedSnoc(init, last);
    }
  }

  /** The two-region example: regions ["A", "B"] and ["C"] give "A\nB\nC\n". */
  lemma RecognizedTextExample()
    ensures RecognizedText([TextRegion([Line("A"), Line("B")]), TextRegion([Line("C")])]) == "A\nB\nC\n"
  {
    FlattenExample();
    TerminatedExample();
  }

  lemma FlattenExample()
    ensures Flatten([TextRegion([Line("A"), Line("B")]), TextRegion([Line("C")])]) == ["A", "B", "C"]
  {
    var r1 := TextRegion([Line("A"), Line("B")]);
    var r2 := TextRegion([Line("C")]);
    FlattenPair(r1, r2);
    assert LineTexts(r1.lines) == ["A", "B"];
    assert LineTexts(r2.lines) == ["C"];
  }

  lemma FlattenPair(r1: TextRegion, r2: TextRegion)
    ensures Flatten([r1, r2]) == LineTexts(r1.lines) + LineTexts(r2.lines)
  {
    FlattenSnoc([], r1);
    AppendEmpty([r1]);
    AppendEmpty(LineTexts(r1.lines));
    FlattenSnoc([r1], r2);
    assert [r1] + [r2] == [r1, r2];
  }

  lemma TerminatedExample()
    ensures Terminated(["A", "B", "C"]) == "A\nB\nC\n"
  {
    TerminatedSnoc([], "A");
    AppendEmpty(["A"]);
    TerminatedSnoc(["A"], "B");
    assert ["A"] + ["B"] == ["A", "B"];
    TerminatedSnoc(["A", "B"], "C");
    assert ["A", "B"] + ["C"] == ["A", "B", "C"];
  }

  /** Line 67: the line shown when the job ends in any other status. */
  function FailureMessage(status: string): (message: string)
    ensures FailurePrefix <= message
    ensures Contains(message, status)
  {
    var message := FailurePrefix + status;
    assert status <= message[|FailurePrefix|..];
    message
  }

  /** Lines 54-68 over a supplied sequence of answers: the first answer that is
      not in progress decides; its regions' text when it "succeeded", a failure
      carrying its status otherwise. */
  function ReadOutcome(trace: seq<ReadOperationResult>): (outcome: OcrOutcome)
    ensures outcome.StillPolling? <==> forall k :: 0 <= k < |trace| ==> InProgress(trace[k].status)
    ensures outcome.Recognized? <==> exists i :: FirstTerminalAt(trace, i) && trace[i].status == Succeeded
    ensures outcome.Recognized? ==>
      exists i :: FirstTerminalAt(trace, i) && outcome.context == RecognizedText(trace[i].readResults)
    ensures outcome.Failed? ==> !InProgress(outcome.status) && outcome.status != Succeeded
    ensures outcome.Failed? ==> exists i :: FirstTerminalAt(trace, i) && trace[i].status == outcome.status
  {
    var first := FirstTerminal(trace);
    if first.None? then StillPolling
    else
      var i := first.value;
      assert forall j :: FirstTerminalAt(trace, j) ==> j == i by {
        forall j | FirstTerminalAt(trace, j) ensures j == i {
          FirstTerminalUnique(trace, i, j);
        }
      }
      if trace[i].status == Succeeded then Recognized(RecognizedText(trace[i].readResults))
      else Failed(trace[i].status)
  }

  /** Lines 54-68: poll, then either assemble the text or report the status. */
  method ReadText(trace: seq<ReadOperationResult>) returns (outcome: OcrOutcome)
    ensures outcome == ReadOutcome(trace)
  {
    var last := Poll(trace);
    if last.None? {
      return StillPolling;
    }
    var results := trace[last.value];
    if results.status == Succeeded {
      var context := AssembleText(results.readResults);
      return Recognized(context);
    }
    return Failed(results.status);
  }
}
