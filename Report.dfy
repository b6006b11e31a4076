/** The script's main block: the health-condition text is built from the four
    inputs, the label text is read, and when a text was recognised the prompt
    for the report is formed from both. The chat model, its JSON answer and
    the page that shows it are outside the model; so is the OCR service,
    whose answers for each operation id are supplied as a function. */
module Report {
  import opened Strings
  import opened HealthConditions
  import opened Ocr
  import opened ReportPrompt

  /** What the run hands on: the prompt sent for the report, or the failure
      line shown on the page, or neither while the job is still in progress
      after the supplied answers. */
  datatype RunResult = RunResult(prompt: Option<string>, message: Option<string>)

  /** The result the run produces, stated over the specification functions. */
  function Expected(input1: string, input2: string, input3: string, input4: string,
                    operationLocation: string, answers: string -> seq<ReadOperationResult>): RunResult
  {
    var conditions := AsWrittenText(NonEmpty([input1, input2, input3, input4]));
    match ReadOutcome(answers(OperationId(operationLocation)))
    case StillPolling => RunResult(None, None)
    case Recognized(context) => RunResult(Some(Prompt(context, conditions)), None)
    case Failed(status) => RunResult(None, Some(FailureMessage(status)))
  }

  /** Lines 50-95: a prompt is formed exactly when the job's first terminal
      status is "succeeded", and it carries the recognised text and the
      condition text; a failure line is shown exactly when that status is
      anything else, and it names the status. */
  method Run(input1: string, input2: string, input3: string, input4: string,
             operationLocation: string, answers: string -> seq<ReadOperationResult>)
    returns (result: RunResult)
    ensures result == Expected(input1, input2, input3, input4, operationLocation, answers)
    ensures var trace := answers(OperationId(operationLocation));
      result.prompt.Some? <==> exists i :: FirstTerminalAt(trace, i) && trace[i].status == Succeeded
    ensures var trace := answers(OperationId(operationLocation));
      result.message.Some? <==> exists i :: FirstTerminalAt(trace, i) && trace[i].status != Succeeded
    ensures result.prompt.Some? ==>
      var trace := answers(OperationId(operationLocation));
      exists i :: FirstTerminalAt(trace, i) &&
        result.prompt.value == Prompt(RecognizedText(trace[i].readResults), AsWrittenText(NonEmpty([input1, input2, input3, input4])))
    ensures result.prompt.Some? ==>
      Contains(result.prompt.value, AsWrittenText(NonEmpty([input1, input2, input3, input4]))) &&
      Contains(result.prompt.value, FallbackSentence)
    ensures result.message.Some? ==> FailurePrefix <= result.message.value
  {
    var conditions := HealthConditionsTextAsWritten(input1, input2, input3, input4);
    var operationId := OperationId(operationLocation);
    var trace := answers(operationId);
    var outcome := ReadText(trace);
    match outcome {
      case StillPolling =>
        result := RunResult(None, None);
      case Recognized(context) =>
        PromptContains(context, conditions);
        result := RunResult(Some(Prompt(context, conditions)), None);
      case Failed(status) =>
        result := RunResult(None, Some(FailureMessage(status)));
    }
  }
}
