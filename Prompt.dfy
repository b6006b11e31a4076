/** The prompt `generate_ingredient_health_report` sends to the chat model: a
    fixed preamble, the recognised label text, a fixed instruction, the
    health-condition text and a fixed closing sentence. */
module ReportPrompt {
  import opened Strings

  const Preamble := "The following text should be from a Nutrition Facts label and contain an INGREDIENTS list: \n\n"
  const Instruction := "\n\n\nPlease ignore all of the text other than the INGREDIENTS list and give a brief explanation of the health benefits or concerns of each individual ingredient listed for someone with the following health conditions: "
  const FallbackSentence := "The image does not appear to contain an ingredient list"
  const Closing := ". If the text does not contain an INGREDIENTS list, please only state that '" + FallbackSentence + "'."

  /** Where the health-condition text starts in a prompt built around a label
      text of `contextLength` characters. */
  function ConditionsStart(contextLength: nat): nat
  {
    |Preamble| + contextLength + |Instruction|
  }

  /** Line 22: the label text and the condition text, each placed verbatim
      between the fixed pieces of the prompt. */
  function Prompt(context: string, healthConditions: string): (prompt: string)
    ensures Preamble <= prompt
    ensures |prompt| == ConditionsStart(|context|) + |healthConditions| + |Closing|
    ensures prompt[|prompt| - |Closing|..] == Closing
  {
    ConcatSlices(Preamble, context, Instruction, healthConditions, Closing);
    Preamble + context + Instruction + healthConditions + Closing
  }

  /** The label text read back out of a prompt, given its length. */
  function ContextOf(prompt: string, contextLength: nat): (context: string)
    requires |prompt| >= ConditionsStart(contextLength)
    ensures |context| == contextLength
  {
    prompt[|Preamble|..|Preamble| + contextLength]
  }

  /** The condition text read back out of a prompt, given the label text's length. */
  function ConditionsOf(prompt: string, contextLength: nat): (healthConditions: string)
    requires |prompt| >= ConditionsStart(contextLength) + |Closing|
    ensures |healthConditions| == |prompt| - ConditionsStart(contextLength) - |Closing|
  {
    prompt[ConditionsStart(contextLength)..|prompt| - |Closing|]
  }

  /** Both texts come back out of the prompt unchanged: nothing is escaped,
      trimmed or lost. */
  lemma PromptRoundTrip(context: string, healthConditions: string)
    ensures var prompt := Prompt(context, healthConditions);
      ContextOf(prompt, |context|) == context &&
      ConditionsOf(prompt, |context|) == healthConditions
  {
    ConcatSlices(Preamble, context, Instruction, healthConditions, Closing);
  }

  /** Two prompts around label texts of the same length are equal only when
      both their label texts and their condition texts are. */
  lemma PromptInjective(c1: string, h1: string, c2: string, h2: string)
    requires |c1| == |c2|
    ensures Prompt(c1, h1) == Prompt(c2, h2) <==> c1 == c2 && h1 == h2
  {
    if Prompt(c1, h1) == Prompt(c2, h2) {
      PromptRoundTrip(c1, h1);
      PromptRoundTrip(c2, h2);
    }
  }

  /** The prompt carries the label text, the condition text and the sentence
      the model is told to answer with when there is no ingredient list. */
  lemma PromptContains(context: string, healthConditions: string)
    ensures var prompt := Prompt(context, healthConditions);
      Contains(prompt, context) && Contains(prompt, healthConditions) &&
      Contains(prompt, FallbackSentence)
  {
    var prompt := Prompt(context, healthConditions);
    var withContext := Preamble + context;
    var withInstruction := withContext + Instruction;
    var lead := withInstruction + healthConditions;
    ContainsHalves(lead, Closing);
    ContainsHalves(withInstruction, healthConditions);
    ContainsHalves(withContext, Instruction);
    ContainsHalves(Preamble, context);
    ContainsTrans(prompt, lead, healthConditions);
    ContainsTrans(prompt, lead, withInstruction);
    ContainsTrans(prompt, withInstruction, withContext);
    ContainsTrans(prompt, withContext, context);
    var closingLead := ". If the text does not contain an INGREDIENTS list, please only state that '";
    ContainsHalves(closingLead + FallbackSentence, "'.");
    ContainsHalves(closingLead, FallbackSentence);
    ContainsTrans(Closing, closingLead + FallbackSentence, FallbackSentence);
    ContainsTrans(prompt, Closing, FallbackSentence);
  }
}
