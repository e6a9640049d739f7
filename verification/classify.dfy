/**
 * The question-type classifier: the metadata's own type when it names
 * one, otherwise a guess from the item's response structure.
 */
module Classify {
  import opened Text
  import opened Xml
  import opened Extract

  const TrueFalse := "true_false_question"
  const MultipleAnswers := "multiple_answers_question"
  const MultipleChoice := "multiple_choice_question"
  const ShortAnswer := "short_answer_question"
  const Unknown := "unknown"

  /**
   * `meta.get("question_type") or meta.get("interaction_type") or ""`:
   * an absent key and an empty value both fall through to the next choice.
   */
  function MetadataType(meta: map<string, string>): string {
    if "question_type" in meta && meta["question_type"] != "" then meta["question_type"]
    else if "interaction_type" in meta && meta["interaction_type"] != "" then meta["interaction_type"]
    else ""
  }

  /** Some lower-cased choice text is `"true"` or `"false"`. */
  predicate MentionsTrueOrFalse(choices: seq<Choice>) {
    exists k :: 0 <= k < |choices| && Lower(choices[k].text) in {"true", "false"}
  }

  /** The structural test for a true/false question: a true/false text among at most three choices. */
  predicate LooksTrueFalse(choices: seq<Choice>) {
    MentionsTrueOrFalse(choices) && |choices| <= 3
  }

  /** `guess_type(meta, item)`. */
  function GuessType(meta: map<string, string>, item: Element): (r: string)
    ensures r != ""
  {
    var qt := Lower(MetadataType(meta));
    if qt != "" then qt else StructuralType(item)
  }

  /** The guess from the item's structure, used when the metadata names no type. */
  function StructuralType(item: Element): (r: string)
    ensures r in {TrueFalse, MultipleAnswers, MultipleChoice, ShortAnswer, Unknown}
  {
    if FindAllAnyNs(item, "response_lid") != [] then
      if LooksTrueFalse(Choices(item)) then TrueFalse
      else if |CorrectIdents(item)| > 1 then MultipleAnswers
      else MultipleChoice
    else if FindAllAnyNs(item, "response_str") != [] then ShortAnswer
    else Unknown
  }

  /** A type named by the metadata is returned lower-cased, whatever the item's structure. */
  lemma MetadataOverridesStructure(meta: map<string, string>, item: Element, other: Element)
    requires MetadataType(meta) != ""
    ensures GuessType(meta, item) == Lower(MetadataType(meta))
    ensures GuessType(meta, item) == GuessType(meta, other)
  {
  }

  /** `question_type` takes precedence over `interaction_type`; keys are compared case-sensitively. */
  lemma QuestionTypeFirst(meta: map<string, string>, item: Element)
    ensures "question_type" in meta && meta["question_type"] != "" ==>
              GuessType(meta, item) == Lower(meta["question_type"])
    ensures ("question_type" !in meta || meta["question_type"] == "") &&
            "interaction_type" in meta && meta["interaction_type"] != "" ==>
              GuessType(meta, item) == Lower(meta["interaction_type"])
  {
  }

  /** The result is always lower-case. */
  lemma GuessTypeIsLowerCase(meta: map<string, string>, item: Element)
    ensures Lower(GuessType(meta, item)) == GuessType(meta, item)
  {
    if Lower(MetadataType(meta)) != "" {
      LowerIdempotent(MetadataType(meta));
    } else {
      TypeNameLowerCase(StructuralType(item));
    }
  }

  lemma TypeNameLowerCase(r: string)
    requires r in {TrueFalse, MultipleAnswers, MultipleChoice, ShortAnswer, Unknown}
    ensures Lower(r) == r
  {
    TrueFalseNoCapitals();
    MultipleAnswersNoCapitals();
    MultipleChoiceNoCapitals();
    OtherTypeNamesNoCapitals();
    LowerNoCapitals(r);
  }

  lemma TrueFalseNoCapitals() ensures NoCapitals(TrueFalse) {}
  lemma MultipleAnswersNoCapitals() ensures NoCapitals(MultipleAnswers) {}
  lemma MultipleChoiceNoCapitals() ensures NoCapitals(MultipleChoice) {}
  lemma OtherTypeNamesNoCapitals() ensures NoCapitals(ShortAnswer) && NoCapitals(Unknown) {}

  /**
   * Without a metadata type, the structure decides: the rules are tried in
   * the order true/false, multiple answers, multiple choice for an item with
   * a `response_lid`, then short answer for one with a `response_str`, then
   * `"unknown"`.
   */
  lemma StructuralRules(meta: map<string, string>, item: Element)
    requires MetadataType(meta) == ""
    ensures var r := GuessType(meta, item);
            var lid := FindAllAnyNs(item, "response_lid") != [];
            var str := FindAllAnyNs(item, "response_str") != [];
            && (r == TrueFalse <==> lid && LooksTrueFalse(Choices(item)))
            && (r == MultipleAnswers <==> lid && !LooksTrueFalse(Choices(item)) && |CorrectIdents(item)| > 1)
            && (r == MultipleChoice <==> lid && !LooksTrueFalse(Choices(item)) && |CorrectIdents(item)| <= 1)
            && (r == ShortAnswer <==> !lid && str)
            && (r == Unknown <==> !lid && !str)
  {
    assert |MetadataType(meta)| == 0;
  }

  /**
   * An item with a `response_lid` but no choices is never true/false: it is
   * a multiple-choice question unless its response processing marks more
   * than one identifier correct.
   */
  lemma LidWithoutChoices(meta: map<string, string>, item: Element)
    requires MetadataType(meta) == ""
    requires FindAllAnyNs(item, "response_lid") != [] && Choices(item) == []
    ensures |CorrectIdents(item)| <= 1 ==> GuessType(meta, item) == MultipleChoice
    ensures |CorrectIdents(item)| > 1 ==> GuessType(meta, item) == MultipleAnswers
  {
    assert !MentionsTrueOrFalse(Choices(item));
  }

  /** A lone `"TRUE"` choice is enough for true/false: the test is an intersection, not set equality. */
  lemma IntersectionSuffices(meta: map<string, string>, item: Element)
    requires MetadataType(meta) == ""
    requires FindAllAnyNs(item, "response_lid") != []
    requires |Choices(item)| == 1 && Choices(item)[0].text == "TRUE"
    ensures GuessType(meta, item) == TrueFalse
  {
    assert Lower(Choices(item)[0].text) == "true";
  }

  /** Four choices are too many for true/false, even when they read true and false. */
  lemma FourChoicesNeverTrueFalse(meta: map<string, string>, item: Element)
    requires |Choices(item)| >= 4
    requires MetadataType(meta) == ""
    ensures GuessType(meta, item) != TrueFalse
  {
  }
}
