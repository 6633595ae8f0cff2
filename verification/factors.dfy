/** The factor path of the questionnaire page: each factor the previous page
    produced becomes one question on a fixed four-step importance scale. */
module Factors {
  import opened Results
  import opened Categories
  import opened LooseParser

  /** The four options every factor question offers, most important first. */
  const ImportanceScale: seq<Choice> := [
    Choice("Very Important", Some("This factor is crucial to my decision"), Stars(3)),
    Choice("Important", Some("This factor matters significantly"), Stars(2)),
    Choice("Somewhat Important", Some("This factor is worth considering"), Stars(1)),
    Choice("Not Important", Some("This factor is not a priority"), Cross)
  ]

  function FactorQuestion(factor: string): (q: Question)
    ensures q.question == factor && q.options == ImportanceScale
  {
    Question(factor, ImportanceScale, CategoryOf(factor), HelpText(factor))
  }

  /** `factors.map(factor => ({ question: factor, options: [...], ... }))`. */
  function FactorQuestions(factors: seq<string>): (r: seq<Question>)
    ensures |r| == |factors|
    ensures forall i :: 0 <= i < |r| ==>
      r[i].question == factors[i] && r[i].options == ImportanceScale
      && r[i].category == CategoryOf(factors[i]) && r[i].helpText == HelpText(factors[i])
  {
    seq(|factors|, i requires 0 <= i < |factors| => FactorQuestion(factors[i]))
  }

  /** The prompts of a questionnaire, in order. */
  function Prompts(qs: seq<Question>): (r: seq<string>)
    ensures |r| == |qs|
  {
    seq(|qs|, i requires 0 <= i < |qs| => qs[i].question)
  }

  /** The factor list can be read back from the questions: one question per
      factor, in factor order. */
  lemma PromptsAreFactors(factors: seq<string>)
    ensures Prompts(FactorQuestions(factors)) == factors
  {
  }

  /** The expansion is element-wise: expanding a concatenation concatenates
      the expansions. */
  lemma FactorQuestionsAppend(xs: seq<string>, ys: seq<string>)
    ensures FactorQuestions(xs + ys) == FactorQuestions(xs) + FactorQuestions(ys)
  {
  }

  /** The scale is ordered from most to least important, every step has a
      description, and the step names are distinct. */
  lemma ScaleShape()
    ensures |ImportanceScale| == 4
    ensures forall i :: 0 <= i < 4 ==> ImportanceScale[i].description.Some?
    ensures forall i, j :: 0 <= i < j < 4 ==> ImportanceScale[i].text != ImportanceScale[j].text
  {
  }

  /** The factors the page received: a list, or anything else. */
  datatype FactorsInput = FactorList(factors: seq<string>) | NotAList

  /** Setting up the factor questionnaire fails only when the factors are not
      a list; an empty list gives an empty questionnaire. */
  function Setup(input: FactorsInput): (r: Result<seq<Question>, string>)
    ensures r.Ok? <==> input.FactorList?
    ensures r.Ok? ==> Prompts(r.value) == input.factors
  {
    match input
    case FactorList(factors) =>
      PromptsAreFactors(factors);
      Ok(FactorQuestions(factors))
    case NotAList => Err("Received invalid factors format. Please try again.")
  }
}
