/** The answer wizard shared by the questionnaire pages and the ranking
    questionnaire: choosing an option records it under the current prompt and
    either moves to the next question or submits; "Previous" steps back; the
    header shows how many questions remain; the replies of the recommendation
    and ranking requests decide what is shown next. */
module Wizard {
  import opened Results
  import opened Text
  import opened Lists
  import opened Sections
  import HeaderParser

  /** `userAnswers`: prompt text to chosen option text. */
  type Answers = map<string, string>

  /** The current question index and the answers given so far. */
  datatype State = State(index: nat, answers: Answers)

  /** After a choice: show the next question, or send the answers. */
  datatype Outcome = Advance(next: State) | Submit(answers: Answers)

  function AnswersOf(r: Outcome): Answers {
    if r.Advance? then r.next.answers else r.answers
  }

  /** `handleOptionSelect`, with the answer recorded before the submission
      reads it. */
  function Select(prompts: seq<string>, s: State, option: string): (r: Outcome)
    requires s.index < |prompts|
    ensures r.Advance? <==> s.index < |prompts| - 1
    ensures r.Advance? ==> r.next.index == s.index + 1
    ensures prompts[s.index] in AnswersOf(r) && AnswersOf(r)[prompts[s.index]] == option
    ensures forall k :: k != prompts[s.index] ==>
      (k in AnswersOf(r) <==> k in s.answers) && (k in s.answers ==> AnswersOf(r)[k] == s.answers[k])
  {
    var answers := s.answers[prompts[s.index] := option];
    if s.index < |prompts| - 1 then Advance(State(s.index + 1, answers)) else Submit(answers)
  }

  /** `handlePrevious`, reachable only through the button shown when the index
      is positive. */
  function Previous(s: State): (r: Option<State>)
    ensures r.Some? <==> s.index > 0
    ensures r.Some? ==> r.value.index + 1 == s.index && r.value.answers == s.answers
  {
    if s.index > 0 then Some(State(s.index - 1, s.answers)) else None
  }

  /** Going back after a choice returns to the same question and keeps the
      answer just given. */
  lemma SelectThenPrevious(prompts: seq<string>, s: State, option: string)
    requires s.index < |prompts| - 1
    ensures var r := Select(prompts, s, option);
      Previous(r.next) == Some(State(s.index, r.next.answers))
      && r.next.answers[prompts[s.index]] == option
  {
  }

  /** Choosing again on the same question keeps only the latest choice. */
  lemma ReselectOverwrites(prompts: seq<string>, s: State, first: string, second: string)
    requires s.index < |prompts| - 1
    ensures var back := Previous(Select(prompts, s, first).next).value;
      AnswersOf(Select(prompts, back, second))[prompts[s.index]] == second
  {
  }

  /** Answering every remaining question in turn, one choice per question. */
  function Drive(prompts: seq<string>, s: State, choices: seq<string>): (answers: Answers)
    requires s.index < |prompts|
    requires |choices| == |prompts| - s.index
    ensures forall i :: s.index <= i < |prompts| ==> prompts[i] in answers
    ensures forall k :: k in answers <==> k in s.answers || k in prompts[s.index..]
    decreases |choices|
  {
    match Select(prompts, s, choices[0])
    case Advance(next) =>
      var r := Drive(prompts, next, choices[1..]);
      assert prompts[s.index..] == [prompts[s.index]] + prompts[s.index + 1..];
      r
    case Submit(answers) =>
      assert prompts[s.index..] == [prompts[s.index]];
      answers
  }

  /** With distinct prompts, the submitted answers hold each question's own
      choice. */
  lemma {:induction false} DriveRecordsChoices(prompts: seq<string>, s: State, choices: seq<string>)
    requires Distinct(prompts)
    requires s.index < |prompts|
    requires |choices| == |prompts| - s.index
    ensures forall i :: s.index <= i < |prompts| ==> Drive(prompts, s, choices)[prompts[i]] == choices[i - s.index]
    decreases |choices|
  {
    match Select(prompts, s, choices[0])
    case Advance(next) =>
      DriveRecordsChoices(prompts, next, choices[1..]);
      var r := Drive(prompts, next, choices[1..]);
      forall i | s.index <= i < |prompts| ensures r[prompts[i]] == choices[i - s.index] {
        if i == s.index {
          DriveKeeps(prompts, next, choices[1..], prompts[i]);
        }
      }
    case Submit(answers) =>
  }

  /** A prompt not asked again keeps the answer it already has. */
  lemma {:induction false} DriveKeeps(prompts: seq<string>, s: State, choices: seq<string>, key: string)
    requires s.index < |prompts|
    requires |choices| == |prompts| - s.index
    requires key in s.answers && key !in prompts[s.index..]
    ensures Drive(prompts, s, choices)[key] == s.answers[key]
    decreases |choices|
  {
    assert prompts[s.index] in prompts[s.index..];
    match Select(prompts, s, choices[0])
    case Advance(next) =>
      assert prompts[s.index + 1..] == prompts[s.index..][1..];
      DriveKeeps(prompts, next, choices[1..], key);
    case Submit(answers) =>
  }

  // ---------------------------------------------------------------------------
  // How many questions remain

  /** The header line: the last question, or how many remain after this one
      and whether to say "questions" rather than "question". */
  datatype Progress = LastQuestion | QuestionsLeft(count: nat, plural: bool)

  /** `remainingQuestions = questionnaire.length - (currentQuestionIndex + 1)`. */
  function ProgressOf(total: nat, index: nat): (p: Progress)
    requires index < total
    ensures p == LastQuestion <==> index == total - 1
    ensures p.QuestionsLeft? ==> p.count + index + 1 == total && p.count > 0
    ensures p.QuestionsLeft? ==> (p.plural <==> p.count != 1)
  {
    var remaining := total - (index + 1);
    if remaining == 0 then LastQuestion else QuestionsLeft(remaining, remaining != 1)
  }

  /** "Last question" is shown exactly when the next choice submits. */
  lemma LastQuestionSubmits(prompts: seq<string>, s: State, option: string)
    requires s.index < |prompts|
    ensures ProgressOf(|prompts|, s.index) == LastQuestion <==> Select(prompts, s, option).Submit?
  {
  }

  // ---------------------------------------------------------------------------
  // Replies

  /** The reply to `/generate-recommendation`: its `recommendation` field
      (`None` when missing), or a failed request. */
  datatype RecommendReply = RecommendReply(recommendation: Option<string>) | RecommendFailed

  datatype RecommendOutcome = ShowRanking(products: seq<string>) | RecommendError(message: string)

  /** The lines of a recommendation that are not blank, untrimmed. */
  function NonBlank(ls: seq<string>): (r: seq<string>)
    ensures |r| <= |ls|
    ensures forall i :: 0 <= i < |r| ==> r[i] in ls && Trim(r[i]) != []
    ensures forall x :: x in r <==> x in ls && Trim(x) != []
  {
    if |ls| == 0 then []
    else (if Trim(ls[0]) != [] then [ls[0]] else []) + NonBlank(ls[1..])
  }

  lemma {:induction false} NonBlankKeepsAll(ls: seq<string>)
    requires forall i :: 0 <= i < |ls| ==> Trim(ls[i]) != []
    ensures NonBlank(ls) == ls
  {
    if |ls| > 0 {
      NonBlankKeepsAll(ls[1..]);
    }
  }

  /** Filtering distributes over the lines of two texts: order is kept. */
  lemma {:induction false} NonBlankAppend(a: seq<string>, b: seq<string>)
    ensures NonBlank(a + b) == NonBlank(a) + NonBlank(b)
    decreases |a|
  {
    if |a| == 0 {
      assert a + b == b;
    } else {
      assert (a + b)[1..] == a[1..] + b;
      NonBlankAppend(a[1..], b);
    }
  }

  /** `generateRecommendation`: one product per non-blank line of the
      recommendation; any failure, including a missing field, shows the error
      message. */
  function Recommend(reply: RecommendReply): (r: RecommendOutcome)
    ensures r.RecommendError? <==> reply.RecommendFailed? || reply.recommendation.None?
    ensures r.RecommendError? ==> r.message == "Failed to generate recommendation. Please try again."
    ensures r.ShowRanking? ==> forall i :: 0 <= i < |r.products| ==> '\n' !in r.products[i] && Trim(r.products[i]) != []
    ensures r.ShowRanking? ==> r.products == NonBlank(Lines(reply.recommendation.value))
  {
    match reply
    case RecommendReply(Some(text)) => ShowRanking(NonBlank(Lines(text)))
    case _ => RecommendError("Failed to generate recommendation. Please try again.")
  }

  /** A recommendation written one product per line gives those products
      back in order; blank lines, wherever they are, are dropped. */
  lemma RecommendedProducts(ls: seq<string>)
    requires forall i :: 0 <= i < |ls| ==> '\n' !in ls[i]
    ensures Recommend(RecommendReply(Some(Join(ls, "\n")))) == ShowRanking(NonBlank(ls))
  {
    if |ls| == 0 {
      assert Lines("") == [""] by { assert SplitAny("", {'\n'}) == [""]; }
      assert Trim("") == [];
      assert NonBlank([""]) == [];
    } else {
      LinesOfJoin(ls);
    }
  }

  /** ... so with no blank line among them, exactly those products. */
  lemma RecommendedProductsAll(ls: seq<string>)
    requires forall i :: 0 <= i < |ls| ==> '\n' !in ls[i] && Trim(ls[i]) != []
    ensures Recommend(RecommendReply(Some(Join(ls, "\n")))) == ShowRanking(ls)
  {
    RecommendedProducts(ls);
    NonBlankKeepsAll(ls);
  }

  /** The reply to `/rank-products`: its `ranked_products` field (`None` when
      missing), or a failed request. */
  datatype RankReply = RankReply(rankedProducts: Option<seq<string>>) | RankFailed

  /** Either the ranking goes to the parent, or the questionnaire is emptied,
      which shows the error screen. */
  datatype RankOutcome = RankingComplete(ranked: seq<string>) | RankingError

  /** `submitRankingPreferences` of the ranking questionnaire. An array is
      truthy even when empty, so an empty ranking still completes. */
  function SubmitRanking(reply: RankReply): (r: RankOutcome)
    ensures r.RankingComplete? <==> reply.RankReply? && reply.rankedProducts.Some?
    ensures r.RankingComplete? ==> r.ranked == reply.rankedProducts.value
  {
    match reply
    case RankReply(Some(ranked)) => RankingComplete(ranked)
    case _ => RankingError
  }

  /** The older ranking page hands on whatever the reply holds, even a missing
      field, and stays put when the request fails. */
  function SubmitRankingUnchecked(reply: RankReply): (r: Option<Option<seq<string>>>)
    ensures r.Some? <==> reply.RankReply?
    ensures r.Some? ==> r.value == reply.rankedProducts
  {
    if reply.RankReply? then Some(reply.rankedProducts) else None
  }

  datatype PageOutcome =
    | Results(ranked: seq<string>, initialAnswers: seq<(string, Option<string>)>)
    | PageError(message: string)

  /** `handleRankingComplete`: an empty ranking is an error; otherwise the
      results carry the ranking and, per question, its prompt and answer. */
  function CompleteRanking(prompts: seq<string>, answers: Answers, ranked: seq<string>): (r: PageOutcome)
    ensures r.PageError? <==> |ranked| == 0
    ensures r.PageError? ==> r.message == "Failed to generate ranked products. Please try again."
    ensures r.Results? ==> r.ranked == ranked && |r.initialAnswers| == |prompts|
    ensures r.Results? ==> forall i :: 0 <= i < |prompts| ==>
      r.initialAnswers[i].0 == prompts[i] && (r.initialAnswers[i].1.Some? <==> prompts[i] in answers)
    ensures r.Results? ==> forall i :: 0 <= i < |prompts| && prompts[i] in answers ==>
      r.initialAnswers[i].1 == Some(answers[prompts[i]])
  {
    if |ranked| == 0 then PageError("Failed to generate ranked products. Please try again.")
    else Results(ranked, seq(|prompts|, i requires 0 <= i < |prompts| =>
      (prompts[i], if prompts[i] in answers then Some(answers[prompts[i]]) else None)))
  }

  /** After every question has been answered, the results page gets a
      non-empty ranking and an answer for every question, or an error. */
  lemma AnsweredRankingReachesResults(prompts: seq<string>, choices: seq<string>, reply: RankReply)
    requires |prompts| > 0 && |choices| == |prompts|
    ensures var answers := Drive(prompts, State(0, map[]), choices);
      match SubmitRanking(reply)
      case RankingComplete(ranked) =>
        var page := CompleteRanking(prompts, answers, ranked);
        (page.Results? <==> |ranked| > 0)
        && (page.Results? ==> forall i :: 0 <= i < |prompts| ==> page.initialAnswers[i].1.Some?)
      case RankingError => true
  {
  }

  // ---------------------------------------------------------------------------
  // As written: the submission reads the answers of an earlier render

  /** `handleOptionSelect` as the components run it: the submission closes
      over the answers from before this choice, so it sends them without the
      last one. */
  function SelectAsWritten(prompts: seq<string>, s: State, option: string): (r: Outcome)
    requires s.index < |prompts|
    ensures r.Advance? ==> r == Select(prompts, s, option)
    ensures r.Submit? ==> r.answers == s.answers
  {
    if s.index < |prompts| - 1 then Select(prompts, s, option) else Submit(s.answers)
  }

  /** A one-question run submits no answer at all. */
  lemma LastAnswerLost(prompt: string, option: string)
    ensures SelectAsWritten([prompt], State(0, map[]), option) == Submit(map[])
    ensures Select([prompt], State(0, map[]), option) == Submit(map[prompt := option])
  {
  }

  // ---------------------------------------------------------------------------
  // As written: the header-parser page keys answers by a missing field

  /** A JavaScript property value that may be `undefined`. */
  type JsValue = Option<string>

  /** The header-parser page's answer step as written: its questions carry
      `text`, not `question`, so the key is `String(undefined)`, and its options
      are strings, so `option.text` is `undefined` too. */
  function HeaderSelectAsWritten(qs: seq<HeaderParser.HeaderQuestion>, index: nat, answers: map<string, JsValue>, option: string): (r: map<string, JsValue>)
    requires index < |qs|
    ensures r.Keys == answers.Keys + {"undefined"}
    ensures r["undefined"] == None
  {
    answers["undefined" := None]
  }

  /** Two different questions answered: one entry, keyed by neither, holding
      no answer. */
  lemma HeaderAnswersCollapse(q0: HeaderParser.HeaderQuestion, q1: HeaderParser.HeaderQuestion, o0: string, o1: string)
    requires q0.text != q1.text && q0.text != "undefined" && q1.text != "undefined"
    ensures var a := HeaderSelectAsWritten([q0, q1], 1, HeaderSelectAsWritten([q0, q1], 0, map[], o0), o1);
      |a| == 1 && q0.text !in a && q1.text !in a && a["undefined"] == None
  {
    var a := HeaderSelectAsWritten([q0, q1], 1, HeaderSelectAsWritten([q0, q1], 0, map[], o0), o1);
    assert a.Keys == {"undefined"};
  }

  /** The prompts of the header-parser questions: their `text`. */
  function HeaderPrompts(qs: seq<HeaderParser.HeaderQuestion>): (ps: seq<string>)
    ensures |ps| == |qs|
    ensures forall i :: 0 <= i < |qs| ==> ps[i] == qs[i].text
  {
    seq(|qs|, i requires 0 <= i < |qs| => qs[i].text)
  }

  /** Keyed by each question's own text, every answer survives. */
  lemma HeaderAnswersKept(qs: seq<HeaderParser.HeaderQuestion>, choices: seq<string>)
    requires |qs| > 0 && |choices| == |qs|
    requires Distinct(HeaderPrompts(qs))
    ensures var answers := Drive(HeaderPrompts(qs), State(0, map[]), choices);
      forall i :: 0 <= i < |qs| ==> qs[i].text in answers && answers[qs[i].text] == choices[i]
  {
    DriveRecordsChoices(HeaderPrompts(qs), State(0, map[]), choices);
  }
}
