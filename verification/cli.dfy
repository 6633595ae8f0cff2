/** The command-line flow of `app.py`: `parse_questionnaire` reads `Q:` lines
    and numbered option lines, the interactive loop asks for a number per
    question until one is in range, and the answers become the preference text
    sent to the model. */
module Cli {
  import opened Results
  import opened Text
  import opened Lists
  import opened Sections

  datatype CliQuestion = CliQuestion(question: string, options: seq<string>)

  /** `stripped_line.lower().startswith("q:")`. */
  predicate IsQLine(s: string) {
    |s| >= 2 && (s[0] == 'q' || s[0] == 'Q') && s[1] == ':'
  }

  /** What a line means to the parser. */
  datatype LineKind = Blank | Ask(text: string) | Answer(value: string) | Other

  /** A line stripped, then: empty, a `Q:` line with its text (the rest
      stripped), an option line `N.` with its text (the number, the dot and the
      blanks after them removed, stripped), or anything else. */
  function Classify(line: string): (k: LineKind)
    ensures k.Ask? ==> IsQLine(Trim(line)) && IsTrimmed(k.text)
    ensures k.Answer? ==> !IsQLine(Trim(line)) && IsTrimmed(k.value)
    ensures k == Blank <==> Trim(line) == []
  {
    var s := Trim(line);
    if s == [] then Blank
    else if IsQLine(s) then Ask(Trim(s[2..]))
    else
      var n := Span(s, IsDigit);
      if 0 < n < |s| && s[n] == '.' then Answer(Trim(s[n + 1..])) else Other
  }

  function Kinds(lines: seq<string>): (ks: seq<LineKind>)
    ensures |ks| == |lines|
    ensures forall i :: 0 <= i < |lines| ==> ks[i] == Classify(lines[i])
  {
    seq(|lines|, i requires 0 <= i < |lines| => Classify(lines[i]))
  }

  /** The option texts the lines contribute: the non-empty answers, in order. */
  function AnswerValues(ks: seq<LineKind>): (vs: seq<string>)
    ensures |vs| <= |ks|
    ensures forall i :: 0 <= i < |vs| ==> vs[i] != []
  {
    if |ks| == 0 then []
    else (if ks[0].Answer? && ks[0].value != [] then [ks[0].value] else []) + AnswerValues(ks[1..])
  }

  lemma {:induction false} AnswerValuesAppend(xs: seq<LineKind>, ys: seq<LineKind>)
    ensures AnswerValues(xs + ys) == AnswerValues(xs) + AnswerValues(ys)
  {
    if |xs| > 0 {
      assert (xs + ys)[1..] == xs[1..] + ys;
      AnswerValuesAppend(xs[1..], ys);
    } else {
      assert xs + ys == ys;
    }
  }

  /** The question being collected is emitted only when it has text and
      options: `if current_question_text and current_options_list`. */
  function Flush(current: string, options: seq<string>): (r: seq<CliQuestion>)
    ensures |r| <= 1
    ensures r != [] <==> current != [] && options != []
    ensures r != [] ==> r[0] == CliQuestion(current, options)
  {
    if current != [] && options != [] then [CliQuestion(current, options)] else []
  }

  // ---------------------------------------------------------------------------
  // Reference reading: one block per `Q:` line

  /** Index of the first `Q:` line, or `|ks|`. */
  function NextAsk(ks: seq<LineKind>): (j: nat)
    ensures j <= |ks|
    ensures forall i :: 0 <= i < j ==> !ks[i].Ask?
    ensures j < |ks| ==> ks[j].Ask?
  {
    if |ks| == 0 || ks[0].Ask? then 0 else 1 + NextAsk(ks[1..])
  }

  /** The questions as blocks: each `Q:` line with the option lines up to the
      next `Q:` line, kept when both are non-empty. Lines before the first
      `Q:` belong to no block. */
  function Blocks(ks: seq<LineKind>): seq<CliQuestion>
    decreases |ks|
  {
    if |ks| == 0 then []
    else if ks[0].Ask? then
      var e := NextAsk(ks[1..]);
      Flush(ks[0].text, AnswerValues(ks[1..][..e])) + Blocks(ks[1..][e..])
    else Blocks(ks[1..])
  }

  /** Number of `Q:` lines. */
  function AskCount(ks: seq<LineKind>): nat {
    if |ks| == 0 then 0 else (if ks[0].Ask? then 1 else 0) + AskCount(ks[1..])
  }

  // ---------------------------------------------------------------------------
  // The parser's loop, as a left fold

  /** The loop's state: `questions_list`, `current_question_text` (empty for
      `None`, which Python treats alike) and `current_options_list`. */
  datatype Acc = Acc(done: seq<CliQuestion>, current: string, options: seq<string>)

  const Start := Acc([], [], [])

  /** One line of the loop. */
  function Step(acc: Acc, k: LineKind): Acc {
    match k
    case Ask(t) => Acc(acc.done + Flush(acc.current, acc.options), t, [])
    case Answer(v) => if v != [] then acc.(options := acc.options + [v]) else acc
    case _ => acc
  }

  function Fold(acc: Acc, ks: seq<LineKind>): Acc
    decreases |ks|
  {
    if |ks| == 0 then acc else Fold(Step(acc, ks[0]), ks[1..])
  }

  /** The final check after the loop. */
  function Finish(acc: Acc): seq<CliQuestion> {
    acc.done + Flush(acc.current, acc.options)
  }

  lemma {:induction false} FoldAppend(acc: Acc, xs: seq<LineKind>, ys: seq<LineKind>)
    ensures Fold(acc, xs + ys) == Fold(Fold(acc, xs), ys)
    decreases |xs|
  {
    if |xs| > 0 {
      assert (xs + ys)[1..] == xs[1..] + ys;
      FoldAppend(Step(acc, xs[0]), xs[1..], ys);
    } else {
      assert xs + ys == ys;
    }
  }

  /** `Blocks` at a `Q:` line. */
  lemma BlocksAtAsk(ks: seq<LineKind>)
    requires |ks| > 0 && ks[0].Ask?
    ensures Blocks(ks) == Flush(ks[0].text, AnswerValues(ks[1..][..NextAsk(ks[1..])])) + Blocks(ks[1..][NextAsk(ks[1..])..])
  {
  }

  lemma FoldUnfold(acc: Acc, ks: seq<LineKind>)
    requires |ks| > 0
    ensures Fold(acc, ks) == Fold(Step(acc, ks[0]), ks[1..])
  {
  }

  /** What the loop yields from a given state: what is already done, then
      the current question with the options up to the next `Q:` line, then the
      blocks from there. */
  function Expected(acc: Acc, ks: seq<LineKind>): seq<CliQuestion> {
    var j := NextAsk(ks);
    acc.done + Flush(acc.current, acc.options + AnswerValues(ks[..j])) + Blocks(ks[j..])
  }

  lemma StepAtAsk(acc: Acc, k: LineKind)
    requires k.Ask?
    ensures Step(acc, k) == Acc(acc.done + Flush(acc.current, acc.options), k.text, [])
  {
  }

  lemma StepAtOther(acc: Acc, k: LineKind)
    requires !k.Ask?
    ensures Step(acc, k) == Acc(acc.done, acc.current, acc.options + AnswerValues([k]))
  {
    assert [k][1..] == [];
  }

  lemma NextAskAtOther(ks: seq<LineKind>)
    requires |ks| > 0 && !ks[0].Ask?
    ensures NextAsk(ks) == 1 + NextAsk(ks[1..])
  {
  }

  /** Cutting after the first element and `e` more. */
  lemma SliceAfterFirst(ks: seq<LineKind>, e: nat)
    requires e < |ks|
    ensures ks[..1 + e] == [ks[0]] + ks[1..][..e]
    ensures ks[1 + e..] == ks[1..][e..]
  {
  }

  /** At a `Q:` line the current question takes no more options. */
  lemma ExpectedBeforeAsk(acc: Acc, ks: seq<LineKind>)
    requires |ks| > 0 && ks[0].Ask?
    ensures Expected(acc, ks) == acc.done + Flush(acc.current, acc.options) + Blocks(ks)
  {
    assert NextAsk(ks) == 0;
    assert ks[..0] == [] && ks[0..] == ks;
    assert AnswerValues([]) == [];
    assert acc.options + [] == acc.options;
  }

  /** A state with no options yet collects just the answers up to the next `Q:` line. */
  lemma ExpectedFresh(done: seq<CliQuestion>, text: string, ks: seq<LineKind>)
    ensures Expected(Acc(done, text, []), ks)
         == done + Flush(text, AnswerValues(ks[..NextAsk(ks)])) + Blocks(ks[NextAsk(ks)..])
  {
    var vs := AnswerValues(ks[..NextAsk(ks)]);
    assert [] + vs == vs;
  }

  lemma ExpectedAtAsk(acc: Acc, ks: seq<LineKind>)
    requires |ks| > 0 && ks[0].Ask?
    ensures Expected(acc, ks) == Expected(Step(acc, ks[0]), ks[1..])
  {
    var rest := ks[1..];
    var e := NextAsk(rest);
    var head := acc.done + Flush(acc.current, acc.options);
    var block := Flush(ks[0].text, AnswerValues(rest[..e]));
    calc {
      Expected(acc, ks);
    == { ExpectedBeforeAsk(acc, ks); }
      head + Blocks(ks);
    == { BlocksAtAsk(ks); }
      head + (block + Blocks(rest[e..]));
    == { assert head + (block + Blocks(rest[e..])) == head + block + Blocks(rest[e..]); }
      head + block + Blocks(rest[e..]);
    == { ExpectedFresh(head, ks[0].text, rest); }
      Expected(Acc(head, ks[0].text, []), rest);
    == { StepAtAsk(acc, ks[0]); }
      Expected(Step(acc, ks[0]), rest);
    }
  }

  lemma ExpectedAtOther(acc: Acc, ks: seq<LineKind>)
    requires |ks| > 0 && !ks[0].Ask?
    ensures Expected(acc, ks) == Expected(Step(acc, ks[0]), ks[1..])
  {
    var rest := ks[1..];
    var e := NextAsk(rest);
    var first := AnswerValues([ks[0]]);
    var later := AnswerValues(rest[..e]);
    NextAskAtOther(ks);
    SliceAfterFirst(ks, e);
    AnswerValuesAppend([ks[0]], rest[..e]);
    StepAtOther(acc, ks[0]);
    assert acc.options + (first + later) == (acc.options + first) + later;
  }

  /** The fold from any state yields what `Expected` describes. */
  lemma {:induction false} FoldIsBlocks(acc: Acc, ks: seq<LineKind>)
    ensures Finish(Fold(acc, ks)) == Expected(acc, ks)
    decreases |ks|
  {
    if |ks| == 0 {
      assert acc.options + AnswerValues(ks[..0]) == acc.options;
    } else {
      FoldUnfold(acc, ks);
      FoldIsBlocks(Step(acc, ks[0]), ks[1..]);
      if ks[0].Ask? {
        ExpectedAtAsk(acc, ks);
      } else {
        ExpectedAtOther(acc, ks);
      }
    }
  }

  /** The blocks only depend on the text from the first `Q:` line on. */
  lemma {:induction false} BlocksSkipToAsk(ks: seq<LineKind>)
    ensures Blocks(ks[NextAsk(ks)..]) == Blocks(ks)
    decreases |ks|
  {
    if |ks| > 0 && !ks[0].Ask? {
      BlocksSkipToAsk(ks[1..]);
      assert ks[1..][NextAsk(ks[1..])..] == ks[NextAsk(ks)..];
    } else {
      assert ks[0..] == ks;
    }
  }

  /** The fold from the start computes the blocks. */
  lemma ParseIsBlocks(ks: seq<LineKind>)
    ensures Finish(Fold(Start, ks)) == Blocks(ks)
  {
    FoldIsBlocks(Start, ks);
    BlocksSkipToAsk(ks);
  }

  /** One turn of the loop keeps the outcome of the fold over the rest. */
  lemma FoldAt(before: Acc, after: Acc, ks: seq<LineKind>, i: nat)
    requires i < |ks| && after == Step(before, ks[i])
    ensures Finish(Fold(after, ks[i + 1..])) == Finish(Fold(before, ks[i..]))
  {
    assert ks[i..][1..] == ks[i + 1..];
  }

  /** `parse_questionnaire`: one pass over the lines, each line handled by
      `Step`, with the last question flushed at the end. */
  method ParseQuestionnaire(text: string) returns (questions: seq<CliQuestion>)
    ensures questions == Blocks(Kinds(Lines(text)))
  {
    var lines := Lines(text);
    ghost var ks := Kinds(lines);
    ghost var target := Finish(Fold(Start, ks));
    var acc := Start;
    var i := 0;
    while i < |lines|
      invariant 0 <= i <= |lines| == |ks|
      invariant Finish(Fold(acc, ks[i..])) == target
    {
      var kind := Classify(lines[i]);
      assert kind == ks[i];
      FoldAt(acc, Step(acc, kind), ks, i);
      acc := Step(acc, kind);
      i := i + 1;
    }
    assert ks[i..] == [];
    questions := Finish(acc);
    ParseIsBlocks(ks);
  }

  /** Every question has text and at least one option, and there are at most
      as many questions as `Q:` lines. */
  lemma {:induction false} BlocksShape(ks: seq<LineKind>)
    ensures |Blocks(ks)| <= AskCount(ks)
    ensures forall i :: 0 <= i < |Blocks(ks)| ==> Blocks(ks)[i].question != [] && |Blocks(ks)[i].options| >= 1
    decreases |ks|
  {
    if |ks| > 0 {
      var rest := ks[1..];
      if ks[0].Ask? {
        var e := NextAsk(rest);
        BlocksShape(rest[e..]);
        AskCountSplit(rest, e);
      } else {
        BlocksShape(rest);
      }
    }
  }

  /** Counting `Q:` lines on both sides of a cut. */
  lemma {:induction false} AskCountSplit(ks: seq<LineKind>, j: nat)
    requires j <= |ks|
    ensures AskCount(ks) == AskCount(ks[..j]) + AskCount(ks[j..])
    ensures j == NextAsk(ks) ==> AskCount(ks[..j]) == 0
    decreases j
  {
    if j > 0 {
      AskCountSplit(ks[1..], j - 1);
      assert ks[..j][1..] == ks[1..][..j - 1];
      assert ks[1..][j - 1..] == ks[j..];
    } else {
      assert ks[..0] == [] && ks[0..] == ks;
    }
  }

  /** Option lines before the first `Q:` line are discarded: lines without a
      `Q:` in front of the text change nothing. */
  lemma {:induction false} LeadingLinesDiscarded(pre: seq<LineKind>, ks: seq<LineKind>)
    requires forall i :: 0 <= i < |pre| ==> !pre[i].Ask?
    ensures Blocks(pre + ks) == Blocks(ks)
    decreases |pre|
  {
    if |pre| > 0 {
      assert (pre + ks)[1..] == pre[1..] + ks;
      LeadingLinesDiscarded(pre[1..], ks);
    } else {
      assert pre + ks == ks;
    }
  }

  /** Blank and unrecognised lines have no effect: removing one leaves the
      result unchanged. */
  lemma IgnoredLineRemovable(xs: seq<LineKind>, k: LineKind, ys: seq<LineKind>)
    requires k == Blank || k == Other || k == Answer([])
    ensures Blocks(xs + [k] + ys) == Blocks(xs + ys)
  {
    FoldAppend(Start, xs + [k], ys);
    FoldAppend(Start, xs, [k]);
    FoldAppend(Start, xs, ys);
    ParseIsBlocks(xs + [k] + ys);
    ParseIsBlocks(xs + ys);
  }

  // ---------------------------------------------------------------------------
  // Answers: an insertion-ordered dictionary

  datatype Entry = Entry(key: string, value: string)

  /** `user_preferences`: entries in insertion order. */
  type Prefs = seq<Entry>

  function Keys(p: Prefs): (ks: seq<string>)
    ensures |ks| == |p|
    ensures forall i :: 0 <= i < |p| ==> ks[i] == p[i].key
  {
    seq(|p|, i requires 0 <= i < |p| => p[i].key)
  }

  function Lookup(p: Prefs, key: string): Option<string> {
    if |p| == 0 then None else if p[0].key == key then Some(p[0].value) else Lookup(p[1..], key)
  }

  /** What storing `value` under `key` in `p` must give: the key reads back the
      value, every other key reads as before, an existing key keeps its place
      and a new key goes last, and no other entry appears. */
  ghost predicate IsPut(p: Prefs, key: string, value: string, r: Prefs) {
    && Lookup(r, key) == Some(value)
    && (forall k :: k != key ==> Lookup(r, k) == Lookup(p, k))
    && (key in Keys(p) ==> Keys(r) == Keys(p))
    && (key !in Keys(p) ==> Keys(r) == Keys(p) + [key])
    && (forall e :: e in r ==> e in p || e == Entry(key, value))
  }

  /** `p[key] = value`: an existing key keeps its place and gets the new value,
      a new key goes to the end. */
  function Put(p: Prefs, key: string, value: string): (r: Prefs)
    ensures IsPut(p, key, value, r)
  {
    if |p| == 0 then [Entry(key, value)]
    else if p[0].key == key then PutFirst(p, key, value); [Entry(key, value)] + p[1..]
    else
      var rest := Put(p[1..], key, value);
      PutCons(p, key, value, rest);
      [p[0]] + rest
  }

  lemma PutFirst(p: Prefs, key: string, value: string)
    requires |p| > 0 && p[0].key == key
    ensures IsPut(p, key, value, [Entry(key, value)] + p[1..])
  {
    var r := [Entry(key, value)] + p[1..];
    assert r[1..] == p[1..];
    assert Keys(r) == Keys(p);
    forall e | e in r ensures e in p || e == Entry(key, value) {
      if e != Entry(key, value) {
        assert e in p[1..];
      }
    }
  }

  /** Storing past a different first key keeps that first entry in front. */
  lemma PutCons(p: Prefs, key: string, value: string, rest: Prefs)
    requires |p| > 0 && p[0].key != key
    requires IsPut(p[1..], key, value, rest)
    ensures IsPut(p, key, value, [p[0]] + rest)
  {
    PutConsLookup(p, key, value, rest);
    PutConsKeys(p, key, rest);
    PutConsEntries(p, key, value, rest);
  }

  lemma PutConsLookup(p: Prefs, key: string, value: string, rest: Prefs)
    requires |p| > 0 && p[0].key != key
    requires Lookup(rest, key) == Some(value)
    requires forall k :: k != key ==> Lookup(rest, k) == Lookup(p[1..], k)
    ensures Lookup([p[0]] + rest, key) == Some(value)
    ensures forall k :: k != key ==> Lookup([p[0]] + rest, k) == Lookup(p, k)
  {
    var r := [p[0]] + rest;
    assert r[0] == p[0] && r[1..] == rest;
    forall k | k != key ensures Lookup(r, k) == Lookup(p, k) {
      if k != p[0].key {
        assert Lookup(r, k) == Lookup(rest, k);
        assert Lookup(p, k) == Lookup(p[1..], k);
      }
    }
  }

  /** The keys of a list are its first key followed by the keys of the rest. */
  lemma KeysCons(e: Entry, p: Prefs)
    ensures Keys([e] + p) == [e.key] + Keys(p)
  {
    var l, r := Keys([e] + p), [e.key] + Keys(p);
    assert |l| == |r|;
    forall i | 0 <= i < |l| ensures l[i] == r[i] {
      if i > 0 {
        assert ([e] + p)[i] == p[i - 1];
      }
    }
  }

  lemma PutConsKeys(p: Prefs, key: string, rest: Prefs)
    requires |p| > 0 && p[0].key != key
    requires key in Keys(p[1..]) ==> Keys(rest) == Keys(p[1..])
    requires key !in Keys(p[1..]) ==> Keys(rest) == Keys(p[1..]) + [key]
    ensures key in Keys(p) ==> Keys([p[0]] + rest) == Keys(p)
    ensures key !in Keys(p) ==> Keys([p[0]] + rest) == Keys(p) + [key]
  {
    KeysCons(p[0], p[1..]);
    assert [p[0]] + p[1..] == p;
    KeysCons(p[0], rest);
    assert key in Keys(p) <==> key in Keys(p[1..]);
    if key !in Keys(p[1..]) {
      assert [p[0].key] + (Keys(p[1..]) + [key]) == ([p[0].key] + Keys(p[1..])) + [key];
    }
  }

  lemma PutConsEntries(p: Prefs, key: string, value: string, rest: Prefs)
    requires |p| > 0
    requires forall e :: e in rest ==> e in p[1..] || e == Entry(key, value)
    ensures forall e :: e in [p[0]] + rest ==> e in p || e == Entry(key, value)
  {
    forall e | e in [p[0]] + rest ensures e in p || e == Entry(key, value) {
      if e != p[0] {
        assert e in rest;
        if e in p[1..] {
          assert p == [p[0]] + p[1..];
        }
      }
    }
  }

  /** Keys stay unique under `Put`. */
  lemma PutKeepsKeysDistinct(p: Prefs, key: string, value: string)
    requires Distinct(Keys(p))
    ensures Distinct(Keys(Put(p, key, value)))
  {
  }

  datatype ChoiceError = NotANumber | OutOfRange

  /** One answer to `Choose your preference (1-N)`: the typed text as a
      number, or `None` when `int()` raises `ValueError`. */
  function Choose(q: CliQuestion, prefs: Prefs, choice: Option<int>): (r: Result<Prefs, ChoiceError>)
    ensures r.Ok? <==> choice.Some? && 1 <= choice.value <= |q.options|
    ensures r == Err(NotANumber) <==> choice.None?
    ensures r.Ok? ==> Lookup(r.value, q.question) == Some(q.options[choice.value - 1])
    ensures r.Ok? ==> forall k :: k != q.question ==> Lookup(r.value, k) == Lookup(prefs, k)
  {
    match choice
    case None => Err(NotANumber)
    case Some(n) =>
      if 1 <= n <= |q.options| then Ok(Put(prefs, q.question, q.options[n - 1]))
      else Err(OutOfRange)
  }

  /** The question loop: each question asks until a choice is accepted,
      consuming one typed answer per attempt; `None` when the answers run out
      first. */
  function Interview(qs: seq<CliQuestion>, prefs: Prefs, answers: seq<Option<int>>): (r: Option<Prefs>)
    ensures r.Some? ==> forall e :: e in r.value ==>
      e in prefs || exists i :: 0 <= i < |qs| && qs[i].question == e.key && e.value in qs[i].options
    decreases |answers|
  {
    if |qs| == 0 then Some(prefs)
    else if |answers| == 0 then None
    else
      match Choose(qs[0], prefs, answers[0])
      case Ok(p) =>
        Interview(qs[1..], p, answers[1..])
      case Err(_) => Interview(qs, prefs, answers[1..])
  }

  /** A completed interview has an answer for every question. */
  lemma {:induction false} InterviewAnswersAll(qs: seq<CliQuestion>, prefs: Prefs, answers: seq<Option<int>>)
    ensures Interview(qs, prefs, answers).Some? ==>
      forall i :: 0 <= i < |qs| ==> Lookup(Interview(qs, prefs, answers).value, qs[i].question).Some?
    decreases |answers|
  {
    if |qs| > 0 && |answers| > 0 {
      match Choose(qs[0], prefs, answers[0])
      case Ok(p) =>
        InterviewAnswersAll(qs[1..], p, answers[1..]);
        InterviewKeeps(qs[1..], p, answers[1..], qs[0].question);
        assert forall i :: 1 <= i < |qs| ==> qs[i] == qs[1..][i - 1];
      case Err(_) =>
        InterviewAnswersAll(qs, prefs, answers[1..]);
    }
  }

  /** A key present before the remaining questions is still present after. */
  lemma {:induction false} InterviewKeeps(qs: seq<CliQuestion>, prefs: Prefs, answers: seq<Option<int>>, key: string)
    requires Lookup(prefs, key).Some?
    ensures Interview(qs, prefs, answers).Some? ==> Lookup(Interview(qs, prefs, answers).value, key).Some?
    decreases |answers|
  {
    if |qs| > 0 && |answers| > 0 {
      match Choose(qs[0], prefs, answers[0])
      case Ok(p) =>
        InterviewKeeps(qs[1..], p, answers[1..], key);
      case Err(_) =>
        InterviewKeeps(qs, prefs, answers[1..], key);
    }
  }

  /** The first line of the preference text. */
  function Header(query: string): string {
    "I am looking for a " + query + " with the following preferences:"
  }

  function EntryLines(p: Prefs): (ls: seq<string>)
    ensures |ls| == |p|
    ensures forall i :: 0 <= i < |p| ==> ls[i] == p[i].key + ": " + p[i].value
  {
    seq(|p|, i requires 0 <= i < |p| => p[i].key + ": " + p[i].value)
  }

  /** The message built from the answers. */
  function PreferenceText(query: string, p: Prefs): string {
    Header(query) + "\n" + Join(EntryLines(p), "\n")
  }

  /** Read line by line, the preference text is the header and then one
      `question: answer` line per answer in insertion order (or one empty line
      when there are no answers), provided nothing in it breaks a line. */
  lemma PreferenceLines(query: string, p: Prefs)
    requires '\n' !in query
    requires forall i :: 0 <= i < |p| ==> '\n' !in p[i].key && '\n' !in p[i].value
    ensures Lines(PreferenceText(query, p)) == [Header(query)] + (if |p| == 0 then [""] else EntryLines(p))
  {
    var ls := EntryLines(p);
    var all := [Header(query)] + (if |p| == 0 then [""] else ls);
    forall i | 0 <= i < |ls| ensures '\n' !in ls[i] {
      var l := ls[i];
      forall j | 0 <= j < |l| ensures l[j] != '\n' {
        if j < |p[i].key| { assert l[j] == p[i].key[j]; }
        else if j >= |p[i].key| + 2 { assert l[j] == p[i].value[j - |p[i].key| - 2]; }
      }
    }
    assert '\n' !in Header(query) by {
      var h := Header(query);
      forall j | 0 <= j < |h| ensures h[j] != '\n' {
        if 19 <= j < 19 + |query| { assert h[j] == query[j - 19]; }
      }
    }
    if |p| == 0 {
      assert PreferenceText(query, p) == Join(all, "\n");
    } else {
      JoinAppend([Header(query)], ls, "\n");
      assert PreferenceText(query, p) == Join(all, "\n");
    }
    LinesOfJoin(all);
  }
}
