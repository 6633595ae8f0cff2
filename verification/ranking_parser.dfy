/** The strict parser of the ranking questionnaire (`parseQuestionnaire` in
    both revisions of `RankingQuestionnaire.tsx`, which are identical): numbered
    sections, each kept only when it has a line containing `?` and exactly four
    options labelled `A`-`D`. */
module RankingParser {
  import opened Results
  import opened Text
  import opened Lists
  import opened Sections

  /** A parsed question; each option is kept as its text (the source wraps it
      in a `{ text }` record). */
  datatype RankingQuestion = RankingQuestion(question: string, options: seq<string>)

  /** `/^[A-D][\.\)]/`: a capital `A`-`D` followed by `.` or `)`. */
  predicate IsOptionLine(line: string) {
    |line| >= 2 && 'A' <= line[0] <= 'D' && (line[1] == '.' || line[1] == ')')
  }

  /** The option text of a (trimmed) line: the label and the whitespace after it
      removed, then trimmed; `None` for a line that is not an option. */
  function OptionOf(line: string): (r: Option<string>)
    ensures r.Some? <==> IsOptionLine(line)
    ensures r.Some? ==> IsTrimmed(r.value)
  {
    if IsOptionLine(line) then Some(Trim(TrimStart(line[2..]))) else None
  }

  /** Index of the first line containing `?`, or `|lines|` when there is none. */
  function QuestionIndex(lines: seq<string>): (k: nat)
    ensures k <= |lines|
    ensures forall j :: 0 <= j < k ==> '?' !in lines[j]
    ensures k < |lines| ==> '?' in lines[k]
  {
    if |lines| == 0 || '?' in lines[0] then 0 else 1 + QuestionIndex(lines[1..])
  }

  /** One section: its question is the first line containing `?`, its options
      every option line in order (no de-duplication); kept only with exactly
      four options. */
  function ParseSection(section: string): (r: Option<RankingQuestion>)
    ensures var lines := TrimmedLines(section);
      r.Some? <==> (exists j :: 0 <= j < |lines| && '?' in lines[j]) && |FilterMap(lines, OptionOf)| == 4
    ensures r.Some? ==> |r.value.options| == 4 && '?' in r.value.question && r.value.question != []
    ensures r.Some? ==> var lines := TrimmedLines(section);
      r.value.options == FilterMap(lines, OptionOf)
      && (exists k :: 0 <= k < |lines| && r.value.question == lines[k]
            && forall j :: 0 <= j < k ==> '?' !in lines[j])
  {
    var lines := TrimmedLines(section);
    var k := QuestionIndex(lines);
    if k == |lines| then None
    else
      var options := FilterMap(lines, OptionOf);
      if |options| == 4 then
        TrimOfTrimmed(lines[k]);
        Some(RankingQuestion(Trim(lines[k]), options))
      else None
  }

  /** `text.split(/\d+\.\s+/).filter(Boolean)`. */
  function SectionsOf(text: string): seq<string> {
    DropEmpty(Split(NumberDotSpace, text))
  }

  function ParseSections(sections: seq<string>): seq<RankingQuestion> {
    FilterMap(sections, ParseSection)
  }

  /** `parseQuestionnaire(text)`. */
  function Parse(text: string): (r: seq<RankingQuestion>)
    ensures |r| <= |SectionsOf(text)|
    ensures forall i :: 0 <= i < |r| ==> |r[i].options| == 4 && '?' in r[i].question
  {
    var secs := SectionsOf(text);
    var r := ParseSections(secs);
    forall i | 0 <= i < |r| ensures |r[i].options| == 4 && '?' in r[i].question {
      var k :| 0 <= k < |secs| && ParseSection(secs[k]) == Some(r[i]);
    }
    r
  }

  /** Sections are parsed independently: splitting the list of sections in two
      splits the questions the same way. */
  lemma SectionsIndependent(xs: seq<string>, ys: seq<string>)
    ensures ParseSections(xs + ys) == ParseSections(xs) + ParseSections(ys)
  {
    FilterMapAppend(xs, ys, ParseSection);
  }

  /** Option lines are not de-duplicated: a repeated option line yields the
      same text twice. */
  lemma RepeatedOptionsKept(line: string)
    requires IsOptionLine(line)
    ensures FilterMap([line, line], OptionOf) == [OptionOf(line).value, OptionOf(line).value]
  {
    FilterMapAll([line, line], OptionOf, [OptionOf(line).value, OptionOf(line).value]);
  }

  /** The option text of `A) text` (or `A.text`, or with more space after the
      label) is `text` itself. */
  lemma OptionOfLabelled(letter: char, mark: char, gap: string, text: string)
    requires 'A' <= letter <= 'D' && (mark == '.' || mark == ')')
    requires AllSpace(gap) && IsTrimmed(text)
    ensures OptionOf([letter, mark] + gap + text) == Some(text)
  {
    var line := [letter, mark] + gap + text;
    assert line[2..] == gap + text;
    SpanConcat(gap, text, IsSpace);
    if text != [] {
      assert TrimStart(gap + text) == text;
      TrimOfTrimmed(text);
    } else {
      assert gap + text == gap;
      assert TrimStart(gap + text) == [];
    }
  }

  /** Text the parser passes through untouched: non-empty, trimmed, on one line
      and free of digits, so that no `N. ` inside it starts a new section. */
  predicate Plain(s: string) {
    s != [] && IsTrimmed(s) && forall i :: 0 <= i < |s| ==> s[i] != '\n' && !IsDigit(s[i])
  }

  /** A question in the shape the ranking prompt asks for. */
  predicate WellFormed(q: RankingQuestion) {
    Plain(q.question) && '?' in q.question && !IsOptionLine(q.question)
    && |q.options| == 4 && forall i :: 0 <= i < 4 ==> Plain(q.options[i])
  }

  /** A question number: one or more digits. */
  predicate Numeral(n: string) {
    n != [] && forall i :: 0 <= i < |n| ==> IsDigit(n[i])
  }

  /** The label of the `i`-th option: `A`, `B`, `C`, `D`, ... */
  function Letter(i: nat): char {
    (('A' as int) + i % 26) as char
  }

  /** `A) o0`, `B) o1`, ... */
  function OptionLines(options: seq<string>): (r: seq<string>)
    ensures |r| == |options|
    ensures forall i :: 0 <= i < |r| ==> r[i] == [Letter(i), ')', ' '] + options[i]
  {
    seq(|options|, i requires 0 <= i < |options| => [Letter(i), ')', ' '] + options[i])
  }

  function QuestionLines(q: RankingQuestion): seq<string>
  {
    [q.question] + OptionLines(q.options)
  }

  /** A question and its labelled options, one per line. */
  function SectionText(q: RankingQuestion): string
  {
    Join(QuestionLines(q), "\n")
  }

  /** The text the ranking prompt asks for: `N. ` before each question, and a
      blank line between questions. */
  function Render(qs: seq<RankingQuestion>, numbers: seq<string>): string
    requires |numbers| == |qs|
    decreases |qs|
  {
    if |qs| == 0 then ""
    else if |qs| == 1 then numbers[0] + ". " + SectionText(qs[0])
    else numbers[0] + ". " + SectionText(qs[0]) + "\n\n" + Render(qs[1..], numbers[1..])
  }

  /** The sections `Render` produces, after the empty one before the first number. */
  function Pieces(qs: seq<RankingQuestion>): (r: seq<string>)
    ensures |r| == |qs|
    ensures forall i :: 0 <= i < |r| ==> r[i] == SectionText(qs[i]) || r[i] == SectionText(qs[i]) + "\n\n"
    decreases |qs|
  {
    if |qs| == 0 then []
    else if |qs| == 1 then [SectionText(qs[0])]
    else [SectionText(qs[0]) + "\n\n"] + Pieces(qs[1..])
  }

  lemma QuestionLinesClean(q: RankingQuestion)
    requires WellFormed(q)
    ensures var ls := QuestionLines(q);
      forall k, i :: 0 <= k < |ls| && 0 <= i < |ls[k]| ==> ls[k][i] != '\n' && !IsDigit(ls[k][i])
    ensures forall k :: 0 <= k < |QuestionLines(q)| ==> QuestionLines(q)[k] != [] && IsTrimmed(QuestionLines(q)[k])
  {
    var ls := QuestionLines(q);
    forall k, i | 0 <= k < |ls| && 0 <= i < |ls[k]| ensures ls[k][i] != '\n' && !IsDigit(ls[k][i]) {
      if k > 0 && i >= 3 {
        assert ls[k][i] == q.options[k - 1][i - 3];
      }
    }
  }

  /** The first character of a section is the first character of its question. */
  lemma SectionTextStart(q: RankingQuestion)
    requires WellFormed(q)
    ensures SectionText(q) != [] && SectionText(q)[0] == q.question[0]
  {
    var ls := QuestionLines(q);
    assert Join(ls, "\n") == ls[0] + "\n" + Join(ls[1..], "\n");
  }

  lemma SectionTextNoDigits(q: RankingQuestion)
    requires WellFormed(q)
    ensures forall i :: 0 <= i < |SectionText(q)| ==> !IsDigit(SectionText(q)[i])
  {
    QuestionLinesClean(q);
    JoinAvoids(QuestionLines(q), "\n", IsDigit);
  }

  /** The trimmed non-empty lines of a rendered section, with or without the
      blank line after it, are the question and its labelled options. */
  lemma SectionLines(q: RankingQuestion, tail: string)
    requires WellFormed(q)
    requires tail == "" || tail == "\n\n"
    ensures TrimmedLines(SectionText(q) + tail) == QuestionLines(q)
  {
    QuestionLinesClean(q);
    if tail == "" {
      assert SectionText(q) + tail == SectionText(q);
      CleanLinesRoundTrip(QuestionLines(q));
    } else {
      CleanLinesBlankRoundTrip(QuestionLines(q));
    }
  }

  /** The option texts of a rendered question are its options. */
  lemma OptionsOfQuestionLines(q: RankingQuestion)
    requires WellFormed(q)
    ensures FilterMap(QuestionLines(q), OptionOf) == q.options
  {
    var os := OptionLines(q.options);
    forall i | 0 <= i < 4 ensures OptionOf(os[i]) == Some(q.options[i]) {
      OptionOfLabelled(Letter(i), ')', " ", q.options[i]);
      assert [Letter(i), ')'] + " " + q.options[i] == [Letter(i), ')', ' '] + q.options[i];
    }
    FilterMapAll(os, OptionOf, q.options);
    FilterMapAppend([q.question], os, OptionOf);
    FilterMapSingle(q.question, OptionOf);
  }

  /** A well-formed section parses to exactly its question. */
  lemma ParseWellFormedSection(q: RankingQuestion, tail: string)
    requires WellFormed(q)
    requires tail == "" || tail == "\n\n"
    ensures ParseSection(SectionText(q) + tail) == Some(q)
  {
    SectionLines(q, tail);
    var ls := QuestionLines(q);
    assert QuestionIndex(ls) == 0;
    OptionsOfQuestionLines(q);
    TrimOfTrimmed(q.question);
  }

  /** `N. ` before text that starts with a non-blank is one whole delimiter. */
  lemma NumberMatch(n: string, rest: string)
    requires Numeral(n)
    requires rest != [] && !IsSpace(rest[0])
    ensures MatchLen(NumberDotSpace, n + ". " + rest) == |n| + 2
    ensures (n + ". " + rest)[|n| + 2..] == rest
  {
    var s := n + ". " + rest;
    assert s == n + (". " + rest);
    SpanConcat(n, ". " + rest, IsDigit);
    assert s[|n| + 1..] == " " + rest;
    SpanConcat(" ", rest, IsSpace);
  }

  /** No number can start inside a rendered section. */
  lemma SectionNoStarters(q: RankingQuestion, tail: string)
    requires WellFormed(q)
    requires tail == "" || tail == "\n\n"
    ensures var p := SectionText(q) + tail;
      forall i :: 0 <= i < |p| ==> !CanStart(NumberDotSpace, p[i])
  {
    SectionTextNoDigits(q);
    var s0 := SectionText(q);
    var p := s0 + tail;
    forall i | 0 <= i < |p| ensures !CanStart(NumberDotSpace, p[i]) {
      if i < |s0| { assert p[i] == s0[i]; }
    }
  }

  /** The text after the first section of a rendered questionnaire. */
  function RenderAfter(qs: seq<RankingQuestion>, numbers: seq<string>): string
    requires |qs| >= 1 && |numbers| == |qs|
  {
    if |qs| == 1 then "" else Render(qs[1..], numbers[1..])
  }

  function Gap(qs: seq<RankingQuestion>): string {
    if |qs| == 1 then "" else "\n\n"
  }

  lemma RenderUnfold(qs: seq<RankingQuestion>, numbers: seq<string>)
    requires |qs| >= 1 && |numbers| == |qs|
    ensures Render(qs, numbers) == numbers[0] + ". " + ((SectionText(qs[0]) + Gap(qs)) + RenderAfter(qs, numbers))
  {
  }

  /** The first number ends the (empty) piece before it, and the first section
      is carried into the next piece. */
  lemma RenderHead(qs: seq<RankingQuestion>, numbers: seq<string>, cur: string)
    requires |qs| >= 1 && |numbers| == |qs|
    requires WellFormed(qs[0]) && Numeral(numbers[0])
    ensures SplitFrom(NumberDotSpace, Render(qs, numbers), cur)
         == [cur] + SplitFrom(NumberDotSpace, RenderAfter(qs, numbers), SectionText(qs[0]) + Gap(qs))
  {
    var d := NumberDotSpace;
    var p := SectionText(qs[0]) + Gap(qs);
    var after := RenderAfter(qs, numbers);
    var rest := p + after;
    SectionTextStart(qs[0]);
    assert rest[0] == SectionText(qs[0])[0];
    NumberMatch(numbers[0], rest);
    RenderUnfold(qs, numbers);
    var s := Render(qs, numbers);
    UnfoldAtMatch(d, s, cur);
    SectionNoStarters(qs[0], Gap(qs));
    SplitSkipsNonStarters(d, p, after, "");
    assert "" + p == p;
  }

  /** Splitting a rendered questionnaire on its numbers gives one piece per
      question after the (empty) text before the first number. */
  lemma {:induction false} RenderSplits(qs: seq<RankingQuestion>, numbers: seq<string>, cur: string)
    requires |qs| >= 1 && |numbers| == |qs|
    requires forall i :: 0 <= i < |qs| ==> WellFormed(qs[i])
    requires forall i :: 0 <= i < |numbers| ==> Numeral(numbers[i])
    ensures SplitFrom(NumberDotSpace, Render(qs, numbers), cur) == [cur] + Pieces(qs)
    decreases |qs|
  {
    RenderHead(qs, numbers, cur);
    var p := SectionText(qs[0]) + Gap(qs);
    if |qs| == 1 {
      assert SplitFrom(NumberDotSpace, "", p) == [p];
      assert p == SectionText(qs[0]);
    } else {
      RenderSplits(qs[1..], numbers[1..], p);
    }
  }

  /** A questionnaire in the requested shape parses back to its questions:
      every question is recovered, in order, with its four options. */
  lemma ParseRendered(qs: seq<RankingQuestion>, numbers: seq<string>)
    requires |numbers| == |qs|
    requires forall i :: 0 <= i < |qs| ==> WellFormed(qs[i])
    requires forall i :: 0 <= i < |numbers| ==> Numeral(numbers[i])
    ensures Parse(Render(qs, numbers)) == qs
  {
    if |qs| > 0 {
      RenderSplits(qs, numbers, "");
      var ps := Pieces(qs);
      DropEmptyAppend([""], ps);
      forall i | 0 <= i < |ps| ensures ps[i] != [] {
        SectionTextStart(qs[i]);
      }
      DropEmptyNoEmpties(ps);
      forall i | 0 <= i < |ps| ensures ParseSection(ps[i]) == Some(qs[i]) {
        if ps[i] == SectionText(qs[i]) {
          ParseWellFormedSection(qs[i], "");
          assert SectionText(qs[i]) + "" == ps[i];
        } else {
          ParseWellFormedSection(qs[i], "\n\n");
        }
      }
      FilterMapAll(ps, ParseSection, qs);
    }
  }

  /** Text free of line breaks and digits. */
  predicate Clean(s: string) {
    forall i :: 0 <= i < |s| ==> s[i] != '\n' && !IsDigit(s[i])
  }

  lemma PlainConcat(a: string, b: string)
    requires a != [] && b != [] && !IsSpace(a[0]) && !IsSpace(b[|b| - 1])
    requires Clean(a) && Clean(b)
    ensures Plain(a + b)
  {
    var s := a + b;
    forall i | 0 <= i < |s| ensures s[i] != '\n' && !IsDigit(s[i]) {
      if i < |a| { assert s[i] == a[i]; } else { assert s[i] == b[i - |a|]; }
    }
    assert s[|s| - 1] == b[|b| - 1];
  }

  /** The first question of the component's test data (long texts are written
      in parts). */
  const SampleFirst := RankingQuestion(
    "What is your primary concern " + "when choosing between these products?",
    ["Price and value for money", "Performance and speed",
     "Build quality and durability", "Brand reputation and support"])

  /** The second question of the component's test data. */
  const SampleSecond := RankingQuestion(
    "How important is portability " + "vs performance for your needs?",
    ["Maximum performance, " + "weight not important",
     "Balance of both portability " + "and performance",
     "Highly portable, " + "moderate performance",
     "Ultra-portable, basic " + "performance needs"])

  lemma FirstQuestionPlain()
    ensures Plain(SampleFirst.question)
  {
    var a, b := "What is your primary concern ", "when choosing between these products?";
    assert Clean(a);
    assert Clean(b);
    PlainConcat(a, b);
  }

  lemma FirstOptionsPlain()
    ensures forall i :: 0 <= i < 4 ==> Plain(SampleFirst.options[i])
  {
    assert Plain("Price and value for money");
    assert Plain("Performance and speed");
    assert Plain("Build quality and durability");
    assert Plain("Brand reputation and support");
  }

  lemma SampleFirstWellFormed()
    ensures WellFormed(SampleFirst)
  {
    FirstQuestionPlain();
    FirstOptionsPlain();
    var q := SampleFirst.question;
    assert q[|q| - 1] == '?';
  }

  lemma SecondQuestionPlain()
    ensures Plain(SampleSecond.question)
  {
    var a, b := "How important is portability ", "vs performance for your needs?";
    assert Clean(a);
    assert Clean(b);
    PlainConcat(a, b);
  }

  lemma SecondOptionPlain0() ensures Plain(SampleSecond.options[0]) {
    assert Clean("Maximum performance, ") && Clean("weight not important");
    PlainConcat("Maximum performance, ", "weight not important");
  }

  lemma SecondOptionPlain1() ensures Plain(SampleSecond.options[1]) {
    assert Clean("Balance of both portability ") && Clean("and performance");
    PlainConcat("Balance of both portability ", "and performance");
  }

  lemma SecondOptionPlain2() ensures Plain(SampleSecond.options[2]) {
    assert Clean("Highly portable, ") && Clean("moderate performance");
    PlainConcat("Highly portable, ", "moderate performance");
  }

  lemma SecondOptionPlain3() ensures Plain(SampleSecond.options[3]) {
    assert Clean("Ultra-portable, basic ") && Clean("performance needs");
    PlainConcat("Ultra-portable, basic ", "performance needs");
  }

  lemma SecondOptionsPlain()
    ensures forall i :: 0 <= i < 4 ==> Plain(SampleSecond.options[i])
  {
    SecondOptionPlain0();
    SecondOptionPlain1();
    SecondOptionPlain2();
    SecondOptionPlain3();
  }

  lemma SampleSecondWellFormed()
    ensures WellFormed(SampleSecond)
  {
    SecondQuestionPlain();
    SecondOptionsPlain();
    var q := SampleSecond.question;
    assert q[|q| - 1] == '?';
  }

  /** Two well-formed questions numbered `1.` and `2.` parse back. */
  lemma ParseTwo(q0: RankingQuestion, q1: RankingQuestion)
    requires WellFormed(q0) && WellFormed(q1)
    ensures Parse(Render([q0, q1], ["1", "2"])) == [q0, q1]
  {
    var qs, ns := [q0, q1], ["1", "2"];
    assert Numeral(ns[0]) && Numeral(ns[1]);
    ParseRendered(qs, ns);
  }

  /** The test data, numbered `1.` and `2.`, parses to its two questions with
      their four options each. */
  lemma SampleParses()
    ensures Parse(Render([SampleFirst, SampleSecond], ["1", "2"])) == [SampleFirst, SampleSecond]
  {
    SampleFirstWellFormed();
    SampleSecondWellFormed();
    ParseTwo(SampleFirst, SampleSecond);
  }
}
