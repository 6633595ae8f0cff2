/** The loose parser of the questionnaire page (`parseQuestionnaire` in
    `frontend/src/components/QuestionnairePage.tsx`): sections cut at every
    `N.`, boilerplate sections skipped, the first line as the prompt with bold
    markers removed, later `A)`-`D)` lines as options, de-duplicated, each split
    into a text and an optional description; at least two options per question
    and at least one question overall. */
module LooseParser {
  import opened Results
  import opened Text
  import opened Lists
  import opened Sections
  import opened Categories

  /** The separator class of the option splitter as the file spells it: `-`,
      `‚`, `Ä`, `ì` and `:`. The three middle characters are an en dash
      (U+2013) whose UTF-8 bytes were decoded as Mac Roman; the class does not
      contain the en dash itself. */
  const Separators: set<char> := {'-', '\U{201A}', '\U{00C4}', '\U{00EC}', ':'}

  /** An answer option: the text before the first separator, the rest as a
      description when it is not blank, and the icon chosen from the text. */
  datatype Choice = Choice(text: string, description: Option<string>, icon: Icon)

  datatype Question = Question(question: string, options: seq<Choice>, category: Category, helpText: string)

  /** The three errors `parseQuestionnaire` throws. */
  datatype ParseError = NoText | NoSections | NoQuestions

  /** Sections that carry the model's closing remarks or instructions. */
  predicate IsBoilerplate(section: string) {
    Contains(section, "Thank you") || Contains(section, "### Comprehensive") || Contains(section, "Please select")
  }

  /** No two adjacent `*`. */
  predicate NoDoubleStar(s: string) {
    forall i :: 0 <= i < |s| - 1 ==> !(s[i] == '*' && s[i + 1] == '*')
  }

  /** A global replace of the pattern `\*\*` by nothing: every `**`, scanning
      left to right, removed. */
  function StripBold(s: string): (r: string)
    ensures |r| <= |s|
    ensures NoDoubleStar(r)
    ensures Unstarred(r) == Unstarred(s)
    ensures s != [] && !(|s| >= 2 && s[0] == '*' && s[1] == '*') ==> r != [] && r[0] == s[0]
    decreases |s|
  {
    if |s| == 0 then []
    else if |s| >= 2 && s[0] == '*' && s[1] == '*' then
      assert Unstarred(s) == Unstarred(s[2..]) by { assert s[1..][1..] == s[2..]; }
      StripBold(s[2..])
    else
      var rest := StripBold(s[1..]);
      assert Unstarred([s[0]] + rest) == Unstarred([s[0]]) + Unstarred(rest) by {
        assert ([s[0]] + rest)[1..] == rest;
      }
      [s[0]] + rest
  }

  /** Text without `**` is left as it is, so removing bold markers twice is
      removing them once. */
  lemma {:induction false} StripBoldKeepsPlain(s: string)
    requires NoDoubleStar(s)
    ensures StripBold(s) == s
    decreases |s|
  {
    if |s| > 0 {
      assert NoDoubleStar(s[1..]) by {
        forall i | 0 <= i < |s[1..]| - 1 ensures !(s[1..][i] == '*' && s[1..][i + 1] == '*') {
          assert s[1..][i] == s[i + 1] && s[1..][i + 1] == s[i + 2];
        }
      }
      StripBoldKeepsPlain(s[1..]);
      assert [s[0]] + s[1..] == s;
    }
  }

  lemma StripBoldIdempotent(s: string)
    ensures StripBold(StripBold(s)) == StripBold(s)
  {
    StripBoldKeepsPlain(StripBold(s));
  }

  /** A run of `k` asterisks. */
  function Stars(k: nat): (r: string)
    ensures |r| == k && forall i :: 0 <= i < k ==> r[i] == '*'
  {
    seq(k, _ => '*')
  }

  /** Removing every `**` from the left, pair by pair: a run of `k`
      asterisks keeps one asterisk when `k` is odd and none when it is even. */
  lemma {:induction false} StripBoldStars(k: nat, b: string)
    requires b == [] || b[0] != '*'
    ensures StripBold(Stars(k) + b) == Stars(k % 2) + StripBold(b)
    decreases k
  {
    var s := Stars(k) + b;
    if k == 0 {
      assert s == b;
    } else if k == 1 {
      assert s[1..] == b;
      assert Stars(1) == ['*'];
    } else {
      assert s[0] == '*' && s[1] == '*';
      assert s[2..] == Stars(k - 2) + b;
      assert k % 2 == (k - 2) % 2;
      StripBoldStars(k - 2, b);
    }
  }

  /** Outside asterisk runs the text is kept: stripping distributes over a
      cut that does not fall after an asterisk. */
  lemma {:induction false} StripBoldAppend(a: string, t: string)
    requires a == [] || a[|a| - 1] != '*'
    ensures StripBold(a + t) == StripBold(a) + StripBold(t)
    decreases |a|
  {
    var s := a + t;
    if a == [] {
      assert s == t;
    } else if |a| >= 2 && a[0] == '*' && a[1] == '*' {
      assert s[2..] == a[2..] + t;
      StripBoldAppend(a[2..], t);
    } else {
      assert s[1..] == a[1..] + t;
      StripBoldAppend(a[1..], t);
    }
  }

  /** `"a**b"` loses its bold marker and nothing else. */
  lemma StripBoldExample()
    ensures StripBold("a**b") == "ab"
  {
    StripBoldAppend("a", "**b");
    StripBoldStars(2, "b");
  }

  /** A text on one line: no line terminator, which `.` does not match. */
  predicate OnOneLine(s: string) {
    forall i :: 0 <= i < |s| ==> !IsLineTerminator(s[i])
  }

  /** `\s*(.+)$` matches the whole of `rest`: some blank prefix is followed by a
      non-empty remainder on one line. */
  predicate TailMatches(rest: string) {
    exists j :: 0 <= j < |rest| && AllSpace(rest[..j]) && OnOneLine(rest[j..])
  }

  predicate HasChoiceLabel(line: string) {
    |line| >= 2 && 'A' <= line[0] <= 'D' && line[1] == ')'
  }

  /** The second group of `/^([A-D]\))\s*(.+)$/` on `line`, trimmed; the
      backtracking search is replaced by its outcome: the blank run is taken
      whole unless that leaves nothing for `(.+)`. */
  function MatchChoice(line: string): (r: Option<string>)
  {
    if HasChoiceLabel(line) && |line| > 2 then
      var rest := line[2..];
      var w := Span(rest, IsSpace);
      var j := if w == |rest| then |rest| - 1 else w;
      if OnOneLine(rest[j..]) then Some(Trim(rest)) else None
    else None
  }

  /** The greedy computation agrees with the regex: a line yields an option
      exactly when it has an `A)`-`D)` label and the rest matches `\s*(.+)$`,
      and the option is the rest trimmed. */
  lemma MatchChoiceIsRegex(line: string)
    ensures MatchChoice(line).Some? <==> HasChoiceLabel(line) && TailMatches(line[2..])
    ensures MatchChoice(line).Some? ==> MatchChoice(line).value == Trim(line[2..])
  {
    if HasChoiceLabel(line) {
      var rest := line[2..];
      if |rest| > 0 {
        var w := Span(rest, IsSpace);
        var j0 := if w == |rest| then |rest| - 1 else w;
        assert AllSpace(rest[..j0]);
        if TailMatches(rest) {
          var j :| 0 <= j < |rest| && AllSpace(rest[..j]) && OnOneLine(rest[j..]);
          assert j <= w;
          forall i | 0 <= i < |rest[j0..]| ensures !IsLineTerminator(rest[j0..][i]) {
            assert rest[j0..][i] == rest[j..][i + j0 - j];
          }
        }
      } else {
        assert !TailMatches(rest);
      }
    }
  }

  /** The distinct non-empty option texts of the lines after the prompt, each
      at its first occurrence. */
  function ChoiceTexts(lines: seq<string>): (r: seq<string>)
    ensures Distinct(r)
    ensures forall i :: 0 <= i < |r| ==> r[i] != []
  {
    var found := FilterMap(lines, MatchChoice);
    var nonEmpty := DropEmpty(found);
    var r := DedupFrom(nonEmpty, {});
    forall i | 0 <= i < |r| ensures r[i] != [] {
      assert r[i] in nonEmpty;
    }
    r
  }

  /** The option texts are exactly the non-empty texts some line yields. */
  lemma ChoiceTextsMembers(lines: seq<string>)
    ensures forall x :: x in ChoiceTexts(lines) <==>
      x != [] && exists k :: 0 <= k < |lines| && MatchChoice(lines[k]) == Some(x)
  {
    var found := FilterMap(lines, MatchChoice);
    FilterMapMembers(lines, MatchChoice);
    forall x ensures x in DropEmpty(found) <==> x in found && x != [] {
      if x in found && x != [] {
        var i :| 0 <= i < |found| && found[i] == x;
      }
    }
  }

  /** An option line whose text was already seen adds nothing. */
  lemma RepeatedChoiceDropped(lines: seq<string>, line: string)
    requires MatchChoice(line).Some? && MatchChoice(line).value in ChoiceTexts(lines)
    ensures ChoiceTexts(lines + [line]) == ChoiceTexts(lines)
  {
    var v := MatchChoice(line).value;
    FilterMapAppend(lines, [line], MatchChoice);
    FilterMapSingle(line, MatchChoice);
    var found := FilterMap(lines, MatchChoice);
    DropEmptyAppend(found, [v]);
    DedupFromSnoc(DropEmpty(found), v, {});
  }

  /** A new option text is appended after the earlier ones. */
  lemma NewChoiceAppended(lines: seq<string>, line: string)
    requires MatchChoice(line).Some? && MatchChoice(line).value != []
    requires MatchChoice(line).value !in ChoiceTexts(lines)
    ensures ChoiceTexts(lines + [line]) == ChoiceTexts(lines) + [MatchChoice(line).value]
  {
    var v := MatchChoice(line).value;
    FilterMapAppend(lines, [line], MatchChoice);
    FilterMapSingle(line, MatchChoice);
    var found := FilterMap(lines, MatchChoice);
    DropEmptyAppend(found, [v]);
    DedupFromSnoc(DropEmpty(found), v, {});
    assert v !in DropEmpty(found);
  }

  /** The description from the pieces after the first separator: each
      trimmed, joined with one space, trimmed again; absent when blank. */
  function DescriptionOf(after: seq<string>): (d: Option<string>)
    ensures d.Some? ==> d.value != [] && IsTrimmed(d.value)
  {
    var rest := Trim(Join(TrimAll(after), " "));
    if rest == [] then None else Some(rest)
  }

  /** The description is absent exactly when every later piece is blank. */
  lemma DescriptionOfNone(after: seq<string>)
    ensures DescriptionOf(after).None? <==> AllBlank(after)
  {
    var parts := TrimAll(after);
    TrimAllSpace(Join(parts, " "));
    JoinAllSpace(parts);
    forall k | 0 <= k < |after| ensures AllSpace(parts[k]) <==> AllSpace(after[k]) {
      AllSpaceTrim(after[k]);
    }
  }

  /** Pieces without separators give a description without separators. */
  lemma DescriptionOfAvoids(after: seq<string>)
    requires forall k :: 0 <= k < |after| ==> NoneIn(after[k], Separators)
    ensures DescriptionOf(after).Some? ==> NoneIn(DescriptionOf(after).value, Separators)
  {
    var parts := TrimAll(after);
    forall k | 0 <= k < |after| ensures NoneIn(parts[k], Separators) {
      NoneInTrim(after[k], Separators);
    }
    JoinAvoids(parts, " ", c => c in Separators);
    NoneInTrim(Join(parts, " "), Separators);
  }

  /** Two non-blank later pieces give both, trimmed, with one space between. */
  lemma DescriptionOfTwo(b: string, e: string)
    requires Trim(b) != [] && Trim(e) != []
    ensures DescriptionOf([b, e]) == Some(Trim(b) + " " + Trim(e))
  {
    var joined := Trim(b) + " " + Trim(e);
    assert TrimAll([b, e]) == [Trim(b), Trim(e)];
    assert Join([Trim(b), Trim(e)], " ") == joined;
    assert joined[0] == Trim(b)[0] && joined[|joined| - 1] == Trim(e)[|Trim(e)| - 1];
    TrimOfTrimmed(joined);
  }

  /** One non-blank later piece is the description, trimmed. */
  lemma DescriptionOfOne(b: string)
    requires Trim(b) != []
    ensures DescriptionOf([b]) == Some(Trim(b))
  {
    assert TrimAll([b]) == [Trim(b)];
    TrimOfTrimmed(Trim(b));
  }

  /** `optionText.split(/[-‚Äì:]/).map(part => part.trim())`, then the first
      part as the text and the others joined by a space, trimmed, as the
      description (absent when blank). */
  function SplitChoice(raw: string): (c: Choice)
    ensures NoneIn(c.text, Separators)
    ensures c.text == Trim(raw[..IndexIn(raw, Separators)])
    ensures NoneIn(raw, Separators) ==> c.text == Trim(raw) && c.description == None
    ensures c.description.Some? ==> c.description.value != [] && IsTrimmed(c.description.value)
    ensures c.description.Some? ==> NoneIn(c.description.value, Separators)
    ensures c.icon == IconOf(c.text)
  {
    var pieces := SplitAny(raw, Separators);
    NoneInTrim(pieces[0], Separators);
    DescriptionOfAvoids(pieces[1..]);
    var text := Trim(pieces[0]);
    Choice(text, DescriptionOf(pieces[1..]), IconOf(text))
  }

  /** From a separator on, blanks and separators only. */
  lemma BlankOrInFrom(raw: string, i: nat)
    requires i < |raw| && raw[i] in Separators
    ensures BlankOrIn(raw[i + 1..], Separators) <==>
      forall k :: i <= k < |raw| ==> IsSpace(raw[k]) || raw[k] in Separators
  {
    var tail := raw[i + 1..];
    if BlankOrIn(tail, Separators) {
      forall k | i < k < |raw| ensures IsSpace(raw[k]) || raw[k] in Separators {
        assert raw[k] == tail[k - i - 1];
      }
    }
    if forall k :: i <= k < |raw| ==> IsSpace(raw[k]) || raw[k] in Separators {
      forall k | 0 <= k < |tail| ensures IsSpace(tail[k]) || tail[k] in Separators {
        assert tail[k] == raw[i + 1 + k];
      }
    }
  }

  /** The pieces after the first separator are blank exactly when nothing
      but blanks and separators follows it. */
  lemma LaterPiecesBlank(raw: string)
    ensures AllBlank(SplitAny(raw, Separators)[1..]) <==>
      forall k :: IndexIn(raw, Separators) <= k < |raw| ==> IsSpace(raw[k]) || raw[k] in Separators
  {
    var i := IndexIn(raw, Separators);
    if i < |raw| {
      SplitAnyRest(raw, Separators);
      SplitAnyBlank(raw[i + 1..], Separators);
      BlankOrInFrom(raw, i);
    }
  }

  /** The description is absent exactly when nothing but blanks and
      separators follows the first separator (or there is none). */
  lemma SplitChoiceNoDescription(raw: string)
    ensures SplitChoice(raw).description.None? <==>
      forall k :: IndexIn(raw, Separators) <= k < |raw| ==> IsSpace(raw[k]) || raw[k] in Separators
  {
    DescriptionOfNone(SplitAny(raw, Separators)[1..]);
    LaterPiecesBlank(raw);
  }

  /** Splitting at the only separator of a text gives the two sides. */
  lemma SplitAtSeparator(text: string, c: char, tail: string)
    requires c in Separators
    requires NoneIn(text, Separators) && NoneIn(tail, Separators)
    ensures SplitAny(text + [c] + tail, Separators) == [text, tail]
  {
    SplitAnyAt(text, c, tail, Separators);
  }

  /** With two separators, the description is the two later parts, each
      trimmed, joined by one space. */
  lemma SplitChoiceThreePieces(a: string, c1: char, b: string, c2: char, e: string)
    requires c1 in Separators && c2 in Separators
    requires NoneIn(a, Separators) && NoneIn(b, Separators) && NoneIn(e, Separators)
    requires Trim(b) != [] && Trim(e) != []
    ensures SplitChoice(a + [c1] + b + [c2] + e)
         == Choice(Trim(a), Some(Trim(b) + " " + Trim(e)), IconOf(Trim(a)))
  {
    var raw := a + [c1] + b + [c2] + e;
    assert raw == a + [c1] + (b + [c2] + e);
    SplitAnyAt(a, c1, b + [c2] + e, Separators);
    SplitAtSeparator(b, c2, e);
    assert SplitAny(raw, Separators)[1..] == [b, e];
    DescriptionOfTwo(b, e);
  }

  /** An option made of a text, one separator and a description splits back
      into the two. */
  lemma SplitChoiceOfParts(raw: string, text: string, c: char, tail: string, description: string)
    requires raw == text + [c] + tail
    requires c in Separators
    requires NoneIn(text, Separators) && IsTrimmed(text)
    requires NoneIn(description, Separators) && IsTrimmed(description) && description != []
    requires tail == description || tail == " " + description
    ensures SplitChoice(raw) == Choice(text, Some(description), IconOf(text))
  {
    SpacedNoneIn(tail, description);
    SplitAtSeparator(text, c, tail);
    TrimOfTrimmed(text);
    TrimOfTrimmed(description);
    if tail != description { TrimLeadingSpace(description); }
    SplitChoiceTwoPieces(raw, text, tail);
  }

  /** A description with or without one leading space has no separator. */
  lemma SpacedNoneIn(tail: string, description: string)
    requires NoneIn(description, Separators)
    requires tail == description || tail == " " + description
    ensures NoneIn(tail, Separators)
  {
    forall k | 0 <= k < |tail| ensures tail[k] !in Separators {
      if tail != description && k > 0 { assert tail[k] == description[k - 1]; }
    }
  }

  /** An option cut into two pieces has the first as its text and the second
      as its description. */
  lemma SplitChoiceTwoPieces(raw: string, a: string, b: string)
    requires SplitAny(raw, Separators) == [a, b]
    requires Trim(b) != []
    ensures SplitChoice(raw) == Choice(Trim(a), Some(Trim(b)), IconOf(Trim(a)))
  {
    assert SplitAny(raw, Separators)[1..] == [b];
    DescriptionOfOne(b);
  }

  /** A `text: description` option splits back into its two parts. */
  lemma SplitChoiceTextColon(text: string, description: string)
    requires NoneIn(text, Separators) && IsTrimmed(text)
    requires NoneIn(description, Separators) && IsTrimmed(description) && description != []
    ensures SplitChoice(text + ": " + description) == Choice(text, Some(description), IconOf(text))
  {
    SplitChoiceOfParts(text + ": " + description, text, ':', " " + description, description);
  }

  /** A hyphenated word is cut at its hyphen: `Ultra-portable` becomes the
      text `Ultra` with the description `portable`. */
  lemma HyphenSplitsWord()
    ensures SplitChoice("Ultra-portable").text == "Ultra"
    ensures SplitChoice("Ultra-portable").description == Some("portable")
  {
    assert NoneIn("Ultra", Separators) && NoneIn("portable", Separators);
    SplitChoiceOfParts("Ultra-portable", "Ultra", '-', "portable", "portable");
  }

  /** The prompt: the first line with its bold markers removed, trimmed. */
  function Prompt(lines: seq<string>): string
    requires |lines| >= 1
  {
    Trim(StripBold(lines[0]))
  }

  /** The options built from distinct raw option texts. */
  function Choices(texts: seq<string>): (r: seq<Choice>)
    ensures |r| == |texts|
    ensures forall i :: 0 <= i < |texts| ==> r[i] == SplitChoice(texts[i])
  {
    seq(|texts|, i requires 0 <= i < |texts| => SplitChoice(texts[i]))
  }

  /** A section yields a question: it is not boilerplate, not blank, has a
      non-empty prompt and at least two distinct options after it. */
  predicate Accepted(section: string) {
    !IsBoilerplate(section) && Trim(section) != []
    && var lines := TrimmedLines(section);
       |lines| >= 1 && Prompt(lines) != [] && |ChoiceTexts(lines[1..])| >= 2
  }

  /** One section (already trimmed) to at most one question. */
  function ParseSection(section: string): (r: Option<Question>)
    ensures r.Some? <==> Accepted(section)
    ensures r.Some? ==> var lines := TrimmedLines(section);
      |lines| >= 1 && r.value.question == Prompt(lines) && r.value.options == Choices(ChoiceTexts(lines[1..]))
    ensures r.Some? ==>
      r.value.category == CategoryOf(r.value.question) && r.value.helpText == HelpText(r.value.question)
  {
    if IsBoilerplate(section) || Trim(section) == [] then None
    else
      var lines := TrimmedLines(section);
      if |lines| == 0 then None
      else
        var prompt := Prompt(lines);
        var texts := ChoiceTexts(lines[1..]);
        if prompt == [] || |texts| < 2 then None
        else Some(Question(prompt, Choices(texts), CategoryOf(prompt), HelpText(prompt)))
  }

  /** Boilerplate never yields a question, and an accepted question has a
      prompt and at least two options. */
  lemma ParseSectionShape(section: string)
    ensures IsBoilerplate(section) ==> ParseSection(section) == None
    ensures ParseSection(section).Some? ==>
      ParseSection(section).value.question != [] && |ParseSection(section).value.options| >= 2
  {
  }

  /** `text.split(/(?:\d+\.)/g).filter(Boolean).map(section => section.trim())`. */
  function SectionsOf(text: string): seq<string> {
    TrimAll(DropEmpty(Split(NumberDot, text)))
  }

  function ParseSections(sections: seq<string>): seq<Question> {
    FilterMap(sections, ParseSection)
  }

  /** `parseQuestionnaire`: the questions of the accepted sections in order, or
      the error it throws. */
  function Parse(text: string): (r: Result<seq<Question>, ParseError>)
    ensures r == Err(NoText) <==> text == []
    ensures r == Err(NoSections) <==> text != [] && SectionsOf(text) == []
    ensures r == Err(NoQuestions) <==> text != [] && SectionsOf(text) != [] && ParseSections(SectionsOf(text)) == []
    ensures r.Ok? ==> r.value == ParseSections(SectionsOf(text)) && |r.value| >= 1
  {
    if text == [] then Err(NoText)
    else
      var sections := SectionsOf(text);
      if |sections| == 0 then Err(NoSections)
      else
        var qs := ParseSections(sections);
        if |qs| == 0 then Err(NoQuestions) else Ok(qs)
  }

  lemma SectionQuestionsShape(sections: seq<string>)
    ensures var qs := ParseSections(sections);
      forall i :: 0 <= i < |qs| ==> qs[i].question != [] && |qs[i].options| >= 2
  {
    var qs := ParseSections(sections);
    forall i | 0 <= i < |qs| ensures qs[i].question != [] && |qs[i].options| >= 2 {
      var k :| 0 <= k < |sections| && ParseSection(sections[k]) == Some(qs[i]);
      ParseSectionShape(sections[k]);
    }
  }

  /** Every question the parser returns has a prompt and at least two
      options. */
  lemma ParsedQuestionsShape(text: string)
    requires Parse(text).Ok?
    ensures forall i :: 0 <= i < |Parse(text).value| ==>
      Parse(text).value[i].question != [] && |Parse(text).value[i].options| >= 2
  {
    SectionQuestionsShape(SectionsOf(text));
  }

  /** Sections are parsed independently and questions keep section order. */
  lemma SectionsIndependent(xs: seq<string>, ys: seq<string>)
    ensures ParseSections(xs + ys) == ParseSections(xs) + ParseSections(ys)
  {
    FilterMapAppend(xs, ys, ParseSection);
  }

  /** Boilerplate sections contribute nothing: a text whose sections are all
      boilerplate is rejected rather than parsed to no questions. */
  lemma {:induction false} BoilerplateContributesNothing(sections: seq<string>)
    requires forall i :: 0 <= i < |sections| ==> IsBoilerplate(sections[i])
    ensures ParseSections(sections) == []
  {
    if |sections| > 0 {
      ParseSectionShape(sections[0]);
      BoilerplateContributesNothing(sections[1..]);
    }
  }

  lemma OnlyBoilerplateRejected(text: string)
    requires text != []
    requires forall i :: 0 <= i < |SectionsOf(text)| ==> IsBoilerplate(SectionsOf(text)[i])
    ensures Parse(text).Err?
  {
    BoilerplateContributesNothing(SectionsOf(text));
  }
}
