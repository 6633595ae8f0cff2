/** The markdown-header parser of the second questionnaire page
    (`parseQuestionnaire` in `expertosy-web/src/components/QuestionnairePage.tsx`):
    sections start at headers such as `### 1.`, the first line of a section with
    its asterisks removed is the question, and every `- A)` ... `- D)` line of
    the section is an option. It never fails. */
module HeaderParser {
  import opened Results
  import opened Text
  import opened Lists
  import opened Sections

  /** The record the parser builds. The page's own `Question` interface calls
      the prompt `question` and the options `{ text }` records, but the parser
      fills a field `text` with plain strings. */
  datatype HeaderQuestion = HeaderQuestion(text: string, options: seq<string>)

  /** `(.+)` with no end anchor can start at `rest[j]`: a blank prefix and a
      first character that is not a line terminator. */
  predicate CanStartValue(rest: string, j: int) {
    0 <= j < |rest| && AllSpace(rest[..j]) && !IsLineTerminator(rest[j])
  }

  /** Position right after `-\s*[A-D])`, or 0 when the line does not start so.
      The blank run after `-` is taken whole: a letter cannot be blank. */
  function LabelEnd(line: string): (n: nat)
    ensures n <= |line|
    ensures n > 0 ==> n >= 3 && line[0] == '-' && line[n - 1] == ')' && 'A' <= line[n - 2] <= 'D'
  {
    if |line| == 0 || line[0] != '-' then 0
    else
      var p := 1 + Span(line[1..], IsSpace);
      if p + 1 < |line| && 'A' <= line[p] <= 'D' && line[p + 1] == ')' then p + 2 else 0
  }

  predicate NotLineTerminator(c: char) { !IsLineTerminator(c) }

  /** The option value of a line: the second group of `/^-\s*([A-D])\)\s*(.+)/`,
      trimmed. The greedy blank run is kept unless `(.+)` could not start after
      it, in which case the regex backs off to the last blank that is not a line
      terminator and the group is blank. */
  function OptionValue(line: string): (r: Option<string>)
    ensures r.Some? ==> LabelEnd(line) > 0
  {
    var n := LabelEnd(line);
    if n == 0 then None
    else
      var rest := line[n..];
      var w := Span(rest, IsSpace);
      if w < |rest| then
        var k := Span(rest[w..], NotLineTerminator);
        Some(Trim(rest[w..w + k]))
      else if exists j :: 0 <= j < |rest| && !IsLineTerminator(rest[j]) then Some([])
      else None
  }

  /** The computed value agrees with the regex: a labelled line yields an
      option exactly when `(.+)` can start somewhere after the label; the value
      is blank exactly when nothing but blanks follows the label. */
  lemma OptionValueIsRegex(line: string)
    requires LabelEnd(line) > 0
    ensures var rest := line[LabelEnd(line)..];
      OptionValue(line).Some? <==> exists j :: CanStartValue(rest, j)
    ensures var rest := line[LabelEnd(line)..];
      OptionValue(line).Some? ==> (OptionValue(line).value == [] <==> AllSpace(rest))
  {
    var n := LabelEnd(line);
    var rest := line[n..];
    var w := Span(rest, IsSpace);
    if w < |rest| {
      assert CanStartValue(rest, w);
      var k := Span(rest[w..], NotLineTerminator);
      var v := rest[w..w + k];
      assert k >= 1;
      assert v[0] == rest[w];
      assert !AllSpace(rest);
      assert Trim(v) != [] by {
        TrimAllSpace(v);
      }
    } else {
      assert AllSpace(rest);
      if exists j :: CanStartValue(rest, j) {
        var j :| CanStartValue(rest, j);
        assert !IsLineTerminator(rest[j]);
      }
      if exists j :: 0 <= j < |rest| && !IsLineTerminator(rest[j]) {
        var j :| 0 <= j < |rest| && !IsLineTerminator(rest[j]);
        assert CanStartValue(rest, j);
      }
    }
  }

  /** One section (the text after a header): trimmed, its first line with the
      asterisks removed and trimmed as the question, the values of all its
      option lines in order (blank ones included) as the options; kept only
      with a question and at least one option. */
  function ParseSection(raw: string): (r: Option<HeaderQuestion>)
    ensures var lines := Lines(Trim(raw));
      r.Some? <==> Trim(Unstarred(lines[0])) != [] && |FilterMap(lines, OptionValue)| > 0
    ensures r.Some? ==> var lines := Lines(Trim(raw));
      r.value.text == Trim(Unstarred(lines[0])) && r.value.options == FilterMap(lines, OptionValue)
    ensures r.Some? ==> '*' !in r.value.text && IsTrimmed(r.value.text)
  {
    var section := Trim(raw);
    var lines := Lines(section);
    var text := Trim(Unstarred(lines[0]));
    NoneInTrim(Unstarred(lines[0]), {'*'});
    var options := FilterMap(lines, OptionValue);
    if text != [] && |options| > 0 then Some(HeaderQuestion(text, options)) else None
  }

  /** The sections after the headers; the text before the first header is
      skipped. */
  function HeaderSections(text: string): seq<string> {
    Split(HeaderNumber, text)[1..]
  }

  function ParseSections(sections: seq<string>): seq<HeaderQuestion> {
    FilterMap(sections, ParseSection)
  }

  /** `parseQuestionnaire`. */
  function Parse(text: string): (r: seq<HeaderQuestion>)
    ensures |r| <= |HeaderSections(text)|
    ensures forall i :: 0 <= i < |r| ==> r[i].text != [] && |r[i].options| > 0
  {
    var sections := HeaderSections(text);
    var r := ParseSections(sections);
    forall i | 0 <= i < |r| ensures r[i].text != [] && |r[i].options| > 0 {
      var k :| 0 <= k < |sections| && ParseSection(sections[k]) == Some(r[i]);
    }
    r
  }

  /** Text before the first header never yields a question: a preamble in
      which no header starts can be put in front of any text without changing
      the result. */
  lemma PreambleIgnored(preamble: string, text: string)
    requires forall i {:trigger MatchLen(HeaderNumber, (preamble + text)[i..])} ::
      0 <= i < |preamble| ==> MatchLen(HeaderNumber, (preamble + text)[i..]) == 0
    ensures Parse(preamble + text) == Parse(text)
  {
    var s := preamble + text;
    var m := |preamble|;
    NoMatchInAt(HeaderNumber, s, m);
    SplitSkipsUnmatched(HeaderNumber, s, m, "");
    assert s[m..] == text && "" + s[..m] == preamble;
    LaterPiecesIgnoreCur(HeaderNumber, text, preamble, "");
  }

  /** In particular, any preamble without `#` is skipped. */
  lemma PreambleWithoutHashIgnored(preamble: string, text: string)
    requires '#' !in preamble
    ensures Parse(preamble + text) == Parse(text)
  {
    var s := preamble + text;
    forall i | 0 <= i < |preamble| ensures MatchLen(HeaderNumber, s[i..]) == 0 {
      assert s[i..][0] == preamble[i];
    }
    PreambleIgnored(preamble, text);
  }

  /** Questions come out in header order, each section on its own. */
  lemma SectionsIndependent(xs: seq<string>, ys: seq<string>)
    ensures ParseSections(xs + ys) == ParseSections(xs) + ParseSections(ys)
  {
    FilterMapAppend(xs, ys, ParseSection);
  }

  /** Options are neither de-duplicated nor capped: every option line counts,
      the same line twice gives the same value twice. */
  lemma RepeatedOptionLinesKept(lines: seq<string>, line: string)
    requires OptionValue(line).Some?
    ensures FilterMap(lines + [line, line], OptionValue)
         == FilterMap(lines, OptionValue) + [OptionValue(line).value, OptionValue(line).value]
  {
    FilterMapAppend(lines, [line, line], OptionValue);
    FilterMapAll([line, line], OptionValue, [OptionValue(line).value, OptionValue(line).value]);
  }
}
