/** Cutting a questionnaire into sections with a regular-expression `split`,
    and cutting a section into cleaned lines.

    JavaScript's `String.prototype.split(regex)` scans left to right; at each
    position it tries the regex, and on a match it ends the current piece there
    and resumes after the match. The three delimiters used by the parsers are
    written out as explicit matchers below; none of them can match the empty
    string, so the empty-match rules of `split` never apply. */
module Sections {
  import opened Text
  import opened Lists

  /** The delimiter regular expressions of the three JavaScript parsers. */
  datatype Delimiter =
    | NumberDotSpace   // /\d+\.\s+/       (both RankingQuestionnaire revisions)
    | NumberDot        // /(?:\d+\.)/g     (QuestionnairePage, loose parser)
    | HeaderNumber     // /#+\s*\d+\.\s*/  (QuestionnairePage, markdown-header parser)

  /** The only characters a match of `d` can start with. */
  predicate CanStart(d: Delimiter, c: char) {
    if d.HeaderNumber? then c == '#' else IsDigit(c)
  }

  predicate IsHash(c: char) { c == '#' }

  /** Length of the match of `d` at the start of `s`, or 0 when it does not match.
      Greedy runs are taken whole: backtracking into `#+`, `\s*` or `\d+` can
      never help, because the character after a shorter run belongs to the same
      class and so cannot be the `\d`, `.` or end the regex needs next. */
  function MatchLen(d: Delimiter, s: string): (n: nat)
    ensures n <= |s|
    ensures n > 0 ==> CanStart(d, s[0])
    ensures n > 0 && !d.HeaderNumber? ==> n >= 2 && IsDigit(s[0])
  {
    match d
    case NumberDotSpace => NumberDotSpaceLen(s)
    case NumberDot => NumberDotLen(s)
    case HeaderNumber => HeaderNumberLen(s)
  }

  /** Length of the match of `\d+\.\s+` at the start of `s`, or 0. */
  function NumberDotSpaceLen(s: string): nat {
    var k := Span(s, IsDigit);
    if 0 < k < |s| && s[k] == '.' then
      var w := Span(s[k + 1..], IsSpace);
      if w > 0 then k + 1 + w else 0
    else 0
  }

  /** Length of the match of `\d+\.` at the start of `s`, or 0. */
  function NumberDotLen(s: string): nat {
    var k := Span(s, IsDigit);
    if 0 < k < |s| && s[k] == '.' then k + 1 else 0
  }

  /** Length of the match of `#+\s*\d+\.\s*` at the start of `s`, or 0. */
  function HeaderNumberLen(s: string): nat {
    var h := Span(s, IsHash);
    if h == 0 then 0
    else
      var a := h + Span(s[h..], IsSpace);
      var m := DotAfterDigits(s[a..]);
      if m > 0 then a + m else 0
  }

  /** Length of the match of `\d+\.\s*` at the start of `u`, or 0. */
  function DotAfterDigits(u: string): (m: nat)
    ensures m <= |u|
    ensures m > 0 ==> IsDigit(u[0])
  {
    var k := Span(u, IsDigit);
    if 0 < k < |u| && u[k] == '.' then k + 1 + Span(u[k + 1..], IsSpace) else 0
  }

  /** `(cur + s).split(d)` where `cur` is the part of the current piece already
      scanned. */
  function SplitFrom(d: Delimiter, s: string, cur: string): (r: seq<string>)
    ensures |r| >= 1
    decreases |s|
  {
    if |s| == 0 then [cur]
    else
      var n := MatchLen(d, s);
      if n > 0 then [cur] + SplitFrom(d, s[n..], "")
      else SplitFrom(d, s[1..], cur + [s[0]])
  }

  /** `s.split(d)`. */
  function Split(d: Delimiter, s: string): seq<string> {
    SplitFrom(d, s, "")
  }

  /** The delimiter texts `Split` removes, in order. */
  function Delimiters(d: Delimiter, s: string): seq<string>
    decreases |s|
  {
    if |s| == 0 then []
    else
      var n := MatchLen(d, s);
      if n > 0 then [s[..n]] + Delimiters(d, s[n..])
      else Delimiters(d, s[1..])
  }

  /** `ps[0] + ms[0] + ps[1] + ms[1] + ... + ps[|ms|]` when `|ps| == |ms| + 1`. */
  function Interleave(ps: seq<string>, ms: seq<string>): string
  {
    if |ps| == 0 then ""
    else if |ms| == 0 then ps[0]
    else ps[0] + ms[0] + Interleave(ps[1..], ms[1..])
  }

  /** Nothing is lost by splitting: putting the removed delimiters back
      between the pieces rebuilds the text, and every delimiter is a match. */
  lemma {:induction false} SplitReassembles(d: Delimiter, s: string, cur: string)
    ensures |SplitFrom(d, s, cur)| == |Delimiters(d, s)| + 1
    ensures Interleave(SplitFrom(d, s, cur), Delimiters(d, s)) == cur + s
    decreases |s|
  {
    if |s| == 0 {
      assert cur + s == cur;
    } else if MatchLen(d, s) > 0 {
      SplitReassembles(d, s[MatchLen(d, s)..], "");
      ReassembleAfterMatch(d, s, cur);
    } else {
      SplitReassembles(d, s[1..], cur + [s[0]]);
      ReassembleAfterSkip(d, s, cur);
    }
  }

  /** The step of `SplitReassembles` where a delimiter matches at the start of `s`. */
  lemma ReassembleAfterMatch(d: Delimiter, s: string, cur: string)
    requires |s| > 0 && MatchLen(d, s) > 0
    requires var n := MatchLen(d, s);
      |SplitFrom(d, s[n..], "")| == |Delimiters(d, s[n..])| + 1 &&
      Interleave(SplitFrom(d, s[n..], ""), Delimiters(d, s[n..])) == "" + s[n..]
    ensures |SplitFrom(d, s, cur)| == |Delimiters(d, s)| + 1
    ensures Interleave(SplitFrom(d, s, cur), Delimiters(d, s)) == cur + s
  {
    var n := MatchLen(d, s);
    UnfoldAtMatch(d, s, cur);
    InterleaveCons(cur, s[..n], SplitFrom(d, s[n..], ""), Delimiters(d, s[n..]));
    ConcatAfterMatch(cur, s, n);
  }

  /** The step of `SplitReassembles` where no delimiter matches at the start of `s`. */
  lemma ReassembleAfterSkip(d: Delimiter, s: string, cur: string)
    requires |s| > 0 && MatchLen(d, s) == 0
    requires |SplitFrom(d, s[1..], cur + [s[0]])| == |Delimiters(d, s[1..])| + 1
    requires Interleave(SplitFrom(d, s[1..], cur + [s[0]]), Delimiters(d, s[1..])) == cur + [s[0]] + s[1..]
    ensures |SplitFrom(d, s, cur)| == |Delimiters(d, s)| + 1
    ensures Interleave(SplitFrom(d, s, cur), Delimiters(d, s)) == cur + s
  {
    UnfoldAtSkip(d, s, cur);
    ConcatAfterSkip(cur, s);
  }

  lemma UnfoldAtMatch(d: Delimiter, s: string, cur: string)
    requires |s| > 0 && MatchLen(d, s) > 0
    ensures SplitFrom(d, s, cur) == [cur] + SplitFrom(d, s[MatchLen(d, s)..], "")
    ensures Delimiters(d, s) == [s[..MatchLen(d, s)]] + Delimiters(d, s[MatchLen(d, s)..])
  {
  }

  lemma UnfoldAtSkip(d: Delimiter, s: string, cur: string)
    requires |s| > 0 && MatchLen(d, s) == 0
    ensures SplitFrom(d, s, cur) == SplitFrom(d, s[1..], cur + [s[0]])
    ensures Delimiters(d, s) == Delimiters(d, s[1..])
  {
  }

  lemma ConcatAfterMatch(cur: string, s: string, n: nat)
    requires n <= |s|
    ensures cur + s[..n] + ("" + s[n..]) == cur + s
  {
    assert s[..n] + s[n..] == s;
  }

  lemma ConcatAfterSkip(cur: string, s: string)
    requires |s| > 0
    ensures cur + [s[0]] + s[1..] == cur + s
  {
  }

  lemma InterleaveCons(p: string, m: string, ps: seq<string>, ms: seq<string>)
    ensures Interleave([p] + ps, [m] + ms) == p + m + Interleave(ps, ms)
  {
    assert ([p] + ps)[1..] == ps;
    assert ([m] + ms)[1..] == ms;
  }

  /** A prefix of `s` spans as far as `s` does, up to its own length. */
  lemma {:induction false} SpanPrefix(s: string, m: nat, p: char -> bool)
    requires m <= |s|
    ensures Span(s[..m], p) == if Span(s, p) < m then Span(s, p) else m
    decreases m
  {
    if m > 0 && p(s[0]) {
      assert s[..m][1..] == s[1..][..m - 1];
      SpanPrefix(s[1..], m - 1, p);
    }
  }

  lemma MatchPrefixNumberDotSpace(s: string)
    requires MatchLen(NumberDotSpace, s) > 0
    ensures MatchLen(NumberDotSpace, s[..MatchLen(NumberDotSpace, s)]) == MatchLen(NumberDotSpace, s)
  {
    var n := MatchLen(NumberDotSpace, s);
    var t := s[..n];
    var k := Span(s, IsDigit);
    var w := Span(s[k + 1..], IsSpace);
    assert n == k + 1 + w;
    SpanPrefix(s, n, IsDigit);
    assert t[k] == '.';
    assert t[k + 1..] == s[k + 1..][..w];
    SpanPrefix(s[k + 1..], w, IsSpace);
  }

  lemma MatchPrefixNumberDot(s: string)
    requires MatchLen(NumberDot, s) > 0
    ensures MatchLen(NumberDot, s[..MatchLen(NumberDot, s)]) == MatchLen(NumberDot, s)
  {
    var n := MatchLen(NumberDot, s);
    var k := Span(s, IsDigit);
    assert n == k + 1;
    SpanPrefix(s, n, IsDigit);
    assert s[..n][k] == '.';
  }

  lemma DotAfterDigitsPrefix(u: string)
    requires DotAfterDigits(u) > 0
    ensures DotAfterDigits(u[..DotAfterDigits(u)]) == DotAfterDigits(u)
  {
    var m := DotAfterDigits(u);
    var k := Span(u, IsDigit);
    var w := Span(u[k + 1..], IsSpace);
    assert m == k + 1 + w;
    SpanPrefix(u, m, IsDigit);
    assert u[..m][k] == '.';
    assert u[..m][k + 1..] == u[k + 1..][..w];
    SpanPrefix(u[k + 1..], w, IsSpace);
  }

  /** A header match read off its parts: hashes, blanks, then `\d+\.\s*`. */
  lemma HeaderMatchOfParts(t: string, h: nat, sp: nat, m: nat)
    requires 0 < h == Span(t, IsHash)
    requires sp == Span(t[h..], IsSpace)
    requires 0 < m == DotAfterDigits(t[h + sp..])
    ensures HeaderNumberLen(t) == h + sp + m
  {
    assert t[h + Span(t[h..], IsSpace)..] == t[h + sp..];
  }

  /** Cutting `s` after a run it spans leaves that run, from `i` on, unchanged. */
  lemma SpanOfPrefixAt(s: string, i: nat, n: nat, p: char -> bool)
    requires i <= |s| && i + Span(s[i..], p) < n <= |s|
    ensures Span(s[..n][i..], p) == Span(s[i..], p)
  {
    assert s[..n][i..] == s[i..][..n - i];
    SpanPrefix(s[i..], n - i, p);
  }

  /** Cutting `u` after its `\d+\.\s*` match leaves the match. */
  lemma DotAfterDigitsOfPrefixAt(s: string, a: nat, n: nat)
    requires a <= |s| && n == a + DotAfterDigits(s[a..]) && n > a
    ensures DotAfterDigits(s[..n][a..]) == n - a
  {
    assert s[..n][a..] == s[a..][..n - a];
    DotAfterDigitsPrefix(s[a..]);
  }

  /** The prefix a header match covers, given by its parts, matches whole. */
  lemma HeaderPrefixOfParts(s: string, h: nat, sp: nat, m: nat)
    requires 0 < h == Span(s, IsHash)
    requires sp == Span(s[h..], IsSpace)
    requires 0 < m == DotAfterDigits(s[h + sp..])
    ensures HeaderNumberLen(s[..h + sp + m]) == h + sp + m
  {
    var n := h + sp + m;
    assert s[..n][0..] == s[..n] && s[0..] == s;
    SpanOfPrefixAt(s, 0, n, IsHash);
    SpanOfPrefixAt(s, h, n, IsSpace);
    DotAfterDigitsOfPrefixAt(s, h + sp, n);
    HeaderMatchOfParts(s[..n], h, sp, m);
  }

  lemma HeaderNumberLenPrefix(s: string)
    requires HeaderNumberLen(s) > 0
    ensures HeaderNumberLen(s[..HeaderNumberLen(s)]) == HeaderNumberLen(s)
  {
    var h := Span(s, IsHash);
    var sp := Span(s[h..], IsSpace);
    var m := DotAfterDigits(s[h + sp..]);
    assert s[h + Span(s[h..], IsSpace)..] == s[h + sp..];
    assert 0 < h && 0 < m && HeaderNumberLen(s) == h + sp + m;
    assert s[..HeaderNumberLen(s)] == s[..h + sp + m];
    HeaderPrefixOfParts(s, h, sp, m);
  }

  lemma MatchPrefixHeaderNumber(s: string)
    requires MatchLen(HeaderNumber, s) > 0
    ensures MatchLen(HeaderNumber, s[..MatchLen(HeaderNumber, s)]) == MatchLen(HeaderNumber, s)
  {
    HeaderNumberLenPrefix(s);
  }

  /** A match, cut out of its text, is still a match of the same length:
      what follows it does not take part in it. */
  lemma MatchPrefix(d: Delimiter, s: string)
    requires MatchLen(d, s) > 0
    ensures MatchLen(d, s[..MatchLen(d, s)]) == MatchLen(d, s)
  {
    match d
    case NumberDotSpace => MatchPrefixNumberDotSpace(s);
    case NumberDot => MatchPrefixNumberDot(s);
    case HeaderNumber => MatchPrefixHeaderNumber(s);
  }

  /** Every removed delimiter is a non-empty match of `d`: `d` matches it
      whole. */
  lemma {:induction false} DelimitersAreMatches(d: Delimiter, s: string)
    ensures forall k :: 0 <= k < |Delimiters(d, s)| ==>
      |Delimiters(d, s)[k]| > 0 && MatchLen(d, Delimiters(d, s)[k]) == |Delimiters(d, s)[k]|
    decreases |s|
  {
    if |s| > 0 {
      var n := MatchLen(d, s);
      if n > 0 {
        DelimitersAreMatches(d, s[n..]);
        MatchPrefix(d, s);
        UnfoldAtMatch(d, s, "");
      } else {
        DelimitersAreMatches(d, s[1..]);
        UnfoldAtSkip(d, s, "");
      }
    }
  }

  /** No match of `d` starts at any of the first `m` positions of `s`. */
  ghost predicate NoMatchIn(d: Delimiter, s: string, m: nat)
    requires m <= |s|
    decreases m
  {
    m == 0 || (MatchLen(d, s) == 0 && NoMatchIn(d, s[1..], m - 1))
  }

  /** `NoMatchIn` says, position by position, that no match starts there. */
  lemma {:induction false} NoMatchInAt(d: Delimiter, s: string, m: nat)
    requires m <= |s|
    ensures NoMatchIn(d, s, m) <==> forall i {:trigger MatchLen(d, s[i..])} :: 0 <= i < m ==> MatchLen(d, s[i..]) == 0
    decreases m
  {
    if m > 0 {
      NoMatchInAt(d, s[1..], m - 1);
      if NoMatchIn(d, s, m) {
        forall i | 0 <= i < m ensures MatchLen(d, s[i..]) == 0 {
          if i == 0 {
            assert s[0..] == s;
          } else {
            DropDrop(s, 1, i - 1);
          }
        }
      } else if MatchLen(d, s) != 0 {
        assert s[0..] == s;
      } else {
        var j :| 0 <= j < m - 1 && MatchLen(d, s[1..][j..]) != 0;
        DropDrop(s, 1, j);
      }
    }
  }

  lemma SkipOneMore(cur: string, s: string, m: nat)
    requires 0 < m <= |s|
    ensures s[1..][m - 1..] == s[m..]
    ensures cur + [s[0]] + s[1..][..m - 1] == cur + s[..m]
  {
    assert s[..m] == [s[0]] + s[1..][..m - 1];
  }

  /** Characters at which no match starts are carried into the current piece. */
  lemma {:induction false} SplitSkipsUnmatched(d: Delimiter, s: string, m: nat, cur: string)
    requires m <= |s| && NoMatchIn(d, s, m)
    ensures SplitFrom(d, s, cur) == SplitFrom(d, s[m..], cur + s[..m])
    decreases m
  {
    if m == 0 {
      assert s[0..] == s;
      assert cur + s[..0] == cur;
    } else {
      calc {
        SplitFrom(d, s, cur);
      == { UnfoldAtSkip(d, s, cur); }
        SplitFrom(d, s[1..], cur + [s[0]]);
      == { SplitSkipsUnmatched(d, s[1..], m - 1, cur + [s[0]]); }
        SplitFrom(d, s[1..][m - 1..], cur + [s[0]] + s[1..][..m - 1]);
      == { SkipOneMore(cur, s, m); }
        SplitFrom(d, s[m..], cur + s[..m]);
      }
    }
  }

  /** Without any match, `split` gives the whole text as one piece. */
  lemma SplitWithoutMatch(d: Delimiter, s: string, cur: string)
    requires forall j {:trigger MatchLen(d, s[j..])} :: 0 <= j < |s| ==> MatchLen(d, s[j..]) == 0
    ensures SplitFrom(d, s, cur) == [cur + s]
  {
    NoMatchInAt(d, s, |s|);
    SplitSkipsUnmatched(d, s, |s|, cur);
    assert s[|s|..] == [] && s[..|s|] == s;
  }

  /** `split` cuts where a match starts and nowhere before it: after a
      stretch where no match starts, the first piece is everything up to the
      match, and the rest is split after the match. */
  lemma SplitAtMatchAfter(d: Delimiter, s: string, i: nat, cur: string)
    requires i < |s| && MatchLen(d, s[i..]) > 0
    requires forall j {:trigger MatchLen(d, s[j..])} :: 0 <= j < i ==> MatchLen(d, s[j..]) == 0
    ensures SplitFrom(d, s, cur) == [cur + s[..i]] + SplitFrom(d, s[i + MatchLen(d, s[i..])..], "")
  {
    NoMatchInAt(d, s, i);
    SplitAfterUnmatched(d, s, i, cur);
  }

  lemma SplitAfterUnmatched(d: Delimiter, s: string, i: nat, cur: string)
    requires i < |s| && MatchLen(d, s[i..]) > 0 && NoMatchIn(d, s, i)
    ensures SplitFrom(d, s, cur) == [cur + s[..i]] + SplitFrom(d, s[i + MatchLen(d, s[i..])..], "")
  {
    SplitSkipsUnmatched(d, s, i, cur);
    SplitAtMatchStart(d, s[i..], cur + s[..i]);
    DropDrop(s, i, MatchLen(d, s[i..]));
  }

  lemma SplitAtMatchStart(d: Delimiter, t: string, c: string)
    requires MatchLen(d, t) > 0
    ensures SplitFrom(d, t, c) == [c] + SplitFrom(d, t[MatchLen(d, t)..], "")
  {
  }

  lemma DropDrop(s: string, i: nat, n: nat)
    requires i + n <= |s|
    ensures s[i..][n..] == s[i + n..]
  {
  }

  /** The text already scanned only ever ends up in the first piece. */
  lemma {:induction false} LaterPiecesIgnoreCur(d: Delimiter, s: string, c1: string, c2: string)
    ensures SplitFrom(d, s, c1)[1..] == SplitFrom(d, s, c2)[1..]
    decreases |s|
  {
    if |s| > 0 && MatchLen(d, s) == 0 {
      LaterPiecesIgnoreCur(d, s[1..], c1 + [s[0]], c2 + [s[0]]);
    }
  }

  /** Characters at which no match can start are simply carried into the
      current piece. */
  lemma {:induction false} SplitSkipsNonStarters(d: Delimiter, p: string, t: string, cur: string)
    requires forall i :: 0 <= i < |p| ==> !CanStart(d, p[i])
    ensures SplitFrom(d, p + t, cur) == SplitFrom(d, t, cur + p)
    decreases |p|
  {
    if |p| == 0 {
      assert p + t == t;
      assert cur + p == cur;
    } else {
      var s := p + t;
      assert s[0] == p[0];
      assert MatchLen(d, s) == 0;
      UnfoldAtSkip(d, s, cur);
      assert s[1..] == p[1..] + t;
      SplitSkipsNonStarters(d, p[1..], t, cur + [p[0]]);
      assert cur + [p[0]] + p[1..] == cur + p;
    }
  }

  /** `lines.map(line => line.trim())`. */
  function TrimAll(lines: seq<string>): (r: seq<string>)
    ensures |r| == |lines|
    ensures forall i :: 0 <= i < |lines| ==> r[i] == Trim(lines[i])
  {
    seq(|lines|, i requires 0 <= i < |lines| => Trim(lines[i]))
  }

  /** Trimming a single line keeps it on one line. */
  lemma TrimKeepsSingleLine(line: string)
    requires '\n' !in line
    ensures '\n' !in Trim(line)
  {
    var j := Span(line, IsSpace);
    var r := Trim(line);
    forall m | 0 <= m < |r| ensures r[m] != '\n' {
      assert r[m] == line[j + m];
    }
  }

  /** `section.split('\n').map(line => line.trim()).filter(Boolean)`. */
  function TrimmedLines(section: string): (r: seq<string>)
    ensures forall k :: 0 <= k < |r| ==> r[k] != [] && IsTrimmed(r[k]) && '\n' !in r[k]
  {
    var ls := Lines(section);
    var ts := TrimAll(ls);
    forall i | 0 <= i < |ts| ensures IsTrimmed(ts[i]) && '\n' !in ts[i] {
      TrimKeepsSingleLine(ls[i]);
    }
    DropEmpty(ts)
  }

  /** Trimming lines that are already trimmed changes nothing. */
  lemma TrimAllTrimmed(lines: seq<string>)
    requires forall i :: 0 <= i < |lines| ==> IsTrimmed(lines[i])
    ensures TrimAll(lines) == lines
  {
    forall i | 0 <= i < |lines| ensures TrimAll(lines)[i] == lines[i] {
      TrimOfTrimmed(lines[i]);
    }
  }

  /** `TrimmedLines` is the composition of its three steps. */
  lemma TrimmedLinesSteps(section: string)
    ensures TrimmedLines(section) == DropEmpty(TrimAll(Lines(section)))
  {
  }

  lemma LinesOfJoin(ls: seq<string>)
    requires |ls| >= 1
    requires forall k :: 0 <= k < |ls| ==> '\n' !in ls[k]
    ensures Lines(Join(ls, "\n")) == ls
  {
    SplitJoinChar(ls, '\n');
  }

  lemma JoinBlankLines(ls: seq<string>)
    requires |ls| >= 1
    ensures Join(ls, "\n") + "\n\n" == Join(ls + ["", ""], "\n")
  {
    JoinAppend(ls, ["", ""], "\n");
  }

  lemma KeepCleanLines(ls: seq<string>)
    requires forall k :: 0 <= k < |ls| ==> ls[k] != [] && IsTrimmed(ls[k])
    ensures DropEmpty(TrimAll(ls)) == ls
  {
    TrimAllTrimmed(ls);
    DropEmptyNoEmpties(ls);
  }

  lemma KeepCleanLinesBlank(ls: seq<string>)
    requires forall k :: 0 <= k < |ls| ==> ls[k] != [] && IsTrimmed(ls[k])
    ensures DropEmpty(TrimAll(ls + ["", ""])) == ls
  {
    TrimAllTrimmed(ls + ["", ""]);
    DropEmptyNoEmpties(ls);
    DropEmptyAppend(ls, ["", ""]);
  }

  /** Two blank lines added to single lines are single lines too. */
  lemma BlankLinesSingle(ls: seq<string>)
    requires forall k :: 0 <= k < |ls| ==> '\n' !in ls[k]
    ensures forall k :: 0 <= k < |ls + ["", ""]| ==> '\n' !in (ls + ["", ""])[k]
  {
    var all := ls + ["", ""];
    forall k | 0 <= k < |all| ensures '\n' !in all[k] {
      if k < |ls| { assert all[k] == ls[k]; }
    }
  }

  /** Lines that are already trimmed, non-empty and on one line come back
      unchanged from `TrimmedLines` once joined. */
  lemma CleanLinesRoundTrip(ls: seq<string>)
    requires |ls| >= 1
    requires forall k :: 0 <= k < |ls| ==> ls[k] != [] && IsTrimmed(ls[k]) && '\n' !in ls[k]
    ensures TrimmedLines(Join(ls, "\n")) == ls
  {
    KeepCleanLines(ls);
    LinesOfJoin(ls);
    TrimmedLinesSteps(Join(ls, "\n"));
  }

  /** ... and so they do with a blank line after them. */
  lemma CleanLinesBlankRoundTrip(ls: seq<string>)
    requires |ls| >= 1
    requires forall k :: 0 <= k < |ls| ==> ls[k] != [] && IsTrimmed(ls[k]) && '\n' !in ls[k]
    ensures TrimmedLines(Join(ls, "\n") + "\n\n") == ls
  {
    var all := ls + ["", ""];
    var s := Join(ls, "\n") + "\n\n";
    BlankLinesSingle(ls);
    JoinBlankLines(ls);
    LinesOfJoin(all);
    assert Lines(s) == all;
    KeepCleanLinesBlank(ls);
    TrimmedLinesSteps(s);
  }
}
