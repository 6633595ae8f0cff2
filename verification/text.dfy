/** Character classes and string helpers shared by every parser: whitespace,
    trimming, splitting on characters and on substrings, joining, substring
    search and ASCII lower-casing.

    JavaScript's `\s`/`trim()` and Python's `\s`/`strip()` are approximated by
    one ASCII whitespace set. */
module Text {

  /** Space, tab, line feed, carriage return, vertical tab and form feed. */
  predicate IsSpace(c: char) {
    c == ' ' || c == '\t' || c == '\n' || c == '\r' || c == '\U{000B}' || c == '\U{000C}'
  }

  /** The characters a regular expression `.` refuses (ASCII part). */
  predicate IsLineTerminator(c: char) {
    c == '\n' || c == '\r'
  }

  predicate IsDigit(c: char) {
    '0' <= c <= '9'
  }

  predicate AllSpace(s: string) {
    forall i :: 0 <= i < |s| ==> IsSpace(s[i])
  }

  /** Neither starts nor ends with whitespace. */
  predicate IsTrimmed(s: string) {
    s == [] || (!IsSpace(s[0]) && !IsSpace(s[|s| - 1]))
  }

  /** Length of the longest prefix of `s` all of whose characters satisfy `p`. */
  function Span(s: string, p: char -> bool): (n: nat)
    ensures n <= |s|
    ensures forall i :: 0 <= i < n ==> p(s[i])
    ensures n == |s| || !p(s[n])
  {
    if |s| == 0 || !p(s[0]) then 0 else 1 + Span(s[1..], p)
  }

  /** `s` without its leading whitespace. */
  function TrimStart(s: string): (r: string)
    ensures r == s[Span(s, IsSpace)..]
    ensures r == [] || !IsSpace(r[0])
  {
    s[Span(s, IsSpace)..]
  }

  /** `s` without its trailing whitespace. */
  function TrimEnd(s: string): (r: string)
    ensures |r| <= |s| && r == s[..|r|]
    ensures AllSpace(s[|r|..])
    ensures r == [] || !IsSpace(r[|r| - 1])
  {
    if |s| == 0 || !IsSpace(s[|s| - 1]) then s
    else
      var r := TrimEnd(s[..|s| - 1]);
      assert s[|r|..] == s[..|s| - 1][|r|..] + [s[|s| - 1]];
      r
  }

  /** JavaScript's `trim()` / Python's `strip()`: the slice of `s` left after
      removing whitespace at both ends. */
  function Trim(s: string): (r: string)
    ensures var i := Span(s, IsSpace);
      i + |r| <= |s| && r == s[i..i + |r|] && AllSpace(s[..i]) && AllSpace(s[i + |r|..])
    ensures IsTrimmed(r)
  {
    var t := TrimStart(s);
    var r := TrimEnd(t);
    var i := Span(s, IsSpace);
    assert s[i + |r|..] == t[|r|..];
    assert r == [] || !IsSpace(r[0]) by {
      if r != [] { assert r[0] == t[0]; }
    }
    r
  }

  lemma TrimOfTrimmed(s: string)
    requires IsTrimmed(s)
    ensures Trim(s) == s
  {
    if s != [] {
      assert Span(s, IsSpace) == 0;
    }
  }

  lemma TrimAllSpace(s: string)
    ensures Trim(s) == [] <==> AllSpace(s)
  {
    var i := Span(s, IsSpace);
    assert Trim(s) == [] || Trim(s)[0] == s[i];
    assert i == |s| || s[i..][0] == s[i];
  }

  /** Removing leading whitespace before trimming changes nothing. */
  lemma TrimAfterTrimStart(s: string)
    ensures Trim(TrimStart(s)) == Trim(s)
  {
    assert Span(TrimStart(s), IsSpace) == 0;
  }

  lemma {:induction false} TrimStartDrop(s: string, j: nat)
    requires j <= Span(s, IsSpace)
    ensures TrimStart(s[j..]) == TrimStart(s)
  {
    if j > 0 {
      assert IsSpace(s[0]);
      assert Span(s, IsSpace) == 1 + Span(s[1..], IsSpace);
      TrimStartDrop(s[1..], j - 1);
      assert s[1..][j - 1..] == s[j..];
      assert TrimStart(s) == s[1..][Span(s[1..], IsSpace)..];
    }
  }

  /** Dropping part of the leading whitespace does not change the trimmed text. */
  lemma TrimDropsSpaces(s: string, j: nat)
    requires j <= Span(s, IsSpace)
    ensures Trim(s[j..]) == Trim(s)
  {
    TrimStartDrop(s, j);
    TrimAfterTrimStart(s[j..]);
    TrimAfterTrimStart(s);
  }

  /** One leading space does not survive trimming. */
  lemma TrimLeadingSpace(t: string)
    requires IsTrimmed(t)
    ensures Trim(" " + t) == t
  {
    SpanConcat(" ", t, IsSpace);
    TrimDropsSpaces(" " + t, 1);
    assert (" " + t)[1..] == t;
    TrimOfTrimmed(t);
  }

  /** `s` with every `*` deleted: `s.replace(/[*]+/g, '')`. */
  function Unstarred(s: string): (r: string)
    ensures '*' !in r
    decreases |s|
  {
    if |s| == 0 then [] else if s[0] == '*' then Unstarred(s[1..]) else [s[0]] + Unstarred(s[1..])
  }

  /** Index of the first character of `s` in `seps`, or `|s|` when there is none. */
  function IndexIn(s: string, seps: set<char>): (i: nat)
    ensures i <= |s|
    ensures forall k :: 0 <= k < i ==> s[k] !in seps
    ensures i < |s| ==> s[i] in seps
  {
    if |s| == 0 || s[0] in seps then 0 else 1 + IndexIn(s[1..], seps)
  }

  predicate NoneIn(s: string, seps: set<char>) {
    forall k :: 0 <= k < |s| ==> s[k] !in seps
  }

  /** Trimming keeps a text free of the given characters. */
  lemma NoneInTrim(s: string, seps: set<char>)
    requires NoneIn(s, seps)
    ensures NoneIn(Trim(s), seps)
  {
    var i := Span(s, IsSpace);
    var r := Trim(s);
    forall k | 0 <= k < |r| ensures r[k] !in seps {
      assert r[k] == s[i + k];
    }
  }

  /** `s.split(/[seps]/)`: the maximal separator-free pieces, in order. */
  function SplitAny(s: string, seps: set<char>): (r: seq<string>)
    ensures |r| >= 1
    ensures r[0] == s[..IndexIn(s, seps)]
    ensures |r| == 1 <==> NoneIn(s, seps)
    ensures forall k :: 0 <= k < |r| ==> NoneIn(r[k], seps)
    decreases |s|
  {
    var i := IndexIn(s, seps);
    if i == |s| then [s] else [s[..i]] + SplitAny(s[i + 1..], seps)
  }

  /** `s.split(c)` for a single character. */
  function SplitChar(s: string, c: char): (r: seq<string>)
    ensures |r| >= 1
    ensures forall k :: 0 <= k < |r| ==> c !in r[k]
  {
    var r := SplitAny(s, {c});
    assert forall k :: 0 <= k < |r| ==> NoneIn(r[k], {c});
    r
  }

  /** `s.split('\n')`. */
  function Lines(s: string): (r: seq<string>)
    ensures |r| >= 1
    ensures forall k :: 0 <= k < |r| ==> '\n' !in r[k]
  {
    SplitChar(s, '\n')
  }

  /** `xs.join(sep)`; the empty list joins to the empty string. */
  function Join(xs: seq<string>, sep: string): string
  {
    if |xs| == 0 then ""
    else if |xs| == 1 then xs[0]
    else xs[0] + sep + Join(xs[1..], sep)
  }

  /** Joining two non-empty lists is joining each and gluing them with `sep`. */
  lemma {:induction false} JoinAppend(xs: seq<string>, ys: seq<string>, sep: string)
    requires |xs| >= 1 && |ys| >= 1
    ensures Join(xs + ys, sep) == Join(xs, sep) + sep + Join(ys, sep)
    decreases |xs|
  {
    if |xs| == 1 {
      assert (xs + ys)[1..] == ys;
    } else {
      assert (xs + ys)[1..] == xs[1..] + ys;
      JoinAppend(xs[1..], ys, sep);
    }
  }

  /** A class of characters absent from every piece and from the separator is
      absent from the joined string. */
  lemma {:induction false} JoinAvoids(xs: seq<string>, sep: string, p: char -> bool)
    requires forall i :: 0 <= i < |sep| ==> !p(sep[i])
    requires forall k, i :: 0 <= k < |xs| && 0 <= i < |xs[k]| ==> !p(xs[k][i])
    ensures forall i :: 0 <= i < |Join(xs, sep)| ==> !p(Join(xs, sep)[i])
    decreases |xs|
  {
    if |xs| > 1 {
      JoinAvoids(xs[1..], sep, p);
      var rest := Join(xs[1..], sep);
      var j := xs[0] + sep + rest;
      forall i | 0 <= i < |j| ensures !p(j[i]) {
        if i < |xs[0]| {
          assert j[i] == xs[0][i];
          assert !p(xs[0][i]);
        } else if i < |xs[0]| + |sep| {
          assert j[i] == sep[i - |xs[0]|];
          assert !p(sep[i - |xs[0]|]);
        } else {
          assert j[i] == rest[i - |xs[0]| - |sep|];
          assert !p(rest[i - |xs[0]| - |sep|]);
        }
      }
    }
  }

  /** A prefix made only of characters in `p` extends the span by its length. */
  lemma {:induction false} SpanConcat(a: string, b: string, p: char -> bool)
    requires forall i :: 0 <= i < |a| ==> p(a[i])
    ensures Span(a + b, p) == |a| + Span(b, p)
    decreases |a|
  {
    if |a| > 0 {
      assert (a + b)[1..] == a[1..] + b;
      SpanConcat(a[1..], b, p);
    } else {
      assert a + b == b;
    }
  }

  /** Joining a list with at least two pieces puts the separator after the first. */
  lemma JoinCons(x: string, ys: seq<string>, sep: string)
    requires |ys| >= 1
    ensures Join([x] + ys, sep) == x + sep + Join(ys, sep)
  {
    assert ([x] + ys)[1..] == ys;
  }

  lemma AllSpaceConcat(a: string, b: string)
    ensures AllSpace(a + b) <==> AllSpace(a) && AllSpace(b)
  {
    if AllSpace(a) && AllSpace(b) {
      forall i | 0 <= i < |a + b| ensures IsSpace((a + b)[i]) {
        if i >= |a| { assert (a + b)[i] == b[i - |a|]; }
      }
    }
    if AllSpace(a + b) {
      forall i | 0 <= i < |a| ensures IsSpace(a[i]) { assert (a + b)[i] == a[i]; }
      forall i | 0 <= i < |b| ensures IsSpace(b[i]) { assert (a + b)[|a| + i] == b[i]; }
    }
  }

  /** Every piece is blank. */
  predicate AllBlank(xs: seq<string>) {
    forall k :: 0 <= k < |xs| ==> AllSpace(xs[k])
  }

  lemma AllBlankCons(x: string, ys: seq<string>)
    ensures AllBlank([x] + ys) <==> AllSpace(x) && AllBlank(ys)
  {
    assert ([x] + ys)[0] == x;
    assert forall k :: 0 <= k < |ys| ==> ([x] + ys)[k + 1] == ys[k];
  }

  /** Pieces joined with a space are blank exactly when every piece is. */
  lemma {:induction false} JoinAllSpace(xs: seq<string>)
    ensures AllSpace(Join(xs, " ")) <==> AllBlank(xs)
    decreases |xs|
  {
    if |xs| > 1 {
      var rest := Join(xs[1..], " ");
      JoinAllSpace(xs[1..]);
      AllSpaceConcat(xs[0] + " ", rest);
      AllSpaceConcat(xs[0], " ");
      assert [xs[0]] + xs[1..] == xs;
      AllBlankCons(xs[0], xs[1..]);
    }
  }

  /** Trimming neither makes nor unmakes a blank text. */
  lemma AllSpaceTrim(s: string)
    ensures AllSpace(Trim(s)) <==> AllSpace(s)
  {
    TrimAllSpace(s);
  }

  /** Every character is blank or in `seps`. */
  predicate BlankOrIn(s: string, seps: set<char>) {
    forall i :: 0 <= i < |s| ==> IsSpace(s[i]) || s[i] in seps
  }

  /** Splitting at the first separator keeps the text before it whole. */
  lemma SplitAnyAt(text: string, c: char, tail: string, seps: set<char>)
    requires c in seps && NoneIn(text, seps)
    ensures SplitAny(text + [c] + tail, seps) == [text] + SplitAny(tail, seps)
  {
    var s := text + [c] + tail;
    assert s[|text|] == c;
    forall k | 0 <= k < |text| ensures s[k] !in seps { assert s[k] == text[k]; }
    assert IndexIn(s, seps) == |text|;
    assert s[..|text|] == text;
    assert s[|text| + 1..] == tail;
  }

  lemma BlankOrInNone(s: string, seps: set<char>)
    requires NoneIn(s, seps)
    ensures BlankOrIn(s, seps) <==> AllSpace(s)
  {
  }

  lemma BlankOrInAt(text: string, c: char, tail: string, seps: set<char>)
    requires c in seps
    ensures BlankOrIn(text + [c] + tail, seps) <==> BlankOrIn(text, seps) && BlankOrIn(tail, seps)
  {
    var s := text + [c] + tail;
    if BlankOrIn(s, seps) {
      forall j | 0 <= j < |text| ensures IsSpace(text[j]) || text[j] in seps { assert text[j] == s[j]; }
      forall j | 0 <= j < |tail| ensures IsSpace(tail[j]) || tail[j] in seps { assert tail[j] == s[|text| + 1 + j]; }
    }
    if BlankOrIn(text, seps) && BlankOrIn(tail, seps) {
      forall j | 0 <= j < |s| ensures IsSpace(s[j]) || s[j] in seps {
        if j < |text| { assert s[j] == text[j]; }
        else if j > |text| { assert s[j] == tail[j - |text| - 1]; }
      }
    }
  }

  /** The pieces after the first are the split of the text after the first
      separator. */
  lemma SplitAnyRest(s: string, seps: set<char>)
    requires IndexIn(s, seps) < |s|
    ensures SplitAny(s, seps)[1..] == SplitAny(s[IndexIn(s, seps) + 1..], seps)
  {
  }

  /** The pieces of a split are all blank exactly when the text holds nothing
      but blanks and separators. */
  lemma {:induction false} SplitAnyBlank(s: string, seps: set<char>)
    ensures AllBlank(SplitAny(s, seps)) <==> BlankOrIn(s, seps)
    decreases |s|
  {
    var i := IndexIn(s, seps);
    if i == |s| {
      assert SplitAny(s, seps) == [s];
      BlankOrInNone(s, seps);
    } else {
      var text := s[..i];
      var tail := s[i + 1..];
      assert s == text + [s[i]] + tail;
      SplitAnyAt(text, s[i], tail, seps);
      SplitAnyBlank(tail, seps);
      AllBlankCons(text, SplitAny(tail, seps));
      BlankOrInAt(text, s[i], tail, seps);
      BlankOrInNone(text, seps);
    }
  }

  /** Splitting at the first occurrence of `c`. */
  lemma SplitCharAt(s: string, c: char, i: nat)
    requires i == IndexIn(s, {c}) < |s|
    ensures SplitChar(s, c) == [s[..i]] + SplitChar(s[i + 1..], c)
  {
  }

  /** A character position cuts the text into before, the character, and after. */
  lemma CutAt(s: string, i: nat)
    requires i < |s|
    ensures s == s[..i] + [s[i]] + s[i + 1..]
  {
  }

  /** Splitting on a character and joining back with it gives the input back. */
  lemma {:induction false} JoinSplitChar(s: string, c: char)
    ensures Join(SplitChar(s, c), [c]) == s
    decreases |s|
  {
    var i := IndexIn(s, {c});
    if i == |s| {
      assert SplitChar(s, c) == [s];
    } else {
      var rest := s[i + 1..];
      SplitCharAt(s, c, i);
      JoinCons(s[..i], SplitChar(rest, c), [c]);
      JoinSplitChar(rest, c);
      CutAt(s, i);
    }
  }

  /** Joining pieces free of `c` with `c` and splitting on `c` gives the pieces back. */
  lemma {:induction false} SplitJoinChar(xs: seq<string>, c: char)
    requires |xs| >= 1
    requires forall k :: 0 <= k < |xs| ==> c !in xs[k]
    ensures SplitChar(Join(xs, [c]), c) == xs
  {
    var s := Join(xs, [c]);
    if |xs| == 1 {
      assert IndexIn(s, {c}) == |s|;
    } else {
      var tail := Join(xs[1..], [c]);
      assert s == xs[0] + [c] + tail;
      SplitJoinChar(xs[1..], c);
      var i := IndexIn(s, {c});
      assert i == |xs[0]| by {
        assert s[|xs[0]|] == c;
        forall k | 0 <= k < |xs[0]| ensures s[k] != c {
          assert s[k] == xs[0][k];
        }
      }
      assert s[..i] == xs[0];
      assert s[i + 1..] == tail;
    }
  }

  /** `t` occurs in `s` at index `i`. */
  predicate OccursAt(s: string, t: string, i: nat) {
    i + |t| <= |s| && s[i..i + |t|] == t
  }

  /** `s.includes(t)` / Python's `t in s`. */
  predicate Contains(s: string, t: string) {
    exists i: nat :: i <= |s| && OccursAt(s, t, i)
  }

  /** An occurrence after the first character is an occurrence in the rest. */
  lemma OccursShift(s: string, t: string, k: nat)
    requires 1 <= k <= |s|
    ensures OccursAt(s, t, k) <==> OccursAt(s[1..], t, k - 1)
  {
    if k + |t| <= |s| {
      var a := s[k..k + |t|];
      var b := s[1..][k - 1..k - 1 + |t|];
      forall m | 0 <= m < |t| ensures a[m] == b[m] {
        assert a[m] == s[k + m];
        assert b[m] == s[1..][k - 1 + m] == s[k + m];
      }
      assert a == b;
    }
  }

  /** Index of the first occurrence of the non-empty `t` in `s`, or `|s|` when
      `t` does not occur. */
  function Find(s: string, t: string): (i: nat)
    requires |t| > 0
    ensures i <= |s|
    ensures i < |s| <==> Contains(s, t)
    ensures i < |s| ==> OccursAt(s, t, i)
    ensures forall k: nat :: k < i ==> !OccursAt(s, t, k)
  {
    if |s| == 0 then 0
    else if OccursAt(s, t, 0) then 0
    else
      var j := Find(s[1..], t);
      forall k: nat | 1 <= k <= |s| ensures OccursAt(s, t, k) <==> OccursAt(s[1..], t, k - 1) {
        OccursShift(s, t, k);
      }
      if j < |s[1..]| then
        assert OccursAt(s, t, 1 + j);
        1 + j
      else
        assert !Contains(s, t) by {
          forall k: nat | k <= |s| ensures !OccursAt(s, t, k) {
            if k >= 1 { assert !OccursAt(s[1..], t, k - 1); }
          }
        }
        |s|
  }

  /** `s.split(sep)` for a non-empty string separator: the pieces between the
      non-overlapping occurrences of `sep`, scanned left to right. */
  function SplitOn(s: string, sep: string): (r: seq<string>)
    requires |sep| > 0
    ensures |r| >= 1
    ensures r[0] == s[..Find(s, sep)]
    ensures |r| == 1 <==> !Contains(s, sep)
    ensures forall k :: 0 <= k < |r| ==> !Contains(r[k], sep)
    decreases |s|
  {
    var i := Find(s, sep);
    if i == |s| then [s]
    else
      assert !Contains(s[..i], sep) by {
        forall k: nat | k <= i ensures !OccursAt(s[..i], sep, k) {
          if k + |sep| <= i {
            assert s[..i][k..k + |sep|] == s[k..k + |sep|];
            assert !OccursAt(s, sep, k);
          }
        }
      }
      [s[..i]] + SplitOn(s[i + |sep|..], sep)
  }

  function LowerChar(c: char): char {
    if 'A' <= c <= 'Z' then (c as int + 32) as char else c
  }

  /** `toLowerCase()` restricted to ASCII letters. */
  function Lower(s: string): (r: string)
    ensures |r| == |s|
    ensures forall i :: 0 <= i < |s| ==> r[i] == LowerChar(s[i])
  {
    seq(|s|, i requires 0 <= i < |s| => LowerChar(s[i]))
  }
}
