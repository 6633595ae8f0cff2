/** Sequence combinators that the parsers share: the `filter`/`map` chains and
    the `forEach`-with-`push` loops of the source. */
module Lists {
  import opened Results

  /** Applies `f` to every element and keeps the present results, in order:
      a `forEach` that pushes at most one value per element. */
  function FilterMap<S, T>(xs: seq<S>, f: S -> Option<T>): (r: seq<T>)
    ensures |r| <= |xs|
    ensures forall i :: 0 <= i < |r| ==> exists k :: 0 <= k < |xs| && f(xs[k]) == Some(r[i])
  {
    if |xs| == 0 then []
    else
      var rest := FilterMap(xs[1..], f);
      assert forall i :: 0 <= i < |rest| ==> exists k :: 0 <= k < |xs| && f(xs[k]) == Some(rest[i]) by {
        forall i | 0 <= i < |rest| ensures exists k :: 0 <= k < |xs| && f(xs[k]) == Some(rest[i]) {
          var k :| 0 <= k < |xs[1..]| && f(xs[1..][k]) == Some(rest[i]);
          assert f(xs[k + 1]) == Some(rest[i]);
        }
      }
      match f(xs[0])
      case Some(y) => [y] + rest
      case None => rest
  }

  /** `FilterMap` distributes over concatenation: the output keeps the input
      order and each element is handled on its own. */
  lemma {:induction false} FilterMapAppend<S, T>(xs: seq<S>, ys: seq<S>, f: S -> Option<T>)
    ensures FilterMap(xs + ys, f) == FilterMap(xs, f) + FilterMap(ys, f)
  {
    if |xs| > 0 {
      assert (xs + ys)[1..] == xs[1..] + ys;
      FilterMapAppend(xs[1..], ys, f);
    } else {
      assert xs + ys == ys;
    }
  }

  /** The members of `FilterMap`'s output are exactly the present results. */
  lemma {:induction false} FilterMapMembers<S, T>(xs: seq<S>, f: S -> Option<T>)
    ensures forall y :: y in FilterMap(xs, f) <==> exists k :: 0 <= k < |xs| && f(xs[k]) == Some(y)
  {
    if |xs| > 0 {
      FilterMapMembers(xs[1..], f);
      forall y ensures y in FilterMap(xs, f) <==> exists k :: 0 <= k < |xs| && f(xs[k]) == Some(y) {
        if exists k :: 0 <= k < |xs| && f(xs[k]) == Some(y) {
          var k :| 0 <= k < |xs| && f(xs[k]) == Some(y);
          if k > 0 { assert f(xs[1..][k - 1]) == Some(y); }
        }
        if y in FilterMap(xs[1..], f) {
          var k :| 0 <= k < |xs[1..]| && f(xs[1..][k]) == Some(y);
          assert f(xs[k + 1]) == Some(y);
        }
      }
    }
  }

  /** On a single element `FilterMap` keeps exactly the present result. */
  lemma FilterMapSingle<S, T>(x: S, f: S -> Option<T>)
    ensures FilterMap([x], f) == (match f(x) case Some(y) => [y] case None => [])
  {
  }

  /** When `f` produces a value for every element, `FilterMap` keeps them all. */
  lemma {:induction false} FilterMapAll<S, T>(xs: seq<S>, f: S -> Option<T>, ys: seq<T>)
    requires |xs| == |ys|
    requires forall i :: 0 <= i < |xs| ==> f(xs[i]) == Some(ys[i])
    ensures FilterMap(xs, f) == ys
  {
    if |xs| > 0 {
      FilterMapAll(xs[1..], f, ys[1..]);
      assert [ys[0]] + ys[1..] == ys;
    }
  }

  /** `xs.filter(Boolean)` on strings: the non-empty elements, in order. */
  function DropEmpty(xs: seq<string>): (r: seq<string>)
    ensures |r| <= |xs|
    ensures forall i :: 0 <= i < |r| ==> r[i] != [] && r[i] in xs
    ensures forall i :: 0 <= i < |xs| && xs[i] != [] ==> xs[i] in r
  {
    if |xs| == 0 then []
    else if xs[0] == [] then DropEmpty(xs[1..])
    else [xs[0]] + DropEmpty(xs[1..])
  }

  /** Dropping empty strings distributes over concatenation. */
  lemma {:induction false} DropEmptyAppend(xs: seq<string>, ys: seq<string>)
    ensures DropEmpty(xs + ys) == DropEmpty(xs) + DropEmpty(ys)
    decreases |xs|
  {
    if |xs| > 0 {
      assert (xs + ys)[1..] == xs[1..] + ys;
      DropEmptyAppend(xs[1..], ys);
    } else {
      assert xs + ys == ys;
    }
  }

  /** A list without empty strings passes through unchanged. */
  lemma {:induction false} DropEmptyNoEmpties(xs: seq<string>)
    requires forall i :: 0 <= i < |xs| ==> xs[i] != []
    ensures DropEmpty(xs) == xs
    decreases |xs|
  {
    if |xs| > 0 {
      DropEmptyNoEmpties(xs[1..]);
      assert [xs[0]] + xs[1..] == xs;
    }
  }

  predicate Distinct<T(==)>(xs: seq<T>) {
    forall i, j :: 0 <= i < j < |xs| ==> xs[i] != xs[j]
  }

  /** The elements of `xs` not in `seen`, each kept at its first occurrence:
      the `Set`-guarded `push` loop of the source. */
  function DedupFrom(xs: seq<string>, seen: set<string>): (r: seq<string>)
    ensures Distinct(r)
    ensures forall x :: x in r <==> x in xs && x !in seen
  {
    if |xs| == 0 then []
    else if xs[0] in seen then DedupFrom(xs[1..], seen)
    else [xs[0]] + DedupFrom(xs[1..], seen + {xs[0]})
  }

  /** Deduplication keeps a list that has no repeats, and no element of `seen`, unchanged. */
  lemma {:induction false} DedupFromKeepsDistinct(xs: seq<string>, seen: set<string>)
    requires Distinct(xs)
    requires forall i :: 0 <= i < |xs| ==> xs[i] !in seen
    ensures DedupFrom(xs, seen) == xs
  {
    if |xs| > 0 {
      assert forall i :: 0 <= i < |xs[1..]| ==> xs[1..][i] !in seen + {xs[0]} by {
        forall i | 0 <= i < |xs[1..]| ensures xs[1..][i] !in seen + {xs[0]} {
          assert xs[1..][i] == xs[i + 1];
        }
      }
      DedupFromKeepsDistinct(xs[1..], seen + {xs[0]});
    }
  }

  /** One more element is kept exactly when it is new. */
  lemma {:induction false} DedupFromSnoc(xs: seq<string>, x: string, seen: set<string>)
    ensures DedupFrom(xs + [x], seen)
         == DedupFrom(xs, seen) + (if x in xs || x in seen then [] else [x])
    decreases |xs|
  {
    if |xs| == 0 {
      assert xs + [x] == [x];
    } else {
      var ys := xs + [x];
      assert ys[0] == xs[0] && ys[1..] == xs[1..] + [x];
      assert xs == [xs[0]] + xs[1..];
      assert x in xs <==> x == xs[0] || x in xs[1..];
      if xs[0] in seen {
        DedupFromSnoc(xs[1..], x, seen);
        assert DedupFrom(ys, seen) == DedupFrom(xs[1..] + [x], seen);
      } else {
        var seen' := seen + {xs[0]};
        DedupFromSnoc(xs[1..], x, seen');
        assert DedupFrom(ys, seen) == [xs[0]] + DedupFrom(xs[1..] + [x], seen');
        assert (x in xs[1..] || x in seen') <==> (x in xs || x in seen);
      }
    }
  }
}
