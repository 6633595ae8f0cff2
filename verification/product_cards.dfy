/** The product cards shown beside the ranking questions: each product string
    of the form `N. Name - Price` is split into its number, name and price, and
    the products are laid out as a left column of the first five and a right
    column of the rest. */
module ProductCards {
  import opened Results
  import opened Text

  /** What one card shows. `price` is `None` when the product string has no
      ` - `, where the destructured `price` is `undefined`. */
  datatype Card = Card(number: string, name: string, price: Option<string>)

  /** The one way a card fails: the part before ` - ` has no `.`, so the
      second piece of its split is `undefined` and `trim()` throws. */
  datatype CardError = NoDotInName

  const Dash := " - "

  /** The destructured `price`: the piece after the first ` - `, up to a
      second one if any. */
  function PriceOf(product: string): (p: Option<string>)
    ensures p.None? <==> !Contains(product, Dash)
    ensures p.Some? ==> !Contains(p.value, Dash)
    ensures p.Some? ==> var tail := product[Find(product, Dash) + |Dash|..];
      p.value == tail[..Find(tail, Dash)]
  {
    var pieces := SplitOn(product, Dash);
    if |pieces| > 1 then
      var i := Find(product, Dash);
      assert pieces == [product[..i]] + SplitOn(product[i + |Dash|..], Dash);
      Some(pieces[1])
    else None
  }

  /** The destructured `name`: the text before the first ` - `. */
  function NameOf(product: string): (name: string)
    ensures name == product[..Find(product, Dash)]
  {
    SplitOn(product, Dash)[0]
  }

  /** `name.split('.')`'s first two pieces, or `None` when there is no `.`. */
  function NumberAndName(name: string): (r: Option<(string, string)>)
    ensures r.None? <==> '.' !in name
    ensures r.Some? ==> '.' !in r.value.0 && '.' !in r.value.1
    ensures r.Some? ==> |r.value.0| < |name| && name[..|r.value.0| + 1] == r.value.0 + "."
    ensures r.Some? ==> var i := IndexIn(name, {'.'}); var after := name[i + 1..];
      r.value.0 == name[..i] && r.value.1 == after[..IndexIn(after, {'.'})]
  {
    var parts := SplitAny(name, {'.'});
    assert '.' !in name <==> NoneIn(name, {'.'});
    if |parts| == 1 then None
    else
      var i := IndexIn(name, {'.'});
      assert name[..i + 1] == name[..i] + ".";
      SplitAnyRest(name, {'.'});
      assert parts[1] == SplitAny(name[i + 1..], {'.'})[0];
      Some((parts[0], parts[1]))
  }

  /** `renderProductCard`'s string handling: the number is the text before the
      first `.` of the name part, the name is the trimmed text between its
      first and second `.`, the price is the piece after the first ` - `. */
  function ParseCard(product: string): (r: Result<Card, CardError>)
    ensures r.Err? <==> '.' !in product[..Find(product, Dash)]
    ensures r.Ok? ==> '.' !in r.value.number && '.' !in r.value.name && IsTrimmed(r.value.name)
    ensures r.Ok? ==> |r.value.number| < |product| && product[..|r.value.number| + 1] == r.value.number + "."
    ensures r.Ok? ==> (r.value.price.None? <==> !Contains(product, Dash))
    ensures r.Ok? && r.value.price.Some? ==> !Contains(r.value.price.value, Dash)
    ensures r.Ok? ==> var name := NameOf(product);
      var i := IndexIn(name, {'.'}); var after := name[i + 1..];
      r.value.number == name[..i] && r.value.name == Trim(after[..IndexIn(after, {'.'})])
      && r.value.price == PriceOf(product)
  {
    var name := NameOf(product);
    match NumberAndName(name)
    case None => Err(NoDotInName)
    case Some((number, rest)) =>
      assert product[..|number| + 1] == name[..|number| + 1];
      NoneInTrim(rest, {'.'});
      Ok(Card(number, Trim(rest), PriceOf(product)))
  }

  /** The product string the ranking prompt asks for. */
  function Format(number: string, name: string, price: string): string {
    number + ". " + name + Dash + price
  }

  /** A product string with no `-` before the ` - ` splits there. */
  lemma FindDash(a: string, b: string)
    requires '-' !in a
    ensures Find(a + Dash + b, Dash) == |a|
  {
    var s := a + Dash + b;
    assert OccursAt(s, Dash, |a|) by { assert s[|a|..|a| + 3] == Dash; }
    forall k: nat | k < |a| ensures !OccursAt(s, Dash, k) {
      assert s[k + 1] != '-' by {
        if k + 1 < |a| { assert s[k + 1] == a[k + 1]; }
      }
      if k + 3 <= |s| { assert s[k..k + 3][1] == s[k + 1]; }
    }
  }

  lemma SplitOnDash(a: string, b: string)
    requires '-' !in a
    requires !Contains(b, Dash)
    ensures SplitOn(a + Dash + b, Dash) == [a, b]
  {
    var s := a + Dash + b;
    FindDash(a, b);
    assert s[..|a|] == a;
    assert s[|a| + 3..] == b;
    assert SplitOn(b, Dash) == [b];
  }

  lemma SplitAtDot(number: string, rest: string)
    requires '.' !in number && '.' !in rest
    ensures SplitAny(number + "." + rest, {'.'}) == [number, rest]
  {
    var s := number + "." + rest;
    forall k | 0 <= k < |number| ensures s[k] !in {'.'} { assert s[k] == number[k]; }
    assert s[|number|] == '.';
    assert IndexIn(s, {'.'}) == |number|;
    assert s[..|number|] == number;
    assert s[|number| + 1..] == rest;
    forall k | 0 <= k < |rest| ensures rest[k] !in {'.'} { }
    assert SplitAny(rest, {'.'}) == [rest];
  }

  /** A well-formed product string gives back its parts. */
  lemma ParseFormatted(number: string, name: string, price: string)
    requires '.' !in number && '-' !in number
    requires '.' !in name && '-' !in name && IsTrimmed(name)
    requires !Contains(price, Dash)
    ensures ParseCard(Format(number, name, price)) == Ok(Card(number, name, Some(price)))
  {
    var a := number + ". " + name;
    assert Format(number, name, price) == a + Dash + price;
    assert '-' !in a by {
      forall k | 0 <= k < |a| ensures a[k] != '-' {
        if k < |number| { assert a[k] == number[k]; }
        else if k >= |number| + 2 { assert a[k] == name[k - |number| - 2]; }
      }
    }
    SplitOnDash(a, price);
    assert a == number + "." + (" " + name);
    SplitAtDot(number, " " + name);
    TrimLeadingSpace(name);
  }

  /** A `.` inside the name ends it: whatever follows a second `.` before
      the ` - ` (the `3in` of `1. XPS 13.3in - $9`) is not shown. */
  lemma DotInNameCuts(number: string, name: string, more: string, price: string)
    requires '.' !in number && '-' !in number
    requires '.' !in name && '-' !in name && IsTrimmed(name)
    requires '-' !in more
    requires !Contains(price, Dash)
    ensures ParseCard(number + ". " + name + "." + more + Dash + price) == Ok(Card(number, name, Some(price)))
  {
    var a := number + ". " + name + "." + more;
    assert number + ". " + name + "." + more + Dash + price == a + Dash + price;
    NoHyphenInDottedName(number, name, more);
    SplitOnDash(a, price);
    DottedNameParts(number, name, more);
    TrimLeadingSpace(name);
  }

  lemma NoHyphenInDottedName(number: string, name: string, more: string)
    requires '-' !in number && '-' !in name && '-' !in more
    ensures '-' !in number + ". " + name + "." + more
  {
    var a := number + ". " + name + "." + more;
    forall k | 0 <= k < |a| ensures a[k] != '-' {
      if k < |number| { assert a[k] == number[k]; }
      else if |number| + 2 <= k < |number| + 2 + |name| { assert a[k] == name[k - |number| - 2]; }
      else if k > |number| + 2 + |name| { assert a[k] == more[k - |number| - 3 - |name|]; }
    }
  }

  lemma DottedNameParts(number: string, name: string, more: string)
    requires '.' !in number && '.' !in name
    ensures NumberAndName(number + ". " + name + "." + more) == Some((number, " " + name))
  {
    var a := number + ". " + name + "." + more;
    DottedNameSplit(number, name, more);
    NumberAndNameOfPieces(a);
  }

  lemma DottedNameSplit(number: string, name: string, more: string)
    requires '.' !in number && '.' !in name
    ensures SplitAny(number + ". " + name + "." + more, {'.'}) == [number, " " + name] + SplitAny(more, {'.'})
  {
    var a := number + ". " + name + "." + more;
    var tail := " " + name + "." + more;
    calc {
      SplitAny(a, {'.'});
    == { DottedNameShape(number, name, more); SplitAnyAt(number, '.', tail, {'.'}); }
      [number] + SplitAny(tail, {'.'});
    == { DottedNameShape(number, name, more); SpacedNoDot(name); SplitAnyAt(" " + name, '.', more, {'.'}); }
      [number] + ([" " + name] + SplitAny(more, {'.'}));
    == 
      [number, " " + name] + SplitAny(more, {'.'});
    }
  }

  lemma DottedNameShape(number: string, name: string, more: string)
    ensures number + ". " + name + "." + more == number + ['.'] + (" " + name + "." + more)
    ensures " " + name + "." + more == (" " + name) + ['.'] + more
  {
  }

  lemma SpacedNoDot(name: string)
    requires '.' !in name
    ensures NoneIn(" " + name, {'.'})
  {
    forall k | 1 <= k < |" " + name| ensures (" " + name)[k] == name[k - 1] { }
  }

  lemma NumberAndNameOfPieces(name: string)
    requires |SplitAny(name, {'.'})| > 1
    ensures NumberAndName(name) == Some((SplitAny(name, {'.'})[0], SplitAny(name, {'.'})[1]))
  {
  }

  /** A product string without any `.` cannot be shown. */
  lemma NoDotFails(product: string)
    requires '.' !in product
    ensures ParseCard(product) == Err(NoDotInName)
  {
    var name := product[..Find(product, Dash)];
    assert forall k | 0 <= k < |name| :: name[k] == product[k];
  }

  /** A card together with the position it is shown for. */
  datatype Placed = Placed(product: string, index: nat)

  /** Every product with its own position. */
  function Numbered(products: seq<string>): (r: seq<Placed>)
    ensures |r| == |products|
    ensures forall i :: 0 <= i < |r| ==> r[i] == Placed(products[i], i)
  {
    seq(|products|, i requires 0 <= i < |products| => Placed(products[i], i))
  }

  datatype Layout = Layout(left: seq<Placed>, right: seq<Placed>)

  /** `products.slice(0, 5)` with their indices and `products.slice(5)` with
      theirs offset by five. */
  function Columns(products: seq<string>): (r: Layout)
    ensures |r.left| <= 5
    ensures |r.right| > 0 ==> |r.left| == 5
    ensures r.left + r.right == Numbered(products)
  {
    var n := if |products| < 5 then |products| else 5;
    var left := seq(n, i requires 0 <= i < n => Placed(products[..n][i], i));
    var right := seq(|products| - n, i requires 0 <= i < |products| - n => Placed(products[n..][i], i + n));
    assert forall i :: 0 <= i < |products| ==> (left + right)[i] == Placed(products[i], i) by {
      forall i | 0 <= i < |products| ensures (left + right)[i] == Placed(products[i], i) {
        if i < n { assert left[i] == Placed(products[i], i); }
        else { assert right[i - n] == Placed(products[i], i); }
      }
    }
    Layout(left, right)
  }

  /** Every product appears in exactly one column, once. */
  lemma ColumnsPartition(products: seq<string>, i: nat)
    requires i < |products|
    ensures Placed(products[i], i) in Columns(products).left <==> i < 5
    ensures Placed(products[i], i) in Columns(products).right <==> i >= 5
  {
    var c := Columns(products);
    assert (c.left + c.right)[i] == Placed(products[i], i);
    if Placed(products[i], i) in c.left {
      var k :| 0 <= k < |c.left| && c.left[k] == Placed(products[i], i);
      assert (c.left + c.right)[k] == c.left[k];
    }
    if Placed(products[i], i) in c.right {
      var k :| 0 <= k < |c.right| && c.right[k] == Placed(products[i], i);
      assert (c.left + c.right)[|c.left| + k] == c.right[k];
    }
    if i < 5 { assert c.left[i] == (c.left + c.right)[i]; }
    else { assert c.right[i - |c.left|] == (c.left + c.right)[i]; }
  }
}
