/** The keyword classifiers of the loose questionnaire page: a question's
    category (`getCategoryFromQuestion`), its help text (`generateHelpText`)
    and an option's icon (`getOptionIcon`). Each lower-cases its input and the
    first matching keyword group wins. */
module Categories {
  import opened Text

  /** `s.toLowerCase().includes(word)` for a lower-case `word`. */
  predicate Mentions(s: string, word: string) {
    Contains(Lower(s), word)
  }

  datatype Category = SpaceAndCapacity | Budget | Efficiency | Safety | General

  /** The label the page shows for a category. */
  function CategoryName(c: Category): string {
    match c
    case SpaceAndCapacity => "Space & Capacity"
    case Budget => "Budget"
    case Efficiency => "Efficiency"
    case Safety => "Safety"
    case General => "General"
  }

  predicate AboutSpace(q: string) { Mentions(q, "space") || Mentions(q, "cargo") }
  predicate AboutBudget(q: string) { Mentions(q, "price") || Mentions(q, "budget") }
  predicate AboutEfficiency(q: string) { Mentions(q, "fuel") || Mentions(q, "efficiency") }
  predicate AboutSafety(q: string) { Mentions(q, "safety") || Mentions(q, "security") }

  /** `getCategoryFromQuestion`: the first group, in the order space/cargo,
      price/budget, fuel/efficiency, safety/security, that the question
      mentions; `General` when it mentions none. */
  function CategoryOf(question: string): (c: Category)
    ensures c == SpaceAndCapacity <==> AboutSpace(question)
    ensures c == Budget <==> !AboutSpace(question) && AboutBudget(question)
    ensures c == Efficiency <==> !AboutSpace(question) && !AboutBudget(question) && AboutEfficiency(question)
    ensures c == Safety <==>
      !AboutSpace(question) && !AboutBudget(question) && !AboutEfficiency(question) && AboutSafety(question)
    ensures c == General <==>
      !AboutSpace(question) && !AboutBudget(question) && !AboutEfficiency(question) && !AboutSafety(question)
  {
    if AboutSpace(question) then SpaceAndCapacity
    else if AboutBudget(question) then Budget
    else if AboutEfficiency(question) then Efficiency
    else if AboutSafety(question) then Safety
    else General
  }

  /** The three hints `generateHelpText` offers. */
  const SpaceHelp := "Consider your daily needs for passengers and cargo, including future requirements."
  const BudgetHelp := "Remember to factor in maintenance, insurance, and fuel costs beyond the purchase price."
  const FuelHelp := "Think about your typical driving patterns and local fuel prices."

  /** `generateHelpText`: a hint for questions about space, budget or fuel, in
      that order of preference, and the empty string otherwise. */
  function HelpText(question: string): (h: string)
    ensures h != [] <==> Mentions(question, "space") || Mentions(question, "budget") || Mentions(question, "fuel")
    ensures h == SpaceHelp <==> Mentions(question, "space")
    ensures h == BudgetHelp <==> !Mentions(question, "space") && Mentions(question, "budget")
    ensures h == FuelHelp <==>
      !Mentions(question, "space") && !Mentions(question, "budget") && Mentions(question, "fuel")
  {
    assert |SpaceHelp| == 82 && |BudgetHelp| == 87 && |FuelHelp| == 64;
    if Mentions(question, "space") then SpaceHelp
    else if Mentions(question, "budget") then BudgetHelp
    else if Mentions(question, "fuel") then FuelHelp
    else ""
  }

  /** The glyph shown next to an option: a vehicle or a pin for parsed
      options, stars or a cross on the importance scale. */
  datatype Icon = CompactCar | SedanCar | SuvCar | VanCar | Pin | Stars(count: nat) | Cross

  /** `getOptionIcon`: the vehicle the option text names first in the order
      compact, sedan, suv, van; a pin otherwise. */
  function IconOf(text: string): (i: Icon)
    ensures i == Pin <==>
      !Mentions(text, "compact") && !Mentions(text, "sedan") && !Mentions(text, "suv") && !Mentions(text, "van")
    ensures i == CompactCar <==> Mentions(text, "compact")
    ensures i == SedanCar <==> !Mentions(text, "compact") && Mentions(text, "sedan")
    ensures i == SuvCar <==> !Mentions(text, "compact") && !Mentions(text, "sedan") && Mentions(text, "suv")
    ensures i == VanCar <==>
      !Mentions(text, "compact") && !Mentions(text, "sedan") && !Mentions(text, "suv") && Mentions(text, "van")
  {
    if Mentions(text, "compact") then CompactCar
    else if Mentions(text, "sedan") then SedanCar
    else if Mentions(text, "suv") then SuvCar
    else if Mentions(text, "van") then VanCar
    else Pin
  }

  lemma LowerTwice(s: string)
    ensures Lower(Lower(s)) == Lower(s)
  {
  }

  /** Whether a text mentions a word does not depend on its letter case. */
  lemma MentionsIgnoresCase(s: string, word: string)
    ensures Mentions(Lower(s), word) == Mentions(s, word)
  {
    LowerTwice(s);
  }

  /** The classification is case-insensitive: lower-casing the question first
      does not change its category. */
  lemma CategoryIgnoresCase(question: string)
    ensures CategoryOf(Lower(question)) == CategoryOf(question)
  {
    LowerTwice(question);
    var l := Lower(question);
    assert AboutSpace(l) == AboutSpace(question);
    assert AboutBudget(l) == AboutBudget(question);
    assert AboutEfficiency(l) == AboutEfficiency(question);
    assert AboutSafety(l) == AboutSafety(question);
  }

  /** ... nor its help text. */
  lemma HelpTextIgnoresCase(question: string)
    ensures HelpText(Lower(question)) == HelpText(question)
  {
    LowerTwice(question);
  }

  /** ... and an option's icon does not depend on letter case either. */
  lemma IconIgnoresCase(text: string)
    ensures IconOf(Lower(text)) == IconOf(text)
  {
    LowerTwice(text);
  }

  /** A question that gets a help text is never filed under `General` or
      `Safety`: every help keyword also selects an earlier category group. */
  lemma HelpImpliesSpecificCategory(question: string)
    requires HelpText(question) != []
    ensures CategoryOf(question) in {SpaceAndCapacity, Budget, Efficiency}
  {
  }

  /** Text added after a question never takes it out of a specific category
      into `General`. */
  lemma MentionsPersist(s: string, more: string, word: string)
    requires Mentions(s, word)
    ensures Mentions(s + more, word)
  {
    var i: nat :| i <= |Lower(s)| && OccursAt(Lower(s), word, i);
    assert Lower(s + more) == Lower(s) + Lower(more);
    assert Lower(s + more)[i..i + |word|] == Lower(s)[i..i + |word|];
    assert OccursAt(Lower(s + more), word, i);
  }

  lemma SpecificCategoryPersists(question: string, more: string)
    requires CategoryOf(question) != General
    ensures CategoryOf(question + more) != General
  {
    if AboutSpace(question) {
      if Mentions(question, "space") { MentionsPersist(question, more, "space"); }
      else { MentionsPersist(question, more, "cargo"); }
    } else if AboutBudget(question) {
      if Mentions(question, "price") { MentionsPersist(question, more, "price"); }
      else { MentionsPersist(question, more, "budget"); }
    } else if AboutEfficiency(question) {
      if Mentions(question, "fuel") { MentionsPersist(question, more, "fuel"); }
      else { MentionsPersist(question, more, "efficiency"); }
    } else {
      if Mentions(question, "safety") { MentionsPersist(question, more, "safety"); }
      else { MentionsPersist(question, more, "security"); }
    }
  }
}
