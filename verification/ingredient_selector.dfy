/** The ingredient picker of the recipe list page
    (src/components/ingredientSelector/IngredientSelectorComponent.tsx): at most
    ten distinct ingredient ids, a search text and an open/closed dropdown. The
    ingredient dictionary is loaded over HTTP in the source and is a parameter here. */
module IngredientSelector {
  import opened Domain
  import opened Seqs
  import opened Text

  /** The largest number of ingredients that can be selected. */
  const MaxSelected: nat := 10

  /** The component state: `selectedIds`, `inputValue`, `isDropdownOpen`. */
  datatype Selector = Selector(selected: seq<int>, input: string, dropdownOpen: bool)

  /** The state on mount. */
  const Initial: Selector := Selector([], "", false)

  /** What every reachable state satisfies: no id twice and at most ten ids. */
  predicate Valid(s: Selector)
  {
    NoDup(s.selected) && |s.selected| <= MaxSelected
  }

  /** The guard shared by `addIngredient` and `toggleIngredient`. */
  predicate CanAdd(s: Selector, id: int)
  {
    id !in s.selected && |s.selected| < MaxSelected
  }

  /** `addIngredient(id)`: a new id below the limit is appended, the search text
      cleared and the dropdown closed; otherwise nothing changes. */
  function AddIngredient(s: Selector, id: int): (t: Selector)
    ensures !CanAdd(s, id) ==> t == s
    ensures CanAdd(s, id) ==> |t.selected| == |s.selected| + 1 && t.input == "" && !t.dropdownOpen
    ensures CanAdd(s, id) ==> t.selected[..|s.selected|] == s.selected && t.selected[|s.selected|] == id
    ensures Valid(s) ==> Valid(t)
    ensures id in t.selected
         || (id !in s.selected && |s.selected| >= MaxSelected && t == s)
  {
    if CanAdd(s, id) then
      NoDupSnoc(s.selected, id);
      Selector(s.selected + [id], "", false)
    else s
  }

  /** `toggleIngredient(id)`: the same guarded append, leaving the search text
      and the dropdown alone. */
  function ToggleIngredient(s: Selector, id: int): (t: Selector)
    ensures !CanAdd(s, id) ==> t == s
    ensures t.input == s.input && t.dropdownOpen == s.dropdownOpen
    ensures CanAdd(s, id) ==> t.selected == AddIngredient(s, id).selected
    ensures Valid(s) ==> Valid(t)
  {
    if CanAdd(s, id) then
      NoDupSnoc(s.selected, id);
      s.(selected := s.selected + [id])
    else s
  }

  /** The test "this is not the removed id". */
  function Other(id: int): int -> bool
  {
    x => x != id
  }

  /** `removeIngredient(id)`: every occurrence of `id` is dropped, the other ids keep their order. */
  function RemoveIngredient(s: Selector, id: int): (t: Selector)
    ensures id !in t.selected
    ensures forall x :: x in t.selected <==> x in s.selected && x != id
    ensures IsSubseq(t.selected, s.selected)
    ensures t.input == s.input && t.dropdownOpen == s.dropdownOpen
    ensures Valid(s) ==> Valid(t)
  {
    FilterIsSubseq(s.selected, Other(id));
    assert NoDup(s.selected) ==> NoDup(Filter(s.selected, Other(id))) by {
      if NoDup(s.selected) { FilterNoDup(s.selected, Other(id)); }
    }
    s.(selected := Filter(s.selected, Other(id)))
  }

  /** `clearAll()`: the new state and the id list reported to `onSearch`. */
  function ClearAll(s: Selector): (result: (Selector, seq<int>))
    ensures result.0.selected == [] && result.0.input == "" && !result.0.dropdownOpen
    ensures result.1 == []
    ensures Valid(result.0)
  {
    (Initial, [])
  }

  /** `handleSearch()`: reports the current ids, in order, and closes the dropdown. */
  function HandleSearch(s: Selector): (result: (Selector, seq<int>))
    ensures result.1 == s.selected
    ensures result.0.selected == s.selected && result.0.input == s.input && !result.0.dropdownOpen
  {
    (s.(dropdownOpen := false), s.selected)
  }

  /** Typing into the search box: the text is replaced and the dropdown opens. */
  function TypeText(s: Selector, text: string): (t: Selector)
    ensures t.selected == s.selected && t.input == text && t.dropdownOpen
  {
    Selector(s.selected, text, true)
  }

  /** Focusing the search box opens the dropdown. */
  function Focus(s: Selector): (t: Selector)
    ensures t.selected == s.selected && t.input == s.input && t.dropdownOpen
  {
    s.(dropdownOpen := true)
  }

  /** The first filter: the ingredient is not selected yet. */
  function NotSelected(selected: seq<int>): Ingredient -> bool
  {
    (ing: Ingredient) => ing.id !in selected
  }

  /** The second filter: the lower-cased name includes the lower-cased search text. */
  function NameMatches(input: string): Ingredient -> bool
  {
    (ing: Ingredient) => Includes(ToLower(ing.name), ToLower(input))
  }

  /** `availabelIngredients`: the dictionary entries offered in the dropdown. */
  function Available(all: seq<Ingredient>, s: Selector): (r: seq<Ingredient>)
    ensures IsSubseq(r, all)
    ensures forall ing :: ing in r <==>
              ing in all && ing.id !in s.selected && Includes(ToLower(ing.name), ToLower(s.input))
  {
    var unselected := Filter(all, NotSelected(s.selected));
    FilterIsSubseq(all, NotSelected(s.selected));
    FilterIsSubseq(unselected, NameMatches(s.input));
    SubseqTrans(Filter(unselected, NameMatches(s.input)), unselected, all);
    Filter(unselected, NameMatches(s.input))
  }

  /** With an empty search text every unselected entry is offered. */
  lemma AvailableEmptyInput(all: seq<Ingredient>, s: Selector)
    requires s.input == ""
    ensures Available(all, s) == Filter(all, NotSelected(s.selected))
  {
    var unselected := Filter(all, NotSelected(s.selected));
    forall i | 0 <= i < |unselected|
      ensures NameMatches(s.input)(unselected[i])
    {
      IncludesEmpty(ToLower(unselected[i].name));
    }
    FilterAll(unselected, NameMatches(s.input));
  }

  /** The search ignores case: upper- or lower-casing the search text offers the same entries. */
  lemma AvailableIgnoresCase(all: seq<Ingredient>, s: Selector)
    ensures Available(all, s.(input := ToUpper(s.input))) == Available(all, s)
    ensures Available(all, s.(input := ToLower(s.input))) == Available(all, s)
  {
    LowerCaseStable(s.input);
    var unselected := Filter(all, NotSelected(s.selected));
    FilterCongruent(unselected, NameMatches(ToUpper(s.input)), NameMatches(s.input));
    FilterCongruent(unselected, NameMatches(ToLower(s.input)), NameMatches(s.input));
  }

  /** The search box is disabled at the limit. */
  predicate InputDisabled(s: Selector)
  {
    |s.selected| >= MaxSelected
  }

  /** The dropdown list is shown while it is open and the decimal digits of the
      number of chosen ingredients do not contain "10"; the test on the input's
      length always holds. */
  predicate DropdownListShown(s: Selector)
  {
    s.dropdownOpen && |s.input| >= 0 && !Includes(NatToDecimal(|s.selected|), "10")
  }

  /** On a valid state the text test on the count means "below the limit": the
      dropdown list is shown exactly when it is open and the input is enabled. */
  lemma DropdownShownBelowLimit(s: Selector)
    requires Valid(s)
    ensures DropdownListShown(s) <==> s.dropdownOpen && !InputDisabled(s)
  {
    var n := |s.selected|;
    var d := NatToDecimal(n);
    if n < 10 {
      assert |d| == 1;
      assert !StartsWith(d, "10");
      assert !Includes(d[1..], "10");
    } else {
      assert n == 10;
      assert d == NatToDecimal(1) + [DigitChar(0)];
      assert d == "10";
      assert StartsWith(d, "10");
    }
  }

  /** Adding a new id below the limit and removing it again restores the selection. */
  lemma RemoveUndoesAdd(s: Selector, id: int)
    requires CanAdd(s, id)
    ensures RemoveIngredient(AddIngredient(s, id), id).selected == s.selected
  {
    FilterSnoc(s.selected, id, Other(id));
    FilterAll(s.selected, Other(id));
  }

  /** The user actions the component reacts to. */
  datatype Action =
    | Add(id: int)
    | Toggle(id: int)
    | Remove(id: int)
    | Clear
    | Search
    | Type(text: string)
    | FocusInput

  function Step(s: Selector, a: Action): Selector
  {
    match a
    case Add(id) => AddIngredient(s, id)
    case Toggle(id) => ToggleIngredient(s, id)
    case Remove(id) => RemoveIngredient(s, id)
    case Clear => ClearAll(s).0
    case Search => HandleSearch(s).0
    case Type(text) => TypeText(s, text)
    case FocusInput => Focus(s)
  }

  /** The state after a sequence of actions, first action first. */
  function Run(s: Selector, actions: seq<Action>): Selector
    decreases |actions|
  {
    if |actions| == 0 then s else Run(Step(s, actions[0]), actions[1..])
  }

  /** Whatever the user does, the selection never holds a duplicate id or more than ten ids. */
  lemma {:induction false} RunKeepsValid(s: Selector, actions: seq<Action>)
    requires Valid(s)
    ensures Valid(Run(s, actions))
    decreases |actions|
  {
    if |actions| > 0 {
      RunKeepsValid(Step(s, actions[0]), actions[1..]);
    }
  }

  /** Every state reachable from mount is valid. */
  lemma ReachableValid(actions: seq<Action>)
    ensures Valid(Run(Initial, actions))
  {
    RunKeepsValid(Initial, actions);
  }
}
