/** Strict category filtering of a recipe list (src/utils/recipeFiltersByCategory.ts). */
module CategoryFilter {
  import opened Domain
  import opened Seqs

  /** Some entry of the recipe's category map has both the selected type and the selected value. */
  predicate HasCategory(r: Recipe, typeName: string, valueName: string)
  {
    exists k :: 0 <= k < |r.categoryValues|
      && r.categoryValues[k].typeName == typeName
      && r.categoryValues[k].categoryValue == valueName
  }

  /** The test handed to `recipes.filter`. */
  function Matches(typeName: string, valueName: string): Recipe -> bool
  {
    r => HasCategory(r, typeName, valueName)
  }

  /** `filterRecipesByStrictCategory(recipes, typeName, valueName)`: with both
      selectors present, exactly the recipes having a matching entry, in input
      order; with either selector null or empty, the input itself. */
  function FilterRecipesByStrictCategory(recipes: seq<Recipe>, typeName: Option<string>, valueName: Option<string>)
    : (r: seq<Recipe>)
    ensures FalsyString(typeName) || FalsyString(valueName) ==> r == recipes
    ensures IsSubseq(r, recipes)
    ensures !FalsyString(typeName) && !FalsyString(valueName) ==>
      forall x :: x in r <==> x in recipes && HasCategory(x, typeName.value, valueName.value)
  {
    if FalsyString(typeName) then
      SubseqRefl(recipes);
      recipes
    else if FalsyString(valueName) then
      SubseqRefl(recipes);
      recipes
    else
      FilterIsSubseq(recipes, Matches(typeName.value, valueName.value));
      Filter(recipes, Matches(typeName.value, valueName.value))
  }

  /** Filtering the result again with the same selectors changes nothing. */
  lemma FilterByCategoryIdempotent(recipes: seq<Recipe>, typeName: Option<string>, valueName: Option<string>)
    ensures var once := FilterRecipesByStrictCategory(recipes, typeName, valueName);
            FilterRecipesByStrictCategory(once, typeName, valueName) == once
  {
    if !FalsyString(typeName) && !FalsyString(valueName) {
      FilterIdempotent(recipes, Matches(typeName.value, valueName.value));
    }
  }
}
