/** The recipe list page (src/pages/recipesList/RecipesList.tsx) on its three
    routes: the main list, the favourites and the user's own recipes. The
    lists the service returns are parameters; the model covers what the page
    does with them locally: text, status and ingredient filters, the
    favourite, delete and moderation updates, the status colours and which
    groups are rendered. */
module RecipeList {
  import opened Domain
  import opened Seqs
  import opened Text
  import CategoryFilter
  import RecipeGroups

  /** Which route the page is showing. */
  datatype Page = MainPage | FavoritesPage | MyRecipesPage

  /** The route of a path: the favourites and own-recipes paths are matched exactly; every other path is the main list. */
  function PageOf(pathname: string): (p: Page)
    ensures p.FavoritesPage? <==> pathname == "/favorites"
    ensures p.MyRecipesPage? <==> pathname == "/my-recipes"
  {
    if pathname == "/favorites" then FavoritesPage
    else if pathname == "/my-recipes" then MyRecipesPage
    else MainPage
  }

  // ---------------------------------------------------------------------------
  // Filters
  // ---------------------------------------------------------------------------

  /** Some ingredient line's lower-cased name includes the query. */
  predicate SomeIngredientNamed(ings: seq<RecipeIngredient>, q: string)
  {
    exists k :: 0 <= k < |ings| && Includes(ToLower(ings[k].name), q)
  }

  /** The local text test: the lower-cased query occurs in the lower-cased name or in some lower-cased ingredient name. */
  function TextMatch(query: string): Recipe -> bool
  {
    (r: Recipe) => Includes(ToLower(r.name), ToLower(query)) || SomeIngredientNamed(r.ingredients, ToLower(query))
  }

  /** The local text filter, applied only when the `search` parameter is present and non-empty. */
  function FilterByText(recipes: seq<Recipe>, query: Option<string>): (r: seq<Recipe>)
    ensures FalsyString(query) ==> r == recipes
    ensures IsSubseq(r, recipes)
    ensures !FalsyString(query) ==> forall x :: x in r <==>
              x in recipes
              && (Includes(ToLower(x.name), ToLower(query.value))
                  || exists k :: 0 <= k < |x.ingredients| && Includes(ToLower(x.ingredients[k].name), ToLower(query.value)))
  {
    if FalsyString(query) then
      SubseqRefl(recipes);
      recipes
    else
      FilterIsSubseq(recipes, TextMatch(query.value));
      Filter(recipes, TextMatch(query.value))
  }

  /** The text filter ignores the case of the query. */
  lemma FilterByTextIgnoresCase(recipes: seq<Recipe>, query: string)
    ensures FilterByText(recipes, Some(ToUpper(query))) == FilterByText(recipes, Some(query))
  {
    LowerCaseStable(query);
    if query != "" {
      FilterCongruent(recipes, TextMatch(ToUpper(query)), TextMatch(query));
    }
  }

  function IsApproved(r: Recipe): bool
  {
    r.status == Approved
  }

  /** The APPROVED recipes, in order. */
  function OnlyApproved(recipes: seq<Recipe>): (r: seq<Recipe>)
    ensures IsSubseq(r, recipes)
    ensures forall x :: x in r <==> x in recipes && x.status == Approved
  {
    FilterIsSubseq(recipes, IsApproved);
    Filter(recipes, IsApproved)
  }

  /** `loadRecipes()` once the service answered with `fetched`: the favourites
      and own recipes are text-filtered locally (the main list is searched by
      the service), and every page but the user's own keeps APPROVED recipes only. */
  function LoadRecipes(page: Page, fetched: seq<Recipe>, searchQuery: Option<string>): (r: seq<Recipe>)
    ensures IsSubseq(r, fetched)
    ensures !page.MyRecipesPage? ==> forall x :: x in r ==> x.status == Approved
    ensures page.MainPage? ==> r == OnlyApproved(fetched)
    ensures page.MyRecipesPage? ==> r == FilterByText(fetched, searchQuery)
    ensures page.FavoritesPage? ==> r == OnlyApproved(FilterByText(fetched, searchQuery))
  {
    match page
    case MainPage => OnlyApproved(fetched)
    case MyRecipesPage => FilterByText(fetched, searchQuery)
    case FavoritesPage =>
      var texted := FilterByText(fetched, searchQuery);
      SubseqTrans(OnlyApproved(texted), texted, fetched);
      OnlyApproved(texted)
  }

  /** Every selected ingredient id occurs among the recipe's ingredient lines. */
  predicate HasAllIngredients(r: Recipe, ids: seq<int>)
  {
    forall i :: 0 <= i < |ids| ==> exists k :: 0 <= k < |r.ingredients| && r.ingredients[k].id == Some(ids[i])
  }

  function HasAll(ids: seq<int>): Recipe -> bool
  {
    (r: Recipe) => HasAllIngredients(r, ids)
  }

  /** The ingredient filter, applied only when some id is selected. */
  function FilterByIngredients(recipes: seq<Recipe>, ids: seq<int>): (r: seq<Recipe>)
    ensures |ids| == 0 ==> r == recipes
    ensures IsSubseq(r, recipes)
    ensures forall x :: x in r <==> x in recipes && HasAllIngredients(x, ids)
  {
    if |ids| == 0 then
      SubseqRefl(recipes);
      recipes
    else
      FilterIsSubseq(recipes, HasAll(ids));
      Filter(recipes, HasAll(ids))
  }

  /** `handleIngredientSearch(ids)` once the service answered with `base`. On
      the favourites and own-recipes pages the text and ingredient filters run
      locally and the favourites keep APPROVED recipes only; on the main page
      the service did the filtering and the page keeps APPROVED recipes only. */
  function IngredientSearch(page: Page, base: seq<Recipe>, searchQuery: Option<string>, ids: seq<int>)
    : (r: seq<Recipe>)
    ensures IsSubseq(r, base)
    ensures !page.MyRecipesPage? ==> forall x :: x in r ==> x.status == Approved
    ensures !page.MainPage? ==> forall x :: x in r ==> HasAllIngredients(x, ids)
    ensures page.MainPage? ==> r == OnlyApproved(base)
    ensures page.MyRecipesPage? ==> forall x :: x in r <==>
              x in FilterByText(base, searchQuery) && HasAllIngredients(x, ids)
    ensures page.FavoritesPage? ==> forall x :: x in r <==>
              x in FilterByText(base, searchQuery) && HasAllIngredients(x, ids) && x.status == Approved
  {
    if page.MainPage? then OnlyApproved(base)
    else
      var texted := FilterByText(base, searchQuery);
      var withIngredients := FilterByIngredients(texted, ids);
      SubseqTrans(withIngredients, texted, base);
      if page.FavoritesPage? then
        SubseqTrans(OnlyApproved(withIngredients), withIngredients, base);
        OnlyApproved(withIngredients)
      else withIngredients
  }

  /** With no ingredient selected the search shows what loading the page shows. */
  lemma EmptyIngredientSearchIsLoad(page: Page, base: seq<Recipe>, searchQuery: Option<string>)
    ensures IngredientSearch(page, base, searchQuery, []) == LoadRecipes(page, base, searchQuery)
  {
  }

  // ---------------------------------------------------------------------------
  // Local updates
  // ---------------------------------------------------------------------------

  function NotRecipe(id: int): Recipe -> bool
  {
    (r: Recipe) => r.id != id
  }

  /** The list after a successful delete: every recipe with the id is dropped. */
  function DeleteRecipe(recipes: seq<Recipe>, id: int): (r: seq<Recipe>)
    ensures IsSubseq(r, recipes)
    ensures forall x :: x in r <==> x in recipes && x.id != id
  {
    FilterIsSubseq(recipes, NotRecipe(id));
    Filter(recipes, NotRecipe(id))
  }

  /** The page state `toggleFavorite` touches: the favourite ids and the cards shown. */
  datatype FavState = FavState(favorites: set<int>, recipes: seq<Recipe>)

  /** `toggleFavorite(e, recipeId)` once the request succeeded: a favourite is
      removed (and its card dropped on the favourites page), anything else is added. */
  function ToggleFavorite(page: Page, s: FavState, id: int): (t: FavState)
    ensures id in t.favorites <==> id !in s.favorites
    ensures t.favorites - {id} == s.favorites - {id}
    ensures id in s.favorites && page.FavoritesPage? ==> t.recipes == DeleteRecipe(s.recipes, id)
    ensures !(id in s.favorites && page.FavoritesPage?) ==> t.recipes == s.recipes
  {
    if id in s.favorites then
      FavState(s.favorites - {id}, if page.FavoritesPage? then DeleteRecipe(s.recipes, id) else s.recipes)
    else FavState(s.favorites + {id}, s.recipes)
  }

  /** Toggling twice restores the favourite ids. Outside the favourites page
      the cards are untouched; on it, whichever of the two toggles removes the
      favourite also takes the card away. */
  lemma ToggleFavoriteTwice(page: Page, s: FavState, id: int)
    ensures ToggleFavorite(page, ToggleFavorite(page, s, id), id).favorites == s.favorites
    ensures !page.FavoritesPage? ==> ToggleFavorite(page, ToggleFavorite(page, s, id), id).recipes == s.recipes
    ensures page.FavoritesPage? ==>
              ToggleFavorite(page, ToggleFavorite(page, s, id), id).recipes == DeleteRecipe(s.recipes, id)
  {
  }

  /** Only drafts and rejected recipes can be sent to moderation. */
  predicate CanSendToModeration(status: string)
  {
    status == Draft || status == Rejected
  }

  /** `handleSendToModeration(e, recipeId, currentStatus)` once the request
      succeeded: the recipe with that id becomes PENDING; nothing else changes. */
  function SendToModeration(recipes: seq<Recipe>, id: int, currentStatus: string): (r: seq<Recipe>)
    ensures |r| == |recipes|
    ensures !CanSendToModeration(currentStatus) ==> r == recipes
    ensures forall i :: 0 <= i < |recipes| && recipes[i].id != id ==> r[i] == recipes[i]
    ensures CanSendToModeration(currentStatus) ==> forall i :: 0 <= i < |recipes| && recipes[i].id == id ==>
              r[i].status == Pending && r[i].(status := recipes[i].status) == recipes[i]
  {
    if CanSendToModeration(currentStatus) then
      seq(|recipes|, i requires 0 <= i < |recipes| =>
        if recipes[i].id == id then recipes[i].(status := Pending) else recipes[i])
    else recipes
  }

  /** A recipe sent to moderation cannot be sent again from its card. */
  lemma SendToModerationOnce(recipes: seq<Recipe>, id: int, i: nat)
    requires i < |recipes| && recipes[i].id == id && CanSendToModeration(recipes[i].status)
    ensures var once := SendToModeration(recipes, id, recipes[i].status);
            SendToModeration(once, id, once[i].status) == once
  {
  }

  // ---------------------------------------------------------------------------
  // Status colour
  // ---------------------------------------------------------------------------

  const Grey: string := "#848484"
  const Yellow: string := "#C39243"
  const Green: string := "#74AF3C"
  const Red: string := "#BF3030"

  /** `getStatusColor(status)`: grey for drafts and for any unknown status. */
  function StatusColor(status: string): (c: string)
    ensures c == Grey || c == Yellow || c == Green || c == Red
    ensures c == Yellow <==> status == Pending
    ensures c == Green <==> status == Approved
    ensures c == Red <==> status == Rejected
    ensures c == Grey <==> status != Pending && status != Approved && status != Rejected
  {
    if status == Draft then Grey
    else if status == Pending then Yellow
    else if status == Approved then Green
    else if status == Rejected then Red
    else Grey
  }

  // ---------------------------------------------------------------------------
  // Rendering the groups
  // ---------------------------------------------------------------------------

  function NotOther(b: RecipeGroups.Bucket): bool
  {
    b.name != RecipeGroups.Other
  }

  /** The groups rendered: every bucket but "Прочее", in order. */
  function VisibleGroups(groups: seq<RecipeGroups.Bucket>): (r: seq<RecipeGroups.Bucket>)
    ensures IsSubseq(r, groups)
    ensures forall b :: b in r <==> b in groups && b.name != RecipeGroups.Other
  {
    FilterIsSubseq(groups, NotOther);
    Filter(groups, NotOther)
  }

  /** `filteredRecipes`: the strict category filter runs only when a value is selected. */
  function PageRecipes(recipes: seq<Recipe>, selectedType: Option<string>, selectedValue: Option<string>)
    : (r: seq<Recipe>)
    ensures IsSubseq(r, recipes)
    ensures FalsyString(selectedType) || FalsyString(selectedValue) ==> r == recipes
    ensures !FalsyString(selectedType) && !FalsyString(selectedValue) ==> forall x :: x in r <==>
              x in recipes && CategoryFilter.HasCategory(x, selectedType.value, selectedValue.value)
  {
    if FalsyString(selectedValue) then
      SubseqRefl(recipes);
      recipes
    else CategoryFilter.FilterRecipesByStrictCategory(recipes, selectedType, selectedValue)
  }

  /** The groups the page renders for the current selectors. With a type
      selected they have distinct names, each holds exactly the shown recipes
      of its name in list order, and every shown recipe outside "Прочее" is in one. */
  function PageGroups(recipes: seq<Recipe>, selectedType: Option<string>, selectedValue: Option<string>)
    : (r: seq<RecipeGroups.Bucket>)
    ensures forall b :: b in r ==> b.name != RecipeGroups.Other
    ensures FalsyString(selectedType) ==> r == [RecipeGroups.Bucket(RecipeGroups.AllRecipes, recipes)]
    ensures !FalsyString(selectedType) ==> forall i, j :: 0 <= i < j < |r| ==> r[i].name != r[j].name
    ensures !FalsyString(selectedType) ==> forall b :: b in r ==>
              |b.recipes| > 0
              && b.recipes == Filter(PageRecipes(recipes, selectedType, selectedValue),
                                     RecipeGroups.InGroup(selectedType.value, b.name))
    ensures !FalsyString(selectedType) ==> forall x ::
              x in PageRecipes(recipes, selectedType, selectedValue)
              && RecipeGroups.GroupName(x, selectedType.value) != RecipeGroups.Other
              ==> RecipeGroups.InSomeBucket(r, x)
  {
    var shown := PageRecipes(recipes, selectedType, selectedValue);
    var all := RecipeGroups.GroupRecipesByCategoryType(shown, selectedType);
    if FalsyString(selectedType) then VisibleGroups(all)
    else
      VisibleOfWellGrouped(shown, selectedType.value, all);
      VisibleGroups(all)
  }

  /** Hiding "Прочее" from a well-formed grouping leaves distinct names, the
      buckets' exact contents, and a bucket for every recipe of another name. */
  lemma VisibleOfWellGrouped(shown: seq<Recipe>, t: string, all: seq<RecipeGroups.Bucket>)
    requires RecipeGroups.WellGrouped(shown, t, all)
    ensures var r := VisibleGroups(all);
            && (forall i, j :: 0 <= i < j < |r| ==> r[i].name != r[j].name)
            && (forall b :: b in r ==> |b.recipes| > 0 && b.recipes == Filter(shown, RecipeGroups.InGroup(t, b.name)))
            && (forall x :: x in shown && RecipeGroups.GroupName(x, t) != RecipeGroups.Other
                  ==> RecipeGroups.InSomeBucket(r, x))
  {
    var r := VisibleGroups(all);
    forall b | b in r
      ensures |b.recipes| > 0 && b.recipes == Filter(shown, RecipeGroups.InGroup(t, b.name))
    {
      var i :| 0 <= i < |all| && all[i] == b;
    }
    assert NoDup(all) by {
      forall i, j | 0 <= i < j < |all|
        ensures all[i] != all[j]
      {
        assert all[i].name != all[j].name;
      }
    }
    FilterNoDup(all, NotOther);
    forall i, j | 0 <= i < j < |r|
      ensures r[i].name != r[j].name
    {
      assert r[i] in all && r[j] in all;
      var i' :| 0 <= i' < |all| && all[i'] == r[i];
      var j' :| 0 <= j' < |all| && all[j'] == r[j];
      assert r[i] != r[j];
      assert i' != j' ==> all[i'].name != all[j'].name;
    }
    forall x | x in shown && RecipeGroups.GroupName(x, t) != RecipeGroups.Other
      ensures RecipeGroups.InSomeBucket(r, x)
    {
      var k :| 0 <= k < |shown| && shown[k] == x;
      var b := RecipeGroups.BucketIndex(all, RecipeGroups.GroupName(x, t));
      assert x in Filter(shown, RecipeGroups.InGroup(t, all[b].name));
      assert all[b] in r;
      var i :| 0 <= i < |r| && r[i] == all[b];
    }
  }

  /** The recipe carries at most one entry of the type. */
  predicate OneEntryOfType(r: Recipe, typeName: string)
  {
    forall i, j ::
      (0 <= i < |r.categoryValues| && 0 <= j < |r.categoryValues|
       && r.categoryValues[i].typeName == typeName && r.categoryValues[j].typeName == typeName) ==> i == j
  }

  /** With a type and a value selected, and one entry of that type per recipe,
      the page renders the single group named by the value, holding every
      matching recipe in list order; it renders nothing when no recipe matches
      or when the value is "Прочее" itself. */
  lemma SelectedValueSingleGroup(recipes: seq<Recipe>, t: string, v: string)
    requires t != "" && v != ""
    requires forall i :: 0 <= i < |recipes| ==> OneEntryOfType(recipes[i], t)
    ensures var filtered := CategoryFilter.FilterRecipesByStrictCategory(recipes, Some(t), Some(v));
            PageGroups(recipes, Some(t), Some(v)) ==
              if v == RecipeGroups.Other || filtered == [] then [] else [RecipeGroups.Bucket(v, filtered)]
  {
    var filtered := PageRecipes(recipes, Some(t), Some(v));
    var all := RecipeGroups.GroupRecipesByCategoryType(filtered, Some(t));
    forall x | x in filtered
      ensures RecipeGroups.GroupName(x, t) == v
    {
      var k :| 0 <= k < |x.categoryValues| && x.categoryValues[k].typeName == t && x.categoryValues[k].categoryValue == v;
      assert OneEntryOfType(x, t);
      RecipeGroups.BucketOfRecipe(x, t);
    }
    forall k | 0 <= k < |filtered|
      ensures RecipeGroups.GroupName(filtered[k], t) == v
    {
      assert filtered[k] in filtered;
    }
    RecipeGroups.ReduceOneName(filtered, t, v);
  }
}
