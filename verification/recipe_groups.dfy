/** Grouping a recipe list into named buckets by the value a recipe carries for
    one category type (src/utils/recipeUtils.ts). The source builds a
    `Record<string, RecipeDto[]>` with `reduce`; the model keeps the record as a
    list of buckets in the order their names are first met. */
module RecipeGroups {
  import opened Domain
  import opened Seqs

  /** Name of the single bucket returned when no type is selected. */
  const AllRecipes: string := "Всего рецептов"
  /** Name of the catch-all bucket for recipes without a value of the selected type. */
  const Other: string := "Прочее"

  datatype Bucket = Bucket(name: string, recipes: seq<Recipe>)

  /** The first entry of a recipe's category map that has the type, if any. */
  function FindEntry(cs: seq<CategoryValue>, typeName: string): (r: Option<CategoryValue>)
    ensures r.None? <==> forall k :: 0 <= k < |cs| ==> cs[k].typeName != typeName
    ensures r.Some? ==> exists k :: 0 <= k < |cs| && cs[k] == r.value && r.value.typeName == typeName
                                    && forall j :: 0 <= j < k ==> cs[j].typeName != typeName
  {
    if |cs| == 0 then None
    else if cs[0].typeName == typeName then Some(cs[0])
    else
      var r := FindEntry(cs[1..], typeName);
      assert r.Some? ==> exists k :: 1 <= k < |cs| && cs[k] == r.value
                                     && forall j :: 1 <= j < k ==> cs[j].typeName != typeName by {
        if r.Some? {
          var k :| 0 <= k < |cs[1..]| && cs[1..][k] == r.value
                   && forall j :: 0 <= j < k ==> cs[1..][j].typeName != typeName;
          assert cs[k + 1] == r.value;
          assert forall j :: 1 <= j < k + 1 ==> cs[j].typeName == cs[1..][j - 1].typeName;
        }
      }
      r
  }

  /** The bucket a recipe goes to: the value of its first entry of the selected type, else "Прочее". */
  function GroupName(r: Recipe, typeName: string): string
  {
    match FindEntry(r.categoryValues, typeName)
    case Some(c) => c.categoryValue
    case None => Other
  }

  /** The test "this recipe belongs in bucket `name`". */
  function InGroup(typeName: string, name: string): Recipe -> bool
  {
    r => GroupName(r, typeName) == name
  }

  /** Looking a bucket up by name: the position of the bucket called `name`, or -1. */
  function BucketIndex(groups: seq<Bucket>, name: string): (i: int)
    ensures -1 <= i < |groups|
    ensures i >= 0 ==> groups[i].name == name
    ensures i < 0 ==> forall k :: 0 <= k < |groups| ==> groups[k].name != name
  {
    if |groups| == 0 then -1
    else if groups[|groups| - 1].name == name then |groups| - 1
    else BucketIndex(groups[..|groups| - 1], name)
  }

  /** One reduce step: create the bucket if missing, then push the recipe onto it. */
  function Push(groups: seq<Bucket>, name: string, r: Recipe): seq<Bucket>
  {
    var i := BucketIndex(groups, name);
    if i < 0 then groups + [Bucket(name, [r])]
    else groups[i := Bucket(name, groups[i].recipes + [r])]
  }

  /** The grouping fold: a left fold of `Push` over the recipes, from no buckets. */
  function Reduce(recipes: seq<Recipe>, typeName: string): seq<Bucket>
    decreases |recipes|
  {
    if |recipes| == 0 then []
    else
      var n := |recipes| - 1;
      Push(Reduce(recipes[..n], typeName), GroupName(recipes[n], typeName), recipes[n])
  }

  /** What the buckets of a typed grouping are: distinct names, each bucket
      holding exactly the recipes of its name in input order, none empty, and a
      bucket for every recipe. */
  ghost predicate WellGrouped(recipes: seq<Recipe>, typeName: string, groups: seq<Bucket>)
  {
    && (forall i, j :: 0 <= i < j < |groups| ==> groups[i].name != groups[j].name)
    && (forall i :: 0 <= i < |groups| ==> groups[i].recipes == Filter(recipes, InGroup(typeName, groups[i].name)))
    && (forall i :: 0 <= i < |groups| ==> |groups[i].recipes| > 0)
    && (forall k :: 0 <= k < |recipes| ==> BucketIndex(groups, GroupName(recipes[k], typeName)) >= 0)
  }

  /** `groupRecipesByCategoryType(recipes, typeName)`. */
  function GroupRecipesByCategoryType(recipes: seq<Recipe>, typeName: Option<string>): (groups: seq<Bucket>)
    ensures FalsyString(typeName) ==> groups == [Bucket(AllRecipes, recipes)]
    ensures !FalsyString(typeName) ==> WellGrouped(recipes, typeName.value, groups)
  {
    if FalsyString(typeName) then [Bucket(AllRecipes, recipes)]
    else
      ReduceWellGrouped(recipes, typeName.value);
      Reduce(recipes, typeName.value)
  }

  /** The fold builds a well-formed grouping of every prefix it has scanned. */
  lemma {:induction false} ReduceWellGrouped(recipes: seq<Recipe>, typeName: string)
    ensures WellGrouped(recipes, typeName, Reduce(recipes, typeName))
    decreases |recipes|
  {
    if |recipes| > 0 {
      var n := |recipes| - 1;
      assert recipes == recipes[..n] + [recipes[n]];
      ReduceWellGrouped(recipes[..n], typeName);
      PushWellGrouped(recipes[..n], recipes[n], typeName, Reduce(recipes[..n], typeName));
    }
  }

  /** When every recipe goes to the bucket `name`, the fold builds that single
      bucket holding the whole list, or nothing for an empty list. */
  lemma {:induction false} ReduceOneName(recipes: seq<Recipe>, typeName: string, name: string)
    requires forall k :: 0 <= k < |recipes| ==> GroupName(recipes[k], typeName) == name
    ensures Reduce(recipes, typeName) == if recipes == [] then [] else [Bucket(name, recipes)]
    decreases |recipes|
  {
    if |recipes| > 0 {
      var n := |recipes| - 1;
      var front := recipes[..n];
      assert forall k :: 0 <= k < |front| ==> front[k] == recipes[k];
      ReduceOneName(front, typeName, name);
      assert GroupName(recipes[n], typeName) == name;
      PushOntoSingle(Reduce(front, typeName), front, name, recipes[n]);
      assert front + [recipes[n]] == recipes;
    }
  }

  /** Pushing onto no bucket, or onto the single bucket of the same name,
      leaves one bucket holding the recipes so far. */
  lemma PushOntoSingle(g: seq<Bucket>, front: seq<Recipe>, name: string, x: Recipe)
    requires g == if front == [] then [] else [Bucket(name, front)]
    ensures Push(g, name, x) == [Bucket(name, front + [x])]
  {
    if front == [] {
      assert BucketIndex(g, name) == -1;
      assert front + [x] == [x];
    } else {
      assert BucketIndex(g, name) == 0;
    }
  }

  /** One reduce step keeps the grouping well formed. */
  lemma PushWellGrouped(front: seq<Recipe>, x: Recipe, typeName: string, g: seq<Bucket>)
    requires WellGrouped(front, typeName, g)
    ensures WellGrouped(front + [x], typeName, Push(g, GroupName(x, typeName), x))
  {
    PushContents(front, x, typeName, g);
    PushNames(front, x, typeName, g);
    PushCovers(front, x, typeName, g);
  }

  /** One reduce step keeps bucket names distinct and buckets non-empty. */
  lemma PushNames(front: seq<Recipe>, x: Recipe, typeName: string, g: seq<Bucket>)
    requires WellGrouped(front, typeName, g)
    ensures var g' := Push(g, GroupName(x, typeName), x);
      && (forall i, j :: 0 <= i < j < |g'| ==> g'[i].name != g'[j].name)
      && (forall i :: 0 <= i < |g'| ==> |g'[i].recipes| > 0)
  {
  }

  /** After one reduce step every scanned recipe, the new one included, has a bucket. */
  lemma PushCovers(front: seq<Recipe>, x: Recipe, typeName: string, g: seq<Bucket>)
    requires WellGrouped(front, typeName, g)
    ensures var g' := Push(g, GroupName(x, typeName), x);
      forall k :: 0 <= k < |front + [x]| ==> BucketIndex(g', GroupName((front + [x])[k], typeName)) >= 0
  {
    var name := GroupName(x, typeName);
    var g' := Push(g, name, x);
    var i := BucketIndex(g, name);
    forall k | 0 <= k < |front + [x]|
      ensures BucketIndex(g', GroupName((front + [x])[k], typeName)) >= 0
    {
      if k < |front| {
        assert (front + [x])[k] == front[k];
        var j := BucketIndex(g, GroupName(front[k], typeName));
        assert g'[j].name == GroupName(front[k], typeName);
      } else {
        assert (front + [x])[k] == x;
        if i < 0 {
          assert g'[|g|].name == name;
        } else {
          assert g'[i].name == name;
        }
      }
    }
  }

  /** After one reduce step each bucket still holds exactly its recipes. */
  lemma PushContents(front: seq<Recipe>, x: Recipe, typeName: string, g: seq<Bucket>)
    requires WellGrouped(front, typeName, g)
    ensures var g' := Push(g, GroupName(x, typeName), x);
      forall b :: 0 <= b < |g'| ==> g'[b].recipes == Filter(front + [x], InGroup(typeName, g'[b].name))
  {
    var name := GroupName(x, typeName);
    var g' := Push(g, name, x);
    forall b | 0 <= b < |g'|
      ensures g'[b].recipes == Filter(front + [x], InGroup(typeName, g'[b].name))
    {
      FilterSnoc(front, x, InGroup(typeName, g'[b].name));
      if b == |g| {
        forall k | 0 <= k < |front|
          ensures !InGroup(typeName, name)(front[k])
        {
          assert BucketIndex(g, GroupName(front[k], typeName)) >= 0;
        }
        FilterNone(front, InGroup(typeName, name));
      }
    }
  }

  /** Total number of recipes held by the buckets. */
  function TotalSize(groups: seq<Bucket>): nat
  {
    if |groups| == 0 then 0 else |groups[0].recipes| + TotalSize(groups[1..])
  }

  lemma {:induction false} TotalSizeAppend(groups: seq<Bucket>, b: Bucket)
    ensures TotalSize(groups + [b]) == TotalSize(groups) + |b.recipes|
  {
    if |groups| > 0 {
      assert (groups + [b])[1..] == groups[1..] + [b];
      TotalSizeAppend(groups[1..], b);
    }
  }

  lemma {:induction false} TotalSizeUpdate(groups: seq<Bucket>, i: nat, b: Bucket)
    requires i < |groups|
    ensures TotalSize(groups[i := b]) == TotalSize(groups) - |groups[i].recipes| + |b.recipes|
  {
    if i > 0 {
      assert groups[i := b][1..] == groups[1..][i - 1 := b];
      TotalSizeUpdate(groups[1..], i - 1, b);
    }
  }

  /** No recipe is lost or duplicated: the bucket sizes add up to the input length. */
  lemma {:induction false} GroupSizesSum(recipes: seq<Recipe>, typeName: Option<string>)
    ensures TotalSize(GroupRecipesByCategoryType(recipes, typeName)) == |recipes|
  {
    if !FalsyString(typeName) {
      ReduceSize(recipes, typeName.value);
    }
  }

  lemma {:induction false} ReduceSize(recipes: seq<Recipe>, typeName: string)
    ensures TotalSize(Reduce(recipes, typeName)) == |recipes|
    decreases |recipes|
  {
    if |recipes| > 0 {
      var n := |recipes| - 1;
      ReduceSize(recipes[..n], typeName);
      var g := Reduce(recipes[..n], typeName);
      var name := GroupName(recipes[n], typeName);
      var i := BucketIndex(g, name);
      if i < 0 {
        TotalSizeAppend(g, Bucket(name, [recipes[n]]));
      } else {
        TotalSizeUpdate(g, i, Bucket(name, g[i].recipes + [recipes[n]]));
      }
    }
  }

  /** Some bucket holds `x`. */
  ghost predicate InSomeBucket(groups: seq<Bucket>, x: Recipe)
  {
    exists i :: 0 <= i < |groups| && x in groups[i].recipes
  }

  /** Every recipe lies in exactly one bucket, and each bucket keeps the input
      order; with a type selected, that bucket is the one named by the recipe's
      value for the type ("Прочее" when it has none). */
  lemma Partition(recipes: seq<Recipe>, typeName: Option<string>)
    ensures var groups := GroupRecipesByCategoryType(recipes, typeName);
      && (forall k :: 0 <= k < |recipes| ==> InSomeBucket(groups, recipes[k]))
      && (forall i, j, x ::
            (0 <= i < |groups| && 0 <= j < |groups| && x in groups[i].recipes && x in groups[j].recipes) ==> i == j)
      && (forall i :: 0 <= i < |groups| ==> IsSubseq(groups[i].recipes, recipes))
      && (!FalsyString(typeName) ==>
            forall i, x :: 0 <= i < |groups| && x in groups[i].recipes ==> groups[i].name == GroupName(x, typeName.value))
  {
    var groups := GroupRecipesByCategoryType(recipes, typeName);
    if !FalsyString(typeName) {
      var t := typeName.value;
      BucketsNamedByMembers(recipes, t, groups);
      BucketsDisjoint(recipes, t, groups);
      BucketsCover(recipes, t, groups);
      BucketsInOrder(recipes, t, groups);
    } else {
      SubseqRefl(recipes);
      forall k | 0 <= k < |recipes|
        ensures InSomeBucket(groups, recipes[k])
      {
        assert recipes[k] in groups[0].recipes;
      }
    }
  }

  /** In a well-formed grouping every recipe lies in some bucket. */
  lemma BucketsCover(recipes: seq<Recipe>, t: string, groups: seq<Bucket>)
    requires WellGrouped(recipes, t, groups)
    ensures forall k :: 0 <= k < |recipes| ==> InSomeBucket(groups, recipes[k])
  {
    forall k | 0 <= k < |recipes|
      ensures InSomeBucket(groups, recipes[k])
    {
      var b := BucketOf(recipes, t, groups, k);
    }
  }

  /** The bucket holding the k-th recipe of a well-formed grouping. */
  lemma BucketOf(recipes: seq<Recipe>, t: string, groups: seq<Bucket>, k: int) returns (b: int)
    requires WellGrouped(recipes, t, groups) && 0 <= k < |recipes|
    ensures 0 <= b < |groups| && recipes[k] in groups[b].recipes
  {
    b := BucketIndex(groups, GroupName(recipes[k], t));
    assert recipes[k] in Filter(recipes, InGroup(t, groups[b].name));
  }

  /** In a well-formed grouping every bucket keeps the input order. */
  lemma BucketsInOrder(recipes: seq<Recipe>, t: string, groups: seq<Bucket>)
    requires WellGrouped(recipes, t, groups)
    ensures forall i :: 0 <= i < |groups| ==> IsSubseq(groups[i].recipes, recipes)
  {
    forall i | 0 <= i < |groups|
      ensures IsSubseq(groups[i].recipes, recipes)
    {
      FilterIsSubseq(recipes, InGroup(t, groups[i].name));
    }
  }

  /** In a well-formed grouping a bucket holds only recipes of its own name. */
  lemma BucketsNamedByMembers(recipes: seq<Recipe>, t: string, groups: seq<Bucket>)
    requires WellGrouped(recipes, t, groups)
    ensures forall i, x :: 0 <= i < |groups| && x in groups[i].recipes ==> groups[i].name == GroupName(x, t)
  {
    forall i, x | 0 <= i < |groups| && x in groups[i].recipes
      ensures groups[i].name == GroupName(x, t)
    {
      assert x in Filter(recipes, InGroup(t, groups[i].name));
    }
  }

  /** In a well-formed grouping no recipe lies in two buckets. */
  lemma BucketsDisjoint(recipes: seq<Recipe>, t: string, groups: seq<Bucket>)
    requires WellGrouped(recipes, t, groups)
    ensures forall i, j, x ::
              (0 <= i < |groups| && 0 <= j < |groups| && x in groups[i].recipes && x in groups[j].recipes) ==> i == j
  {
    BucketsNamedByMembers(recipes, t, groups);
    forall i, j, x | 0 <= i < |groups| && 0 <= j < |groups| && x in groups[i].recipes && x in groups[j].recipes
      ensures i == j
    {
      assert groups[i].name == groups[j].name;
    }
  }

  /** A recipe whose category map has an entry of the selected type lands in
      the bucket named by that entry's value; a recipe without one lands in "Прочее". */
  lemma BucketOfRecipe(r: Recipe, typeName: string)
    ensures (forall k :: 0 <= k < |r.categoryValues| ==> r.categoryValues[k].typeName != typeName)
            ==> GroupName(r, typeName) == Other
    ensures forall k ::
              (0 <= k < |r.categoryValues| && r.categoryValues[k].typeName == typeName
               && (forall j :: 0 <= j < k ==> r.categoryValues[j].typeName != typeName))
              ==> GroupName(r, typeName) == r.categoryValues[k].categoryValue
  {
  }
}
