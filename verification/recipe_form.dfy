/** The local state of the recipe editor (src/pages/addEditRecipe/AddEditRecipe.tsx):
    the selected category values, the list of steps, the ingredient rows, and
    what the save handler sends for steps and ingredients. Requests, the
    dictionaries' loading and the calorie estimate are not part of this model. */
module RecipeForm {
  import opened Domain
  import opened Seqs
  import opened Text

  // ---------------------------------------------------------------------------
  // Category values: at most one per category type
  // ---------------------------------------------------------------------------

  /** Some dictionary entry with this id belongs to the type. */
  ghost predicate IsOfType(allValues: seq<CategoryValue>, typeId: int, id: int)
  {
    exists k :: 0 <= k < |allValues| && allValues[k].id == id && allValues[k].typeId == typeId
  }

  /** The ids of the dictionary entries of one type, in dictionary order. */
  function ValuesOfType(allValues: seq<CategoryValue>, typeId: int): (ids: seq<int>)
    ensures forall x :: x in ids <==> IsOfType(allValues, typeId, x)
  {
    if |allValues| == 0 then []
    else
      var rest := ValuesOfType(allValues[1..], typeId);
      assert forall x :: IsOfType(allValues[1..], typeId, x) ==> IsOfType(allValues, typeId, x) by {
        forall x | IsOfType(allValues[1..], typeId, x)
          ensures IsOfType(allValues, typeId, x)
        {
          var k :| 0 <= k < |allValues[1..]| && allValues[1..][k].id == x && allValues[1..][k].typeId == typeId;
          assert allValues[k + 1] == allValues[1..][k];
        }
      }
      assert forall x :: IsOfType(allValues, typeId, x) ==>
               (allValues[0].id == x && allValues[0].typeId == typeId) || IsOfType(allValues[1..], typeId, x) by {
        forall x | IsOfType(allValues, typeId, x)
          ensures (allValues[0].id == x && allValues[0].typeId == typeId) || IsOfType(allValues[1..], typeId, x)
        {
          var k :| 0 <= k < |allValues| && allValues[k].id == x && allValues[k].typeId == typeId;
          if k > 0 {
            assert allValues[1..][k - 1] == allValues[k];
          }
        }
      }
      (if allValues[0].typeId == typeId then [allValues[0].id] else []) + rest
  }

  /** The test "this id is not a value of the changed type". */
  function NotAmong(ids: seq<int>): int -> bool
  {
    x => x !in ids
  }

  /** `handleCategoryChange(typeId, valueId)`: drop every selected value of the
      type, then append `valueId` unless it is 0 (the "-- Выбрать --" option). */
  function CategoryChange(allValues: seq<CategoryValue>, selected: seq<int>, typeId: int, valueId: int)
    : (r: seq<int>)
    ensures valueId != 0 ==> valueId in r
    ensures forall x :: x in r && IsOfType(allValues, typeId, x) ==> x == valueId && valueId != 0
    ensures forall x :: !IsOfType(allValues, typeId, x) && x != valueId ==> (x in r <==> x in selected)
    ensures valueId == 0 ==> IsSubseq(r, selected)
  {
    var ofType := ValuesOfType(allValues, typeId);
    var filtered := Filter(selected, NotAmong(ofType));
    FilterIsSubseq(selected, NotAmong(ofType));
    if valueId == 0 then filtered else filtered + [valueId]
  }

  /** Choosing a value of the type again changes nothing; so does clearing twice. */
  lemma CategoryChangeIdempotent(allValues: seq<CategoryValue>, selected: seq<int>, typeId: int, valueId: int)
    requires valueId == 0 || IsOfType(allValues, typeId, valueId)
    ensures var once := CategoryChange(allValues, selected, typeId, valueId);
            CategoryChange(allValues, once, typeId, valueId) == once
  {
    var ofType := ValuesOfType(allValues, typeId);
    var filtered := Filter(selected, NotAmong(ofType));
    FilterIdempotent(selected, NotAmong(ofType));
    if valueId != 0 {
      FilterSnoc(filtered, valueId, NotAmong(ofType));
    }
  }

  /** The first dictionary entry with the id, if any. */
  function FindValue(allValues: seq<CategoryValue>, id: int): (r: Option<CategoryValue>)
    ensures r.Some? ==> r.value in allValues && r.value.id == id
    ensures r.None? ==> forall k :: 0 <= k < |allValues| ==> allValues[k].id != id
    ensures r.Some? ==> exists k :: 0 <= k < |allValues| && allValues[k] == r.value
                                    && forall j :: 0 <= j < k ==> allValues[j].id != id
  {
    if |allValues| == 0 then None
    else if allValues[0].id == id then Some(allValues[0])
    else
      var r := FindValue(allValues[1..], id);
      assert r.Some? ==> exists k :: 1 <= k < |allValues| && allValues[k] == r.value
                                     && forall j :: 1 <= j < k ==> allValues[j].id != id by {
        if r.Some? {
          var k :| 0 <= k < |allValues[1..]| && allValues[1..][k] == r.value
                   && forall j :: 0 <= j < k ==> allValues[1..][j].id != id;
          assert allValues[k + 1] == r.value;
          assert forall j :: 1 <= j < k + 1 ==> allValues[j].id == allValues[1..][j - 1].id;
        }
      }
      r
  }

  /** The id's dictionary entry exists and has the type. */
  predicate ShownFor(allValues: seq<CategoryValue>, typeId: int, id: int)
  {
    var v := FindValue(allValues, id);
    v.Some? && v.value.typeId == typeId
  }

  /** The `value` of the select of one type: the first selected id whose
      dictionary entry has that type, or None for the "-- Выбрать --" option. */
  function Displayed(allValues: seq<CategoryValue>, selected: seq<int>, typeId: int): (r: Option<int>)
    ensures r.Some? ==> r.value in selected && ShownFor(allValues, typeId, r.value)
    ensures r.None? ==> forall i :: 0 <= i < |selected| ==> !ShownFor(allValues, typeId, selected[i])
    ensures r.Some? ==> exists k :: 0 <= k < |selected| && selected[k] == r.value
                                    && forall j :: 0 <= j < k ==> !ShownFor(allValues, typeId, selected[j])
  {
    if |selected| == 0 then None
    else if ShownFor(allValues, typeId, selected[0]) then Some(selected[0])
    else
      var r := Displayed(allValues, selected[1..], typeId);
      assert r.Some? ==> exists k :: 1 <= k < |selected| && selected[k] == r.value
                                     && forall j :: 1 <= j < k ==> !ShownFor(allValues, typeId, selected[j]) by {
        if r.Some? {
          var k :| 0 <= k < |selected[1..]| && selected[1..][k] == r.value
                   && forall j :: 0 <= j < k ==> !ShownFor(allValues, typeId, selected[1..][j]);
          assert selected[k + 1] == r.value;
          assert forall j :: 1 <= j < k + 1 ==> selected[j] == selected[1..][j - 1];
        }
      }
      r
  }

  /** Category ids are unique in the dictionary. */
  predicate UniqueIds(allValues: seq<CategoryValue>)
  {
    forall i, j :: 0 <= i < j < |allValues| ==> allValues[i].id != allValues[j].id
  }

  lemma ShownForIff(allValues: seq<CategoryValue>, typeId: int, id: int)
    requires UniqueIds(allValues)
    ensures ShownFor(allValues, typeId, id) <==> IsOfType(allValues, typeId, id)
  {
  }

  /** A select shows the one selected id of its type. */
  lemma DisplayedUnique(allValues: seq<CategoryValue>, selected: seq<int>, typeId: int, v: int)
    requires v in selected && ShownFor(allValues, typeId, v)
    requires forall x :: x in selected && ShownFor(allValues, typeId, x) ==> x == v
    ensures Displayed(allValues, selected, typeId) == Some(v)
  {
  }

  /** After choosing value `v` for a type, that type's select shows `v`; after
      choosing "-- Выбрать --" it shows the placeholder. */
  lemma SelectShowsChoice(allValues: seq<CategoryValue>, selected: seq<int>, typeId: int, valueId: int)
    requires UniqueIds(allValues)
    requires valueId == 0 || IsOfType(allValues, typeId, valueId)
    ensures Displayed(allValues, CategoryChange(allValues, selected, typeId, valueId), typeId) ==
              if valueId == 0 then None else Some(valueId)
  {
    var r := CategoryChange(allValues, selected, typeId, valueId);
    forall x | x in r && ShownFor(allValues, typeId, x)
      ensures x == valueId && valueId != 0
    {
      ShownForIff(allValues, typeId, x);
    }
    if valueId != 0 {
      ShownForIff(allValues, typeId, valueId);
      DisplayedUnique(allValues, r, typeId, valueId);
    }
  }

  // ---------------------------------------------------------------------------
  // Steps: never fewer than one
  // ---------------------------------------------------------------------------

  /** A new recipe starts with one empty step. */
  const InitialSteps: seq<string> := [""]

  /** The steps of a loaded recipe, or the single empty step when it has none. */
  function LoadSteps(steps: seq<string>): (r: seq<string>)
    ensures |r| >= 1
    ensures |steps| > 0 ==> r == steps
    ensures |steps| == 0 ==> r == InitialSteps
  {
    if |steps| > 0 then steps else InitialSteps
  }

  /** `handleAddStep()`: one more empty step at the end. */
  function AddStep(steps: seq<string>): (r: seq<string>)
    ensures |r| == |steps| + 1 && r[..|steps|] == steps && r[|steps|] == ""
  {
    steps + [""]
  }

  /** `handleRemoveStep(index)`: refused while a single step remains. */
  function RemoveStep(steps: seq<string>, index: int): (r: seq<string>)
    ensures |steps| == 1 ==> r == steps
    ensures |steps| >= 1 ==> |r| >= 1
    ensures |steps| > 1 && 0 <= index < |steps| ==>
              |r| == |steps| - 1
              && (forall j :: 0 <= j < index ==> r[j] == steps[j])
              && (forall j :: index <= j < |r| ==> r[j] == steps[j + 1])
    ensures !(0 <= index < |steps|) ==> r == steps
  {
    if |steps| == 1 then steps else RemoveAt(steps, index)
  }

  /** `handleStepChange(index, value)`: the form only edits steps it renders. */
  function ChangeStep(steps: seq<string>, index: int, value: string): (r: seq<string>)
    requires 0 <= index < |steps|
    ensures |r| == |steps| && r[index] == value
    ensures forall j :: 0 <= j < |steps| && j != index ==> r[j] == steps[j]
  {
    steps[index := value]
  }

  /** Adding a step and removing that new step restores the list. */
  lemma RemoveStepUndoesAdd(steps: seq<string>)
    requires |steps| >= 1
    ensures RemoveStep(AddStep(steps), |steps|) == steps
  {
    RemoveAtLast(steps, "");
  }

  /** The edits the step editor can make. */
  datatype StepEdit = AddEmptyStep | RemoveStepAt(index: int) | ChangeStepAt(index: int, value: string)

  /** Applies an edit; an edit of a step that is not rendered is ignored. */
  function ApplyStepEdit(steps: seq<string>, e: StepEdit): seq<string>
  {
    match e
    case AddEmptyStep => AddStep(steps)
    case RemoveStepAt(i) => RemoveStep(steps, i)
    case ChangeStepAt(i, v) => if 0 <= i < |steps| then ChangeStep(steps, i, v) else steps
  }

  function ApplyStepEdits(steps: seq<string>, edits: seq<StepEdit>): seq<string>
    decreases |edits|
  {
    if |edits| == 0 then steps else ApplyStepEdits(ApplyStepEdit(steps, edits[0]), edits[1..])
  }

  /** Starting from a non-empty list, no sequence of edits empties it. */
  lemma {:induction false} StepsNeverEmpty(steps: seq<string>, edits: seq<StepEdit>)
    requires |steps| >= 1
    ensures |ApplyStepEdits(steps, edits)| >= 1
    decreases |edits|
  {
    if |edits| > 0 {
      StepsNeverEmpty(ApplyStepEdit(steps, edits[0]), edits[1..]);
    }
  }

  /** The test "this step is not blank once trimmed". */
  function NotBlank(step: string): bool
  {
    Trim(step) != ""
  }

  /** The steps saved: the blank ones are dropped. */
  function CleanSteps(steps: seq<string>): (r: seq<string>)
    ensures IsSubseq(r, steps)
    ensures forall s :: s in r <==> s in steps && !IsBlank(s)
    ensures forall s :: multiset(r)[s] == if IsBlank(s) then 0 else multiset(steps)[s]
  {
    FilterIsSubseq(steps, NotBlank);
    FilterCounts(steps, NotBlank);
    forall s | s in steps
      ensures NotBlank(s) <==> !IsBlank(s)
    {
      TrimEmptyIffBlank(s);
    }
    Filter(steps, NotBlank)
  }

  /** Cleaning already cleaned steps changes nothing, and steps none of which is blank are kept as they are. */
  lemma CleanStepsIdempotent(steps: seq<string>)
    ensures CleanSteps(CleanSteps(steps)) == CleanSteps(steps)
    ensures (forall i :: 0 <= i < |steps| ==> !IsBlank(steps[i])) ==> CleanSteps(steps) == steps
  {
    FilterIdempotent(steps, NotBlank);
    if forall i :: 0 <= i < |steps| ==> !IsBlank(steps[i]) {
      forall i | 0 <= i < |steps|
        ensures NotBlank(steps[i])
      {
        TrimEmptyIffBlank(steps[i]);
      }
      FilterAll(steps, NotBlank);
    }
  }

  // ---------------------------------------------------------------------------
  // Ingredient rows
  // ---------------------------------------------------------------------------

  /** What an id field of a row holds: the initial `''`, a number, or the
      `null` a loaded line may carry. */
  datatype Cell = Blank | Num(n: int) | Null

  /** The number a cell converts to: the initial blank and null both convert to 0. */
  function ToNumber(c: Cell): int
  {
    match c
    case Blank => 0
    case Num(n) => n
    case Null => 0
  }

  /** One row of the ingredient table. */
  datatype Row = Row(ingredientId: Cell, amount: Option<string>, unitId: Cell)

  /** A fresh row: blank ingredient and unit, empty amount. */
  const EmptyRow: Row := Row(Blank, Some(""), Blank)

  /** The initial table holds a single empty row. */
  const InitialRows: seq<Row> := [EmptyRow]

  /** The rows built from a loaded recipe's ingredient lines. */
  function LoadRows(ings: seq<RecipeIngredient>): (rows: seq<Row>)
    ensures |rows| == |ings|
    ensures forall i :: 0 <= i < |ings| ==> rows[i].ingredientId != Blank && rows[i].amount == ings[i].amount
    ensures forall i :: 0 <= i < |ings| ==> (ings[i].id.Some? <==> rows[i].ingredientId.Num?)
    ensures forall i :: 0 <= i < |ings| ==>
              rows[i].ingredientId == (if ings[i].id.Some? then Num(ings[i].id.value) else Null)
    ensures forall i :: 0 <= i < |ings| ==>
              rows[i].unitId == (if ings[i].unitId.Some? then Num(ings[i].unitId.value) else Null)
  {
    seq(|ings|, i requires 0 <= i < |ings| =>
      Row(if ings[i].id.Some? then Num(ings[i].id.value) else Null,
          ings[i].amount,
          if ings[i].unitId.Some? then Num(ings[i].unitId.value) else Null))
  }

  /** Adding an ingredient row appends one fresh row. */
  function AddRow(rows: seq<Row>): (r: seq<Row>)
    ensures |r| == |rows| + 1 && r[..|rows|] == rows && r[|rows|] == EmptyRow
  {
    rows + [EmptyRow]
  }

  /** `removeIngredient(index)`: unlike the steps, the last row can go too. */
  function RemoveRow(rows: seq<Row>, index: int): (r: seq<Row>)
    ensures 0 <= index < |rows| ==> |r| == |rows| - 1
    ensures !(0 <= index < |rows|) ==> r == rows
    ensures 0 <= index < |rows| ==> forall j :: 0 <= j < index ==> r[j] == rows[j]
    ensures 0 <= index < |rows| ==> forall j :: index <= j < |r| ==> r[j] == rows[j + 1]
    ensures forall x :: x in r ==> x in rows
  {
    var r := RemoveAt(rows, index);
    assert forall j :: 0 <= j < |r| ==> r[j] in rows;
    r
  }

  /** The value a `<select>` reports: `None` is the empty placeholder option,
      `Some(id)` an entry's id. */
  function SelectNumber(option: Option<int>): (c: Cell)
    ensures c.Num?
    ensures option.None? ==> c == Num(0)
    ensures option.Some? ==> c == Num(option.value)
  {
    Num(if option.None? then 0 else option.value)
  }

  /** The edits `handleIngrChange(index, field, value)` performs. */
  datatype RowEdit = ChooseIngredient(option: Option<int>) | SetAmount(text: string) | ChooseUnit(option: Option<int>)

  /** `handleIngrChange(index, field, value)`: only rendered rows are edited;
      the select handlers pass `Number(e.target.value)`. */
  function ChangeRow(rows: seq<Row>, index: int, e: RowEdit): (r: seq<Row>)
    requires 0 <= index < |rows|
    ensures |r| == |rows|
    ensures forall j :: 0 <= j < |rows| && j != index ==> r[j] == rows[j]
    ensures e.ChooseIngredient? ==> r[index] == rows[index].(ingredientId := SelectNumber(e.option))
    ensures e.SetAmount? ==> r[index] == rows[index].(amount := Some(e.text))
    ensures e.ChooseUnit? ==> r[index] == rows[index].(unitId := SelectNumber(e.option))
  {
    var row := rows[index];
    var row' := match e
      case ChooseIngredient(o) => row.(ingredientId := SelectNumber(o))
      case SetAmount(t) => row.(amount := Some(t))
      case ChooseUnit(o) => row.(unitId := SelectNumber(o));
    rows[index := row']
  }

  /** RecipeIngredientRequest: what the save handler sends for one row. */
  datatype IngredientRequest = IngredientRequest(ingredientId: int, amount: Option<string>, unitId: int)

  function ToRequest(row: Row): IngredientRequest
  {
    IngredientRequest(ToNumber(row.ingredientId), row.amount, ToNumber(row.unitId))
  }

  function MapToRequests(rows: seq<Row>): (r: seq<IngredientRequest>)
    ensures |r| == |rows|
    ensures forall i :: 0 <= i < |rows| ==> r[i] == ToRequest(rows[i])
  {
    seq(|rows|, i requires 0 <= i < |rows| => ToRequest(rows[i]))
  }

  /** The test "this row's id is not the initial blank". */
  function IdNotBlank(row: Row): bool
  {
    row.ingredientId != Blank
  }

  /** `formattedIngredients` as the save handler computes it: only rows whose id
      is still the initial `''` are dropped. */
  function FormatIngredientsAsWritten(rows: seq<Row>): (r: seq<IngredientRequest>)
    ensures |r| <= |rows|
    ensures forall row :: row in rows && row.ingredientId != Blank ==> ToRequest(row) in r
    ensures forall q :: q in r ==> exists row :: row in rows && row.ingredientId != Blank && ToRequest(row) == q
  {
    var kept := Filter(rows, IdNotBlank);
    var r := MapToRequests(kept);
    assert forall row :: row in kept ==> ToRequest(row) in r by {
      forall row | row in kept
        ensures ToRequest(row) in r
      {
        var i :| 0 <= i < |kept| && kept[i] == row;
        assert r[i] == ToRequest(row);
      }
    }
    assert forall q :: q in r ==> exists row :: row in rows && row.ingredientId != Blank && ToRequest(row) == q by {
      forall q | q in r
        ensures exists row :: row in rows && row.ingredientId != Blank && ToRequest(row) == q
      {
        var i :| 0 <= i < |r| && r[i] == q;
        assert kept[i] in kept;
      }
    }
    r
  }

  /** The table after choosing ingredient `id` in the fresh row and then going
      back to "-- Выбрать продукт --". */
  function PlaceholderAgain(id: int): seq<Row>
  {
    ChangeRow(ChangeRow(InitialRows, 0, ChooseIngredient(Some(id))), 0, ChooseIngredient(None))
  }

  /** Going back to the placeholder option turns the row's id into the number 0,
      which is not the initial blank, so the save filter sends an ingredient with id 0. */
  lemma PlaceholderRowIsSent(id: int)
    ensures IngredientRequest(0, Some(""), 0) in FormatIngredientsAsWritten(PlaceholderAgain(id))
  {
    var rows := PlaceholderAgain(id);
    assert rows[0] == Row(Num(0), Some(""), Blank);
    assert rows[0] in rows;
  }

  /** A row names an ingredient once its id is a number other than 0. */
  function HasIngredient(row: Row): bool
  {
    ToNumber(row.ingredientId) != 0
  }

  /** `formattedIngredients` as intended: rows without a chosen ingredient,
      whether never touched (`''`), reset to the placeholder (0) or loaded with
      a null id, are dropped; the others are sent in table order. */
  function FormatIngredients(rows: seq<Row>): (r: seq<IngredientRequest>)
    ensures forall i :: 0 <= i < |r| ==> r[i].ingredientId != 0
    ensures forall row :: row in rows && row.ingredientId.Num? && row.ingredientId.n != 0 ==> ToRequest(row) in r
    ensures forall q :: q in r ==> exists row :: row in rows && ToRequest(row) == q
  {
    var kept := Filter(rows, HasIngredient);
    var r := MapToRequests(kept);
    assert forall row :: row in kept ==> ToRequest(row) in r by {
      forall row | row in kept
        ensures ToRequest(row) in r
      {
        var i :| 0 <= i < |kept| && kept[i] == row;
        assert r[i] == ToRequest(row);
      }
    }
    assert forall i :: 0 <= i < |r| ==> r[i].ingredientId != 0 by {
      forall i | 0 <= i < |r|
        ensures r[i].ingredientId != 0
      {
        assert kept[i] in kept;
      }
    }
    assert forall q :: q in r ==> exists row :: row in rows && ToRequest(row) == q by {
      forall q | q in r
        ensures exists row :: row in rows && ToRequest(row) == q
      {
        var i :| 0 <= i < |r| && r[i] == q;
        assert kept[i] in kept;
      }
    }
    r
  }

  /** The intended filter agrees with the written one whenever no row holds a 0 or null id. */
  lemma FormatIngredientsAgree(rows: seq<Row>)
    requires forall i :: 0 <= i < |rows| ==> rows[i].ingredientId.Blank? || HasIngredient(rows[i])
    ensures FormatIngredients(rows) == FormatIngredientsAsWritten(rows)
  {
    FilterCongruent(rows, HasIngredient, IdNotBlank);
  }

  /** The placeholder row of `PlaceholderRowIsSent` is not sent by the intended filter. */
  lemma PlaceholderRowIsDropped(id: int)
    ensures FormatIngredients(PlaceholderAgain(id)) == []
  {
    var rows := PlaceholderAgain(id);
    assert rows == [Row(Num(0), Some(""), Blank)];
    FilterNone(rows, HasIngredient);
  }

  lemma MapToRequestsAppend(a: seq<Row>, b: seq<Row>)
    ensures MapToRequests(a + b) == MapToRequests(a) + MapToRequests(b)
  {
  }

  /** The written save filter works row by row, in table order: the table's
      requests are the first part's followed by the second part's, and one row
      yields its request exactly when its id is not the initial blank. */
  lemma FormatIngredientsAsWrittenRowByRow(a: seq<Row>, b: seq<Row>, row: Row)
    ensures FormatIngredientsAsWritten(a + b) == FormatIngredientsAsWritten(a) + FormatIngredientsAsWritten(b)
    ensures FormatIngredientsAsWritten([row]) == if row.ingredientId != Blank then [ToRequest(row)] else []
  {
    FilterAppend(a, b, IdNotBlank);
    MapToRequestsAppend(Filter(a, IdNotBlank), Filter(b, IdNotBlank));
    assert Filter([row], IdNotBlank) == (if IdNotBlank(row) then [row] else []) + Filter([row][1..], IdNotBlank);
  }

  /** The intended save filter works row by row, in table order: one row
      yields its request exactly when it names an ingredient. */
  lemma FormatIngredientsRowByRow(a: seq<Row>, b: seq<Row>, row: Row)
    ensures FormatIngredients(a + b) == FormatIngredients(a) + FormatIngredients(b)
    ensures FormatIngredients([row]) == if ToNumber(row.ingredientId) != 0 then [ToRequest(row)] else []
  {
    FilterAppend(a, b, HasIngredient);
    MapToRequestsAppend(Filter(a, HasIngredient), Filter(b, HasIngredient));
    assert Filter([row], HasIngredient) == (if HasIngredient(row) then [row] else []) + Filter([row][1..], HasIngredient);
  }

  /** Removing the row just added gives back the table. */
  lemma RemoveRowUndoesAdd(rows: seq<Row>)
    ensures RemoveRow(AddRow(rows), |rows|) == rows
  {
    RemoveAtLast(rows, EmptyRow);
  }

  /** Two edits of the same field of a row: the second one wins. */
  lemma ChangeRowLastWins(rows: seq<Row>, index: int, e1: RowEdit, e2: RowEdit)
    requires 0 <= index < |rows|
    requires e1.ChooseIngredient? == e2.ChooseIngredient? && e1.SetAmount? == e2.SetAmount?
    ensures ChangeRow(ChangeRow(rows, index, e1), index, e2) == ChangeRow(rows, index, e2)
  {
  }

  /** Editing a field and then entering its former value again restores the table. */
  lemma ChangeRowRestores(rows: seq<Row>, index: int, e: RowEdit, n: int, text: string)
    requires 0 <= index < |rows|
    ensures rows[index].ingredientId == Num(n) && e.ChooseIngredient? ==>
              ChangeRow(ChangeRow(rows, index, e), index, ChooseIngredient(Some(n))) == rows
    ensures rows[index].amount == Some(text) && e.SetAmount? ==>
              ChangeRow(ChangeRow(rows, index, e), index, SetAmount(text)) == rows
    ensures rows[index].unitId == Num(n) && e.ChooseUnit? ==>
              ChangeRow(ChangeRow(rows, index, e), index, ChooseUnit(Some(n))) == rows
  {
  }

  /** The request the intended save sends for one loaded line, if any: a line
      sends its id, amount and unit (0 for a missing unit) when it has a
      non-zero ingredient id. */
  function LineRequest(ing: RecipeIngredient): seq<IngredientRequest>
  {
    if ing.id.Some? && ing.id.value != 0 then
      [IngredientRequest(ing.id.value, ing.amount, if ing.unitId.Some? then ing.unitId.value else 0)]
    else []
  }

  /** Reference definition: the requests of the loaded lines, line by line. */
  function LineRequests(ings: seq<RecipeIngredient>): seq<IngredientRequest>
    decreases |ings|
  {
    if |ings| == 0 then [] else LineRequest(ings[0]) + LineRequests(ings[1..])
  }

  /** Saving a loaded recipe unchanged: the intended save sends exactly the
      lines with a non-zero ingredient id, in order, with their id, amount and
      unit. */
  lemma {:induction false} LoadThenSave(ings: seq<RecipeIngredient>)
    ensures FormatIngredients(LoadRows(ings)) == LineRequests(ings)
    decreases |ings|
  {
    if |ings| > 0 {
      var rows := LoadRows(ings);
      var rest := LoadRows(ings[1..]);
      LoadThenSave(ings[1..]);
      assert rows == [rows[0]] + rest;
      FormatIngredientsRowByRow([rows[0]], rest, rows[0]);
      assert FormatIngredients([rows[0]]) == LineRequest(ings[0]);
    }
  }

  /** The written save sends every loaded line, a null id or unit as 0. */
  lemma LoadedRowsAllSent(ings: seq<RecipeIngredient>)
    ensures FormatIngredientsAsWritten(LoadRows(ings)) == MapToRequests(LoadRows(ings))
  {
    var rows := LoadRows(ings);
    forall i | 0 <= i < |rows|
      ensures IdNotBlank(rows[i])
    {
    }
    FilterAll(rows, IdNotBlank);
  }
}
