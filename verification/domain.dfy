/** The transport records the client receives from the recipe service
    (src/types/index.ts), restricted to the fields the modelled logic reads,
    and the JavaScript notion of a "falsy" optional string. */
module Domain {

  /** An optional value: a field that may be null or missing. */
  datatype Option<T> = None | Some(value: T)

  /** An optional string that JavaScript treats as false: absent or empty. */
  predicate FalsyString(s: Option<string>)
  {
    s.None? || s.value == ""
  }

  /** Lifecycle statuses a recipe can carry. The field is a plain string on
      the wire, so other values are possible and handled by default branches. */
  const Draft: string := "DRAFT"
  const Pending: string := "PENDING"
  const Approved: string := "APPROVED"
  const Rejected: string := "REJECTED"

  /** CategoryValueDto: a value of a category type, e.g. type "Кухня", value "Итальянская". */
  datatype CategoryValue = CategoryValue(id: int, typeId: int, typeName: string, categoryValue: string)

  /** IngredientWithAmountDto: an ingredient line of a recipe; `unitId` is `unit.id`. */
  datatype RecipeIngredient = RecipeIngredient(id: Option<int>, name: string, amount: Option<string>, unitId: Option<int>)

  /** RecipeDto. `categoryValues` is the recipe's category map listed in
      `Object.values` order. */
  datatype Recipe = Recipe(
    id: int,
    name: string,
    image: Option<string>,
    status: string,
    cookingTimeMinutes: Option<int>,
    categoryValues: seq<CategoryValue>,
    ingredients: seq<RecipeIngredient>,
    steps: seq<string>)

  /** IngredientDto: an entry of the ingredient dictionary. */
  datatype Ingredient = Ingredient(id: int, name: string)

  /** UserDto as the admin user list holds it. */
  datatype User = User(id: int, username: string, email: string, roles: seq<string>, blocked: bool)
}
