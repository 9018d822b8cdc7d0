# Recipes website client: list, form and admin rules in Dafny

This project models the parts of the recipes website's React client that run
locally, without the network. All of them are rules over in-memory lists and
strings:

- grouping a recipe list into named buckets by one category type, with the catch-all "Прочее" bucket;
- strict filtering of recipes by category type and value;
- the recipe list page's own filters (text, APPROVED-only, all-ingredients);
- the recipe list page's local updates: favourites, delete, sending to moderation;
- the recipe list page's status colours and the rule for which groups are rendered;
- the date and cooking-time formatters;
- the image URL resolver;
- the page switcher;
- the ten-ingredient selector;
- the recipe editor's category, step and ingredient-row state, and what it saves;
- the admin role editor and user filter;
- the admin audit log's parameters, action classes and status cell.

Every operation is a pure function over immutable datatypes.

- Anything the page gets from the service is a parameter: the recipe list a request returned, the audit logs, the ingredient dictionary.
- Each local update models the state after its request succeeded.
- The build-time `VITE_API_BASE_URL` is a parameter of the image resolver.

Modules:

- `Seqs`: order-preserving filter, subsequence and duplicate-freedom, with their lemmas.
- `Text`: the JavaScript string functions the code uses. These are `includes`, `startsWith`, `toLowerCase`/`toUpperCase`, `trim`, `split`/`join` and decimal printing.
- `Domain`: the records (recipe, category value, ingredient, user) and JavaScript falsiness of strings.
- `RecipeGroups`, `CategoryFilter`, `Formatters`, `ImageUrls`, `Pagination`: the utilities and the page switcher.
- `IngredientSelector`, `RecipeForm`, `RecipeList`, `AdminUsers`, `AdminAudit`: the component logic.

`getActionClass` in src/pages/admin/audit/AdminAudit.tsx tests `LOGIN` twice (lines 76 and 78). `AdminAudit.ActionClassIsFirstKeyword` shows the class is the first match in a priority table without the repeat. So the second test never decides anything.

## Model

| member | source | states |
|---|---|---|
| RecipeGroups.FindEntry | src/utils/recipeUtils.ts:20-22 | no entry is found exactly when no category entry has the selected type; otherwise the entry found has that type and no earlier entry does |
| RecipeGroups.BucketIndex | src/utils/recipeUtils.ts:26 | the bucket lookup answers -1 exactly when no bucket has the name, and otherwise a position holding a bucket of that name |
| RecipeGroups.ReduceOneName | src/utils/recipeUtils.ts:17-32 | when every recipe goes to the same bucket, the fold builds that one bucket holding the whole list, or nothing for an empty list |
| RecipeGroups.GroupRecipesByCategoryType | src/utils/recipeUtils.ts:7-33 | a null or empty type gives the single bucket "Всего рецептов" holding the whole list; a selected type gives buckets with distinct names, each holding exactly the input recipes of its name in input order, none empty, and a bucket for every recipe |
| RecipeGroups.ReduceWellGrouped | src/utils/recipeUtils.ts:17-32 | the left-to-right fold leaves a well-formed grouping of every prefix it has scanned |
| RecipeGroups.PushWellGrouped | src/utils/recipeUtils.ts:26-30 | creating the bucket when missing and pushing the recipe keeps the grouping well formed for the longer prefix |
| RecipeGroups.PushContents | src/utils/recipeUtils.ts:29-30 | after a push every bucket holds exactly the scanned recipes of its name, in scan order |
| RecipeGroups.PushNames | src/utils/recipeUtils.ts:26-28 | a bucket is created only under a new name and only together with a recipe, so names stay distinct and no bucket is empty |
| RecipeGroups.PushCovers | src/utils/recipeUtils.ts:24-30 | after a push every scanned recipe, the new one included, has a bucket of its group name |
| RecipeGroups.GroupSizesSum | src/utils/recipeUtils.ts:13-32 | the bucket sizes add up to the length of the input, with or without a type |
| RecipeGroups.ReduceSize | src/utils/recipeUtils.ts:17-32 | the fold puts each scanned recipe in exactly one bucket slot: the sizes add up to the prefix length |
| RecipeGroups.Partition | src/utils/recipeUtils.ts:13-32 | every recipe lies in some bucket and in no two buckets; every bucket is a subsequence of the input; with a type selected a bucket's name is the group name of each recipe in it |
| RecipeGroups.BucketsCover | src/utils/recipeUtils.ts:24-30 | in a well-formed grouping every recipe lies in some bucket |
| RecipeGroups.BucketsDisjoint | src/utils/recipeUtils.ts:24-30 | in a well-formed grouping no recipe lies in two different buckets |
| RecipeGroups.BucketsInOrder | src/utils/recipeUtils.ts:17-30 | in a well-formed grouping every bucket keeps the input order |
| RecipeGroups.BucketsNamedByMembers | src/utils/recipeUtils.ts:24-30 | in a well-formed grouping a bucket holds only recipes whose group name is the bucket's name |
| RecipeGroups.BucketOfRecipe | src/utils/recipeUtils.ts:20-24 | a recipe with no entry of the selected type goes to "Прочее"; otherwise it goes to the bucket named by the value of its first entry of that type |
| CategoryFilter.FilterRecipesByStrictCategory | src/utils/recipeFiltersByCategory.ts:7-21 | a null or empty type or value returns the input; otherwise the result is a subsequence of the input holding exactly the recipes with an entry matching both type and value |
| CategoryFilter.FilterByCategoryIdempotent | src/utils/recipeFiltersByCategory.ts:12-20 | filtering the result again with the same selectors returns it unchanged |
| Formatters.FormatDateForBackend | src/utils/FormatDateAndTimeForBackend.tsx:1-9 | the result is undefined exactly for the empty string; otherwise it is a non-empty string of exactly three dash-separated pieces |
| Formatters.FormatDateSwaps | src/utils/FormatDateAndTimeForBackend.tsx:5-8 | dash-free year, month and day in `y-m-d` come back as `d-m-y` |
| Formatters.FormatDateInvolution | src/utils/FormatDateForBackend.tsx:5-8 | on a string of exactly three dash-separated pieces, formatting twice gives the original string back |
| Formatters.FormatDateWithoutDashes | src/utils/FormatDateForBackend.tsx:1-9 | a non-empty input with no dash prints "undefined" for month and day, followed by the input as the year |
| Formatters.SplitMinutes | src/utils/FormatDateAndTimeForBackend.tsx:14-15 | hours times 60 plus minutes is the total, and minutes are below 60 |
| Formatters.FormatCookingTime | src/utils/FormatDateAndTimeForBackend.tsx:11-21 | null, zero or negative minutes read "Время не указано"; positive minutes give a text starting with a non-zero digit. Whole hours read "h ч", under an hour reads "m мин", and hours with leftover minutes read "h ч m мин" |
| Formatters.CookingTimeRoundTrip | src/utils/FormatDateAndTimeForBackend.tsx:11-21 | reading the text back as "h ч m мин", "h ч" or "m мин" recovers the positive minutes exactly, so different durations never print alike; the "not specified" text reads as nothing |
| ImageUrls.BaseUrl | src/utils/imageUtils.ts:9 | the environment value when it is set and non-empty, else "http://localhost:9090"; never empty |
| ImageUrls.GetImageUrl | src/utils/imageUtils.ts:1-11 | a missing or empty path gives the placeholder; a path starting with "http" (including "https://") is returned as is; any other path follows the base URL; the result is never empty |
| ImageUrls.GetImageUrlIdempotent | src/utils/imageUtils.ts:3-10 | with an "http…" base URL every result starts with "http", so resolving a resolved URL returns it unchanged |
| Pagination.Render | src/components/pagination/Pagination.tsx:16-38 | nothing is rendered exactly when there is at most one page; "back" requests the previous page, or page 0 from page 0 or below, and is disabled exactly on page 0; "forward" requests the next page, or the last page once the next one would be past it, and is disabled exactly on the last page; the label shows the 1-based page; inside the page range both targets stay inside it |
| Pagination.StepByOne | src/components/pagination/Pagination.tsx:21-34 | inside the page range an enabled button moves exactly one page, and forward then back returns to the start |
| IngredientSelector.AddIngredient | src/components/ingredientSelector/IngredientSelectorComponent.tsx:37-43 | a duplicate id or a full selection leaves the state unchanged; otherwise the id is appended after the earlier ids, the text is cleared and the dropdown closed; no duplicate and at most ten ids are kept |
| IngredientSelector.ToggleIngredient | src/components/ingredientSelector/IngredientSelectorComponent.tsx:45-52 | the same guarded append as adding, leaving the text and dropdown alone; keeps the selection duplicate-free and at most ten |
| IngredientSelector.RemoveIngredient | src/components/ingredientSelector/IngredientSelectorComponent.tsx:67-73 | the id is gone, every other id stays in order, and the selection stays valid |
| IngredientSelector.ClearAll | src/components/ingredientSelector/IngredientSelectorComponent.tsx:60-65 | the selection and text are emptied, the dropdown closed, and an empty id list is reported |
| IngredientSelector.HandleSearch | src/components/ingredientSelector/IngredientSelectorComponent.tsx:54-58 | the current ids are reported in order and only the dropdown changes (it closes) |
| IngredientSelector.TypeText | src/components/ingredientSelector/IngredientSelectorComponent.tsx:94-97 | typing replaces the text and opens the dropdown, keeping the selection |
| IngredientSelector.Focus | src/components/ingredientSelector/IngredientSelectorComponent.tsx:98 | focusing opens the dropdown and changes nothing else |
| IngredientSelector.Available | src/components/ingredientSelector/IngredientSelectorComponent.tsx:78-80 | the offered entries are a subsequence of the dictionary holding exactly the unselected entries whose lower-cased name includes the lower-cased text |
| IngredientSelector.AvailableEmptyInput | src/components/ingredientSelector/IngredientSelectorComponent.tsx:78-80 | with no text, every unselected entry is offered |
| IngredientSelector.AvailableIgnoresCase | src/components/ingredientSelector/IngredientSelectorComponent.tsx:80 | upper- or lower-casing the search text offers the same entries |
| IngredientSelector.DropdownShownBelowLimit | src/components/ingredientSelector/IngredientSelectorComponent.tsx:100-105 | on a valid state the test "the count's digits contain 10" means "at the limit": the list is shown exactly when the dropdown is open and the input enabled |
| IngredientSelector.RemoveUndoesAdd | src/components/ingredientSelector/IngredientSelectorComponent.tsx:37-73 | adding a new id below the limit and removing it restores the selection |
| IngredientSelector.RunKeepsValid | src/components/ingredientSelector/IngredientSelectorComponent.tsx:37-98 | from a valid state, any sequence of user actions keeps the selection duplicate-free and at most ten |
| IngredientSelector.ReachableValid | src/components/ingredientSelector/IngredientSelectorComponent.tsx:37-98 | every state reachable from mount has no duplicate id and at most ten ids |
| AdminUsers.Toggled | src/pages/admin/users/AdminUsers.tsx:48-56 | checking appends a missing role after the old ones; unchecking removes every copy; other roles are unaffected; no duplicate is introduced |
| AdminUsers.WithUser | src/pages/admin/users/AdminUsers.tsx:59 | USER is appended when missing and the list is otherwise untouched |
| AdminUsers.RoleChange | src/pages/admin/users/AdminUsers.tsx:37-59 | unchecking ADMIN is refused, and nothing else is; USER is always in the list sent; a checked role is present after the old roles; an unchecked role is gone unless it is USER; roles other than the toggled one and USER are preserved; ADMIN is never lost; no duplicate is introduced |
| AdminUsers.RoleChangeIdempotent | src/pages/admin/users/AdminUsers.tsx:48-59 | repeating an accepted role change on its own result yields the same list |
| AdminUsers.UncheckAbsent | src/pages/admin/users/AdminUsers.tsx:55-59 | unchecking a role the user lacks, with USER present, sends the list unchanged |
| AdminUsers.UncheckUserTwice | src/pages/admin/users/AdminUsers.tsx:55-59 | unchecking USER puts it back at the end, and doing so twice gives the same list |
| AdminUsers.CheckThenUncheck | src/pages/admin/users/AdminUsers.tsx:48-59 | checking a missing non-ADMIN role and unchecking it restores the role list |
| AdminUsers.UpdateUser | src/pages/admin/users/AdminUsers.tsx:73 | the list keeps its length; users with another id are untouched and each user with the id is replaced by the change applied to it |
| AdminUsers.SetRoles | src/pages/admin/users/AdminUsers.tsx:73 | only users with the matching id change, and only in their roles |
| AdminUsers.HandleRoleChange | src/pages/admin/users/AdminUsers.tsx:37-73 | a refused change leaves the list alone. Otherwise only the users with the clicked user's id change. Each of them gets exactly the role list the change computes from the clicked user's roles, which holds USER, and keeps every other field |
| AdminUsers.SetBlocked | src/pages/admin/users/AdminUsers.tsx:88 | only users with the matching id change, and only in their blocked flag |
| AdminUsers.BlockThenUnblock | src/pages/admin/users/AdminUsers.tsx:82-94 | blocking then unblocking an unblocked user restores the list |
| AdminUsers.DeleteUser | src/pages/admin/users/AdminUsers.tsx:108 | the result is a subsequence holding exactly the users with another id |
| AdminUsers.DeleteAbsentUser | src/pages/admin/users/AdminUsers.tsx:108 | deleting an id no user has changes nothing |
| AdminUsers.FilteredUsers | src/pages/admin/users/AdminUsers.tsx:115-123 | a subsequence holding exactly the users with the role (or any, for ALL), blocked when the filter is TRUE and unblocked for any other non-ALL value, and whose lower-cased email includes the lower-cased search |
| AdminUsers.NoFilterShowsAll | src/pages/admin/users/AdminUsers.tsx:115-123 | ALL, ALL and an empty search show every user |
| AdminUsers.EmailSearchIgnoresCase | src/pages/admin/users/AdminUsers.tsx:120 | the letter case of the email search does not change the result |
| AdminUsers.FilteredUsersIdempotent | src/pages/admin/users/AdminUsers.tsx:115-123 | filtering the shown list again with the same controls changes nothing |
| RecipeForm.ValuesOfType | src/pages/addEditRecipe/AddEditRecipe.tsx:180-181 | the ids listed are exactly those of dictionary entries of the type |
| RecipeForm.CategoryChange | src/pages/addEditRecipe/AddEditRecipe.tsx:178-187 | a non-zero value is selected afterwards and is the only selected value of its type; 0 leaves no value of the type and only removes; values of other types are untouched |
| RecipeForm.CategoryChangeIdempotent | src/pages/addEditRecipe/AddEditRecipe.tsx:178-187 | choosing the same value of the type again, or clearing again, changes nothing |
| RecipeForm.FindValue | src/pages/addEditRecipe/AddEditRecipe.tsx:352-353 | the entry found is the first dictionary entry with the id; none is found only when no entry has it |
| RecipeForm.Displayed | src/pages/addEditRecipe/AddEditRecipe.tsx:351-353 | a select shows the first selected id whose entry has the select's type, or the placeholder exactly when no selected id has |
| RecipeForm.ShownForIff | src/pages/addEditRecipe/AddEditRecipe.tsx:351-353 | with unique dictionary ids, the select's test on an id holds exactly when the dictionary has an entry with that id and type |
| RecipeForm.DisplayedUnique | src/pages/addEditRecipe/AddEditRecipe.tsx:351-353 | when one selected id alone has the type, the select shows it |
| RecipeForm.SelectShowsChoice | src/pages/addEditRecipe/AddEditRecipe.tsx:351-354 | after choosing a value of a type its select shows that value; after choosing "-- Выбрать --" it shows the placeholder |
| RecipeForm.LoadSteps | src/pages/addEditRecipe/AddEditRecipe.tsx:99 | a loaded recipe's steps are kept when there are any; a recipe without steps gets the single empty step |
| RecipeForm.AddStep | src/pages/addEditRecipe/AddEditRecipe.tsx:196-198 | one empty step is appended after the others |
| RecipeForm.RemoveStep | src/pages/addEditRecipe/AddEditRecipe.tsx:200-203 | a single step is never removed; otherwise exactly the indexed step is dropped and the rest keep their order; a non-empty list stays non-empty |
| RecipeForm.ChangeStep | src/pages/addEditRecipe/AddEditRecipe.tsx:190-194 | only the indexed step changes |
| RecipeForm.RemoveStepUndoesAdd | src/pages/addEditRecipe/AddEditRecipe.tsx:196-203 | adding a step and removing it restores the list |
| RecipeForm.StepsNeverEmpty | src/pages/addEditRecipe/AddEditRecipe.tsx:190-203 | starting from at least one step, no sequence of step edits empties the list |
| RecipeForm.CleanSteps | src/pages/addEditRecipe/AddEditRecipe.tsx:223 | the saved steps are a subsequence holding exactly the steps that are not blank, each as many times as it was entered |
| RecipeForm.CleanStepsIdempotent | src/pages/addEditRecipe/AddEditRecipe.tsx:223 | cleaning twice equals cleaning once, and steps none of which is blank are saved as they are |
| RecipeForm.LoadRows | src/pages/addEditRecipe/AddEditRecipe.tsx:118-129 | one row per loaded line, keeping its amount. The ingredient id is the line's id, or null when it has none, never the blank `''`. The unit id is the line's unit id, or null |
| RecipeForm.AddRow | src/pages/addEditRecipe/AddEditRecipe.tsx:160-163 | one empty row is appended after the others |
| RecipeForm.RemoveRow | src/pages/addEditRecipe/AddEditRecipe.tsx:172-175 | an index in range drops exactly that row: the rows before it stay in place and the rows after it move up by one; any other index changes nothing |
| RecipeForm.LoadThenSave | src/pages/addEditRecipe/AddEditRecipe.tsx:118-129 | saving a loaded recipe unchanged: the intended save sends exactly the lines with a non-zero ingredient id, in order, with their id, amount and unit (0 for a null unit id) |
| RecipeForm.LoadedRowsAllSent | src/pages/addEditRecipe/AddEditRecipe.tsx:212-218 | the written save sends every loaded line, since none has the blank id, including those with a null id |
| RecipeForm.SelectNumber | src/pages/addEditRecipe/AddEditRecipe.tsx:394 | a select reports the chosen entry's id, and the placeholder option reports 0 |
| RecipeForm.ChangeRow | src/pages/addEditRecipe/AddEditRecipe.tsx:165-170 | only the indexed row changes, and only in the edited field: a select stores the chosen id, or 0 for the placeholder option, and the amount input stores the text |
| RecipeForm.MapToRequests | src/pages/addEditRecipe/AddEditRecipe.tsx:214-218 | one request per row, in row order, with the ids converted by `Number` |
| RecipeForm.FormatIngredientsAsWritten | src/pages/addEditRecipe/AddEditRecipe.tsx:212-218 | the save filter drops only rows whose id is still `''`: every other row is sent, and every request comes from such a row |
| RecipeForm.PlaceholderRowIsSent | src/pages/addEditRecipe/AddEditRecipe.tsx:212-218 | choosing an ingredient in the fresh row and then choosing "-- Выбрать продукт --" again makes the save send an ingredient with id 0 |
| RecipeForm.FormatIngredients | src/pages/addEditRecipe/AddEditRecipe.tsx:212-218 | the intended save: no request has ingredient id 0; every row with a chosen ingredient is sent; every request comes from a row |
| RecipeForm.FormatIngredientsAgree | src/pages/addEditRecipe/AddEditRecipe.tsx:212-218 | when no row holds a 0 or null id, the intended and the written save send the same list |
| RecipeForm.PlaceholderRowIsDropped | src/pages/addEditRecipe/AddEditRecipe.tsx:212-218 | the row that the written save sends with id 0 is not sent by the intended one |
| RecipeForm.FormatIngredientsAsWrittenRowByRow | src/pages/addEditRecipe/AddEditRecipe.tsx:212-218 | the written save keeps table order: the requests of two joined tables are the first's followed by the second's, and a single row is sent exactly when its id is not `''` |
| RecipeForm.FormatIngredientsRowByRow | src/pages/addEditRecipe/AddEditRecipe.tsx:212-218 | the intended save keeps table order, and a single row is sent exactly when its id is a number other than 0 |
| RecipeForm.RemoveRowUndoesAdd | src/pages/addEditRecipe/AddEditRecipe.tsx:159-175 | removing the row just added gives back the table |
| RecipeForm.ChangeRowLastWins | src/pages/addEditRecipe/AddEditRecipe.tsx:165-170 | two edits of the same field of a row: the second one wins |
| RecipeForm.ChangeRowRestores | src/pages/addEditRecipe/AddEditRecipe.tsx:165-170 | editing a field and then entering its former value again restores the table |
| RecipeList.PageOf | src/pages/recipesList/RecipesList.tsx:55-56 | the favourites and own-recipes pages are recognised exactly by their paths |
| RecipeList.FilterByText | src/pages/recipesList/RecipesList.tsx:72-77 | no query keeps the list; a query keeps a subsequence holding exactly the recipes whose name, or some ingredient's name, includes it ignoring case |
| RecipeList.FilterByTextIgnoresCase | src/pages/recipesList/RecipesList.tsx:85-90 | upper-casing the query keeps the same recipes |
| RecipeList.OnlyApproved | src/pages/recipesList/RecipesList.tsx:104-106 | a subsequence holding exactly the APPROVED recipes |
| RecipeList.LoadRecipes | src/pages/recipesList/RecipesList.tsx:67-106 | the shown list is a subsequence of what was fetched; every page but the user's own shows APPROVED recipes only; favourites and own recipes are text-filtered locally |
| RecipeList.FilterByIngredients | src/pages/recipesList/RecipesList.tsx:225-230 | no selected id keeps the list; otherwise a subsequence holding exactly the recipes having every selected ingredient |
| RecipeList.IngredientSearch | src/pages/recipesList/RecipesList.tsx:205-261 | the result is a subsequence of the base list. On the main page it is exactly the APPROVED recipes of what the service returned. On own recipes it holds exactly the text-matching recipes that have every selected ingredient. On favourites it holds exactly those that are also APPROVED |
| RecipeList.EmptyIngredientSearchIsLoad | src/pages/recipesList/RecipesList.tsx:205-261 | searching with no ingredient shows what loading the page shows |
| RecipeList.DeleteRecipe | src/pages/recipesList/RecipesList.tsx:284 | a subsequence holding exactly the recipes with another id |
| RecipeList.ToggleFavorite | src/pages/recipesList/RecipesList.tsx:148-166 | the id's favourite flag flips and no other id's does; on the favourites page a removal also drops the recipe's card, and otherwise the cards stay |
| RecipeList.ToggleFavoriteTwice | src/pages/recipesList/RecipesList.tsx:148-166 | two toggles restore the favourites; cards stay outside the favourites page and lose the recipe on it |
| RecipeList.SendToModeration | src/pages/recipesList/RecipesList.tsx:303-319 | only from DRAFT or REJECTED, the recipes with the id become PENDING and change in nothing else; other recipes are untouched |
| RecipeList.SendToModerationOnce | src/pages/recipesList/RecipesList.tsx:309-314 | a recipe sent to moderation is PENDING, so sending it again from its card changes nothing |
| RecipeList.StatusColor | src/pages/recipesList/RecipesList.tsx:292-300 | one of four colours: yellow exactly for PENDING, green exactly for APPROVED, red exactly for REJECTED, grey for everything else |
| RecipeList.VisibleGroups | src/pages/recipesList/RecipesList.tsx:446-448 | every bucket but "Прочее" is rendered, in order |
| RecipeList.PageRecipes | src/pages/recipesList/RecipesList.tsx:198-200 | the strict category filter applies only with a value selected. With a type and a value selected, the result holds exactly the recipes that have an entry of that type with that value. The result is always a subsequence of the list |
| RecipeList.PageGroups | src/pages/recipesList/RecipesList.tsx:198-203 | "Прочее" is never rendered, and with no type one group holding the whole list is rendered. With a type, the rendered groups have distinct names. Each group holds exactly the shown recipes of its name, in list order, and is not empty. Every shown recipe whose group is not "Прочее" is in a rendered group |
| RecipeList.VisibleOfWellGrouped | src/pages/recipesList/RecipesList.tsx:446-448 | hiding "Прочее" from a well-formed grouping keeps names distinct and bucket contents exact, and leaves a bucket for every recipe of another name |
| RecipeList.SelectedValueSingleGroup | src/pages/recipesList/RecipesList.tsx:198-203 | with a type and a value selected, and one entry of that type per recipe, the page renders exactly one group. It is named by the value and holds the strictly filtered recipes. Nothing is rendered when no recipe matches or the value is "Прочее" |
| AdminAudit.GetActionClass | src/pages/admin/audit/AdminAudit.tsx:72-84 | CREATE wins over everything, DELETE over the rest, UPDATE over LOGIN and REGISTER; an action with no keyword gets the update class |
| AdminAudit.ActionClassIsFirstKeyword | src/pages/admin/audit/AdminAudit.tsx:72-84 | the class is that of the first keyword of the priority table CREATE, DELETE, UPDATE, LOGIN, REGISTER, APPROVED, REJECTED, PENDING the action contains, update when none |
| AdminAudit.CreateBeatsDelete | src/pages/admin/audit/AdminAudit.tsx:73-74 | an action containing both CREATE and DELETE gets the create class |
| AdminAudit.OrUndefined | src/pages/admin/audit/AdminAudit.tsx:37-41 | the value-or-undefined idiom gives undefined exactly for a missing or empty value, and is the value otherwise |
| AdminAudit.BuildParams | src/pages/admin/audit/AdminAudit.tsx:36-42 | each parameter is undefined exactly when its control is empty; selectors are sent as chosen and dates in day-month-year form |
| AdminAudit.FilterEndpointIffSomeControl | src/pages/admin/audit/AdminAudit.tsx:45-52 | the filter endpoint is asked exactly when some control is set |
| AdminAudit.FilterByEmail | src/pages/admin/audit/AdminAudit.tsx:56-58 | no email keeps the logs; an email keeps a subsequence holding exactly the logs whose admin email equals it exactly |
| AdminAudit.FetchLogs | src/pages/admin/audit/AdminAudit.tsx:30-60 | the logs come from the filter endpoint's answer when a control is set and from the plain one otherwise. With no email typed, that answer is shown as it is. With an email typed, exactly the answer's logs of that admin email are shown, in order |
| AdminAudit.StatusCell | src/pages/admin/audit/AdminAudit.tsx:206 | the status is shown only when the trimmed, upper-cased entity type is RECIPE; a null status shows nothing |
| AdminAudit.StatusCellIgnoresBlanksAndCase | src/pages/admin/audit/AdminAudit.tsx:206 | an entity type that upper-cases to RECIPE, with any blanks around it, shows the status |

## Left out

- HTTP requests, the token-refresh interceptor, localStorage and the auth context: they are network and storage plumbing. The lists a request returns are parameters, and each local update models the state after success. The error toasts are not modelled.
- The service-side searches (`fetchSearchedRecipes`, `searchByIngredients`, the audit filter endpoint): their answers are parameters.
- Floating-point code: the servings multiplier, the calorie estimate and star rounding.
- `highlightText`: it builds a regular expression from user input.
- The `localeCompare` sort of the ingredient dictionary: it depends on locale collation, so the dictionary order is a parameter.
- React's asynchronous state updates and stale closures: every handler is modelled as one atomic step.
- Loading flags, `isAllOrSearch`, the confirm dialogs and the "nothing found" message: view state with no rule to state.
- Text.ToLower: maps only ASCII letters and the Cyrillic capitals U+0400 to U+042F, not full Unicode case mapping. Text.ToUpper is its inverse on the same letters. The site's text is Russian and English.
- RecipeGroups.GroupRecipesByCategoryType: a JavaScript object puts integer-like keys before the others when iterated. The model keeps buckets in first-met order, which differs only when a category value is a canonical integer string. A category value that names a member every plain object inherits, such as "constructor", "toString" or "__proto__", makes the source throw a TypeError: the lookup at line 26 finds the inherited member, so no array is created, and that member has no `push`. The model groups such a value like any other name, so it describes the list the source would build if such names were not inherited.
- Formatters.FormatCookingTime: takes whole minutes (`Option<int>`). The source takes any JavaScript number, so it would print a fraction such as 90.5 as "1 ч 30.5 мин" and NaN as "Время не указано". The model treats `cookingTimeMinutes` (src/types/index.ts line 64) as a whole number of minutes; fractional and NaN inputs are not modelled.
- RecipeForm.ChangeStep: requires an index in range, because the form only edits steps it renders. Out of range, the source writes past the end of the array.
- RecipeForm.ChangeRow: requires an index in range, because only rendered rows are edited. Out of range, the source throws.
- RecipeForm.FormatIngredients: it does not filter rows whose unit is still `''`. Such a row is sent with unit id `Number('') == 0`, as the source does.
- IngredientSelector.DropdownShownBelowLimit: the source tests the count's decimal digits, and the model keeps that test literally. The lemma shows it means "below ten" only on valid states.
- Type-only declarations and pure view components are used only to shape the datatypes.

## Findings

| source | as written | input that shows it | evidently intended | confidence | as-written member | corrected member |
|---|---|---|---|---|---|---|
| src/pages/addEditRecipe/AddEditRecipe.tsx:212-218 | the save handler drops a row only when its ingredient id is still the initial `''`. The select handler stores `Number(e.target.value)` (line 394), so going back to "-- Выбрать продукт --" stores `Number('') == 0`. A loaded line with a null id stores null, which `Number` also turns into 0 | in the fresh row, choose an ingredient, then choose "-- Выбрать продукт --" again: the save sends `{ingredientId: 0, amount: '', unitId: 0}` | rows without a chosen ingredient are not sent, whether their id is `''`, 0 or null | not executed | RecipeForm.FormatIngredientsAsWritten, RecipeForm.PlaceholderRowIsSent | RecipeForm.FormatIngredients, RecipeForm.PlaceholderRowIsDropped |
