# Travel list: a verified model of its list state

The program is a small React page for a travel packing list. All of its logic
is in `src/App.js`. This model covers that logic and leaves out the rendering.

- **The list store** (`App`): an ordered sequence of items
  `{id, quantity, description, packed}` and four event handlers. They append
  an item, flip `packed` on every item with a given id, drop every item with a
  given id, and empty the list. Each handler replaces the whole sequence.
- **The form** (`Form`): a quantity field and a description field. The submit
  handler refuses an empty description. Otherwise it builds a new unpacked
  item with a fresh UUID, hands it to the store and resets both fields to the
  empty string.
- **The sort projection** (`TravelList`): a selection of `default`,
  `description` or `packed`. The first shows the items as they are. The other
  two sort a copy with the engine's stable `.sort()` and a comparator.
- **The summary** (`Stats`): the number of items, the number packed, the
  rounded percentage and one of three messages.

Modules, one per component, with the shared values in `Items`:

| file | module | contents |
|---|---|---|
| items.dfy | `Items` | `Value` (a JS number or string), `Item`, `Option`, `Flipped`, the `packed` filter `Where`, `IsSubsequence` |
| list_store.dfy | `ListStore` | `DummyData` (the seed list), `ToggledById`, `RemovedById`, lemmas, class `App` |
| item_form.dfy | `ItemForm` | `NewItem` (guard and construction), class `Form` |
| strings.dfy | `Strings` | JavaScript's `<` on strings and its order laws |
| projection.dfy | `Projection` | `Selection`, the comparators, the stable insertion sort `SortBy`, the in-place `SortedCopy`, class `TravelList` |
| stats.dfy | `Stats` | `PackedCount`, `RoundedPercent`, `Percentage`, `Summary`, `DecimalString`, `MessageText` |

Modelling choices:

- Ids and quantities are `Value = Num(int) | Text(string)`. The seed data uses
  numbers and the form uses strings. Strict equality `===` is datatype
  equality, so `Num(1)` and `Text("1")` differ, as `1 !== "1"`.
- Ids are not unique by construction. Toggle and remove are specified for
  every item whose id matches. Results that need unique ids
  (`RemovePresentUnique`) have `UniqueIds` as a precondition, and
  `AddFreshKeepsUniqueIds`, `ToggleKeepsUniqueIds` and `RemoveKeepsUniqueIds`
  show when uniqueness survives.
- `crypto.randomUUID()` becomes the `uuid` parameter of `Form.Submit`.
- The engine's `.sort()` is modelled by a stable insertion sort. The pure
  function is `SortBy`. The in-place version is `SortedCopy`: it sorts a fresh
  array copy (the `.slice()`) and is proved to compute `SortBy`. For the
  packed comparator every stable sort gives the same result: the unpacked
  items in input order, then the packed ones (`SortByPackedPartitions`). So
  there the model is exact. The description comparator
  `a.description > b.description ? 1 : -1` never returns 0. Engines may
  therefore order equal descriptions differently. For that selection the
  model claims only a permutation in non-decreasing order.
- `Math.round((packed / total) * 100)` is modelled in exact arithmetic as
  `(200 * packed + total) / (2 * total)`: the nearest integer, with halves
  rounded up. In floating point a product that should be exactly a half can
  come out just below it and round down (see "Left out"). For an empty list
  the program computes NaN, shown here as `None`.
  The NaN is never displayed, because the empty-list message is chosen first.

Behaviour of the code a reader might not expect:

- The guard is an exact `description === ""`, not a trim. A description of
  spaces is accepted.
- After a submit, the quantity field is reset to `""`, not to its initial `"1"`.
- The description sort is not stable under every engine and is not
  necessarily idempotent, because its comparator never returns 0. No such
  property is claimed.

## Model

| member | source | states |
|---|---|---|
| `Items.Flipped` | src/App.js:21 | the spread copy keeps id, quantity and description and inverts `packed` |
| `Items.Where` | src/App.js:177 | the filter of the packed flag is no longer than its input and keeps only items with the asked flag |
| `Items.WhereMembers` | src/App.js:177 | an item is kept by the filter exactly when it is in the input and has the asked flag |
| `Items.WhereIsSubsequence` | src/App.js:177 | the filter keeps the input order of what it keeps |
| `Items.WhereSplits` | src/App.js:177 | the packed items and the unpacked items together are exactly the items, as a multiset |
| `ListStore.ToggledById` | src/App.js:18-24 | the `map` keeps length, order, ids, quantities and descriptions, and flips `packed` exactly on the items whose id matches |
| `ListStore.ToggleTwiceRestores` | src/App.js:18-24 | toggling the same id twice gives back the original sequence |
| `ListStore.ToggleAbsentUnchanged` | src/App.js:18-24 | toggling an id that no item has leaves the sequence unchanged |
| `ListStore.ToggleKeepsUniqueIds` | src/App.js:18-24 | toggling keeps ids unique |
| `ListStore.RemovedById` | src/App.js:27-29 | after the `filter`, no item has the id, every other item remains, and the length drops by the number of matching items |
| `ListStore.RemovedIsSubsequence` | src/App.js:27-29 | the remaining items keep their relative order |
| `ListStore.RemoveAbsentUnchanged` | src/App.js:27-29 | removing an id that no item has leaves the sequence unchanged |
| `ListStore.RemoveIdempotent` | src/App.js:27-29 | removing the same id twice is the same as removing it once |
| `ListStore.RemovePresentUnique` | src/App.js:27-29 | with unique ids, removing a present id shortens the list by exactly one |
| `ListStore.RemoveKeepsUniqueIds` | src/App.js:27-29 | removal keeps ids unique |
| `ListStore.AddFreshKeepsUniqueIds` | src/App.js:13-15 | appending an item whose id is fresh keeps ids unique |
| `ListStore.App.constructor` | src/App.js:3-10 | the store starts with the three seed items |
| `ListStore.App.AddItem` | src/App.js:13-15 | the new list is the old one with the item appended: one longer, earlier items in place |
| `ListStore.App.TogglePacked` | src/App.js:18-24 | the new list is the toggled map of the old one |
| `ListStore.App.RemoveItem` | src/App.js:27-29 | the new list is the filtered old one |
| `ListStore.App.ClearList` | src/App.js:31-33 | the new list is empty, whatever it held before |
| `ItemForm.NewItem` | src/App.js:63-71 | no item exactly when the description is `""`; otherwise an unpacked item with the UUID as id and the given quantity and description |
| `ItemForm.SubmitKeepsDescriptionsNonEmpty` | src/App.js:63-73 | what the form admits keeps every description in the list non-empty |
| `ItemForm.SeedDescriptionsNonEmpty` | src/App.js:3-7 | every seed item has a non-empty description |
| `ItemForm.StoreKeepsDescriptionsNonEmpty` | src/App.js:18-29 | toggling and removing keep every description non-empty |
| `ItemForm.Form.constructor` | src/App.js:57-58 | the fields start as `"1"` and `""` |
| `ItemForm.Form.SetQuantity` | src/App.js:81 | the quantity field takes the selected value and the description is untouched |
| `ItemForm.Form.SetDescription` | src/App.js:92 | the description field takes the typed text and the quantity is untouched |
| `ItemForm.Form.Submit` | src/App.js:60-77 | with description `""`, the store and the fields are unchanged; otherwise exactly one unpacked item with the UUID and the field values is appended, and both fields become `""` |
| `Strings.Less` | src/App.js:108 | `a.description > b.description` is `Less(b, a)`; a proper prefix is smaller, and a string is never smaller than a prefix of itself |
| `Strings.LessFirstDifference` | src/App.js:108 | at the first position where two strings differ, the smaller character makes the smaller string |
| `Strings.LessIrreflexive` | src/App.js:108 | no string is smaller than itself under `<` |
| `Strings.LessTransitive` | src/App.js:108 | `<` on strings is transitive |
| `Strings.LessTotal` | src/App.js:108 | of two distinct strings one is smaller |
| `Strings.LessAsymmetric` | src/App.js:108 | `<` never holds both ways |
| `Strings.AtMostTransitive` | src/App.js:108 | `<=` on strings is transitive |
| `Projection.Compare` | src/App.js:108-113 | the description comparator never answers 0 and is positive exactly when `a`'s description is the greater; the packed comparator is positive exactly for packed before unpacked, negative exactly for the reverse |
| `Projection.Insert` | src/App.js:106-113 | one step of the stable insertion sort standing for `.sort()`: the result is one longer (its permutation and order facts are the lemmas below) |
| `Projection.SortBy` | src/App.js:106-113 | the stable insertion sort standing for `.sort()`: same length as its input (permutation and order are `SortByPermutes` and `SortBySorted`) |
| `Projection.InsertPermutes` | src/App.js:106-113 | one insertion step adds exactly the inserted item to the multiset |
| `Projection.SortByPermutes` | src/App.js:106-113 | the sort is a permutation of its input |
| `Projection.CompareAsymmetric` | src/App.js:108-113 | if a comparator puts `a` after `b`, it does not put `b` after `a` |
| `Projection.CompareAtMostTransitive` | src/App.js:108-113 | "not after" under a comparator is transitive |
| `Projection.InsertSorted` | src/App.js:106-113 | inserting into a sorted sequence keeps it sorted |
| `Projection.SortBySorted` | src/App.js:106-113 | the sort's result is sorted by the comparator |
| `Projection.Project` | src/App.js:102-113 | every selection shows a permutation of the items; `default` shows them unchanged |
| `Projection.ProjectDescriptionOrdered` | src/App.js:105-108 | the `description` selection is a permutation of the items with non-decreasing descriptions |
| `Projection.InsertUnpacked` | src/App.js:110-113 | an unpacked item inserted behind unpacked-then-packed items lands between the two groups |
| `Projection.SortByPackedPartitions` | src/App.js:110-113 | sorting by the packed comparator gives the unpacked items in input order followed by the packed items in input order |
| `Projection.ProjectPackedPartitions` | src/App.js:110-113 | the `packed` selection is a permutation in which every unpacked item precedes every packed one, and each group keeps its input order |
| `Projection.SortedCopy` | src/App.js:106-113 | sorting an array copy in place yields the stable sort of the items; the input is not touched |
| `Projection.InsertInPlace` | src/App.js:106-113 | one in-place insertion step turns the array prefix into the insertion of the next element and leaves the rest of the array as it was |
| `Projection.MakeRoom` | src/App.js:106-113 | the elements that go after the new one are shifted one place right; stops at the front or at an element that may stand before it |
| `Projection.TravelList.constructor` | src/App.js:102 | the selection starts as `default` |
| `Projection.TravelList.Select` | src/App.js:147 | the selection takes the chosen value |
| `Projection.TravelList.SortedItems` | src/App.js:103-113 | the displayed sequence is the projection of the items under the current selection |
| `Stats.PackedCount` | src/App.js:177 | the packed count is at most the total |
| `Stats.RoundedPercent` | src/App.js:178 | the percentage is the nearest integer to `100 * packed / total` (halves up); it is at most 100 when packed <= total, 100 when all are packed, 0 when none are |
| `Stats.RoundingBounds` | src/App.js:178 | a rounded fraction of the total lies in 0..100 and hits the ends exactly for none and all |
| `Stats.Percentage` | src/App.js:176-178 | the percentage is NaN exactly for the empty list and otherwise lies in 0..100 |
| `Stats.Summary` | src/App.js:183-187 | the prepare message exactly for the empty list; the ready message exactly for a non-empty list at 100 percent; otherwise the progress message with the total, a packed count below it, and a percentage below 100 |
| `Stats.DecimalString` | src/App.js:187 | a number interpolated into the template: one or more decimal digits, no leading zero, a single digit exactly below 10 |
| `Stats.DecimalStringRoundTrip` | src/App.js:187 | reading the printed digits back gives the number |
| `Stats.MessageText` | src/App.js:183-187 | the two fixed messages word for word; the progress line starts with `You have ` and ends with `)%` |
| `Stats.ProgressTextFields` | src/App.js:187 | the progress line is the template's fixed pieces with the decimal total, packed count and percentage at their places, position by position |
| `Stats.MessageKindsDistinct` | src/App.js:183-187 | messages of different kinds never show the same text |
| `Stats.AllPackedIsReady` | src/App.js:176-186 | a non-empty fully packed list has packed count = total, 100 percent and the ready message |
| `Stats.NonePackedIsZero` | src/App.js:176-187 | a non-empty list with nothing packed shows the progress message at 0 percent |
| `Stats.ReadyDoesNotMeanAllPacked` | src/App.js:178 | 199 packed of 200 also rounds to 100, so the ready message does not imply everything is packed |
| `Stats.ClearedIsPrepare` | src/App.js:183-184 | an emptied list shows the prepare message |
| `Stats.SocksScenario` | src/App.js:176-187 | socks and passport, unpacked; toggling socks gives 2 items, 1 packed, 50 percent |
| `Stats.SocksScenarioText` | src/App.js:187 | that progress message is the template filled with 2, 1 and 50 |

## Left out

- Rendering: the JSX, the style objects, the "No items yet" placeholder, and
  hiding the sort buttons for an empty list. These are presentation only.
- React hook mechanics (`useState`, re-rendering) and event objects
  (`preventDefault`, `e.target.value`). State is plain class fields.
- `crypto.randomUUID()` is a foreign random call. The UUID is a parameter.
  Its freshness is a precondition only of `AddFreshKeepsUniqueIds`.
- Stats.RoundedPercent: rounds the exact value `100 * packed / total`, not
  the IEEE double `(packed / total) * 100`, so it can be one above the
  browser's number. With 23 of 40 packed the double is 57.49999999999999, which
  `Math.round` takes to 57, while the model gives 58; 29 of 200 gives 14
  against 15. The choice between the ready and the progress message does not
  depend on this: unless the exact value is 99.5, it differs from 99.5 by at
  least 1/(2 * total), far more than the IEEE error for any realistic list.
- String comparison: JavaScript compares UTF-16 code units, and the model
  compares Unicode characters. The two orders differ only for characters
  outside the Basic Multilingual Plane.
- The engine's sort algorithm: a stable insertion sort stands for it. This is
  exact for the packed selection. For the description selection only the
  order and the permutation are claimed.
- Projection.ProjectDescriptionOrdered: says nothing about the relative order
  of items with equal descriptions, because the comparator never returns 0 and
  the engine may order them either way.
- Aliasing: the `default` selection shows the very array the store holds.
  Sequences are values here, so sharing cannot be observed.
- A selection other than the three the `<select>` offers, which would leave
  `sortedItems` undefined, cannot arise and is not modelled.
- The quantity range 1..20 offered by the `<select>` is advisory. The
  handlers accept any value, and so does the model.
