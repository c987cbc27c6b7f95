# Item store of a task-and-note client, in Dafny

The client keeps tasks and notes in one in-memory store (`src/store/mockData.ts`).
The store holds a list of items and an id counter. The list starts with five
seed records and the counter starts at 6. The store offers:

- a typed, sorted list view (`getItems`);
- a lookup by id (`getItemById`);
- create, update and delete.

This project models that store:

- `types.dfy` (module `Types`) holds the `Item` record of `src/types/index.ts`,
  its three enumerations, and `PartialItem`. `PartialItem` is the partial record
  that create and update receive. Each of its fields is either supplied (`Some`)
  or absent (`None`).
- `stable_sort.dfy` (module `StableSort`) models the two `Array.prototype.sort`
  calls of the list view. Each is a stable sort with a comparator of the form
  `key(a) - key(b)`, modelled as a stable insertion sort on an integer key. The
  module proves four things about it:
  - the result is a permutation of the input;
  - the result is ordered by the key;
  - items with equal keys keep their input order;
  - a second sort keeps the first sort's key as its tie-break.
- `mock_data.dfy` (module `MockData`) holds the class `Store`. Its two fields,
  `items: seq<Item>` and `nextId: int`, stand for the module-level `items` list
  and the `nextId` counter. The two reads are functions of the state:
  `GetItems` and `GetItemById`. The three mutators are methods that `modify`
  the store: `CreateItem`, `UpdateItem` and `DeleteItem`. Each mutator's
  postcondition gives the new list as a pure function of the old one. Those
  functions are `Updated` and `Without`, and for create the list becomes
  `[item] + old list`. The lemmas prove the store's properties about these
  functions.

Notes on the modelling:

- `created_at` is an integer timestamp: a later moment is a larger number. The
  seed dates are written as `yyyymmddhhmm` integers, which keeps their order.
  The clock read of create is the parameter `now`.
- The list view sorts twice (`src/store/mockData.ts:79-80`). The first sort is
  commented 置顶优先 ("pinned first"). The second sort, by creation time with
  the newest first, runs after it and overrides it. Because both sorts are
  stable, creation time decides the order, and pin status only breaks ties
  between equal creation times. The model follows the code. `SeedNotesOrder`
  shows the effect on the seed data: the unpinned note 5 is listed before
  the pinned note 4.
- A supplied numeric id is used as it is (`src/store/mockData.ts:91`). It does
  not move the counter, and nothing checks it against the ids already in the
  store. `SuppliedIdCollision` shows two items getting id 7 this way.
- The store has no `updated_at` field. Update may overwrite any field,
  including `id` and `type`.
- "Falsy" in create means absent. A supplied empty string also counts as falsy
  for `title`, `content` and `deadline`. An empty `content` or `deadline`
  becomes `""` either way, so only the title needs a test. A created item
  always has a deadline, `""` when none was supplied.
- A supplied `created_at` is used as given.
- The reads cannot change the state: they are functions.

## Model

| member | source | states |
|---|---|---|
| MockData.Store.constructor | src/store/mockData.ts:6-71 | The store starts with the five seed records and the counter at 6. |
| MockData.SeedIdsValid | src/store/mockData.ts:6-71 | The seed ids are pairwise distinct and all below the initial counter 6. |
| MockData.Store.GetItems | src/store/mockData.ts:74-82 | The view is a permutation of the store's items of the requested type, so nothing is dropped or duplicated. Every item in it has that type. Creation times do not increase along it. Among equal creation times, pinned items come first. |
| MockData.OfType | src/store/mockData.ts:77-78 | The type filter returns only items of the list that have the requested type, and is no longer than the list. |
| MockData.OfTypeCount | src/store/mockData.ts:77-78 | The type filter keeps each item of the requested type as many times as the list has it, and no item of the other type. |
| MockData.TypePartition | src/store/mockData.ts:77-78 | The task filter and the note filter together hold exactly the list's items. |
| MockData.ViewsPartitionStore | src/store/mockData.ts:74-82 | The task view and the note view of a store together hold exactly the store's items. |
| MockData.GetItemsStable | src/store/mockData.ts:79-80 | Items with equal creation time and equal pin status come out of the view in their order in the store. |
| MockData.SeedNotesOrder | src/store/mockData.ts:41-82 | On the seed data, the note view is note 5 (unpinned, newer) followed by note 4 (pinned, older). |
| StableSort.SortBy | src/store/mockData.ts:79-80 | A sort returns a permutation of its input, ordered by the comparator's key. |
| StableSort.Insert | src/store/mockData.ts:79-80 | Insertion adds exactly the one element to the multiset of the sequence. |
| StableSort.InsertSorted | src/store/mockData.ts:79-80 | Inserting into an ordered sequence keeps it ordered. |
| StableSort.SortByMembers | src/store/mockData.ts:79-80 | Sorting neither adds nor loses an element. |
| StableSort.SortByStable | src/store/mockData.ts:79-80 | Sorting is stable: the elements with any given key appear in their input order. |
| StableSort.KeyClassCommute | src/store/mockData.ts:79-80 | Selecting by one key and then by another gives the same subsequence as the reverse order. |
| StableSort.SortByKeepsTies | src/store/mockData.ts:79-80 | A stable sort applied to input already ordered by a first key leaves that key as the tie-break. |
| StableSort.TwoSortsStable | src/store/mockData.ts:79-80 | After two successive stable sorts, elements that agree on both keys keep their input order. |
| MockData.FindIndex | src/store/mockData.ts:112 | Returns the index of the first item with the id, or -1 exactly when no item has it. |
| MockData.Store.GetItemById | src/store/mockData.ts:85-87 | Returns the first item with the id, or none exactly when no item has it. |
| MockData.Store.CreateItem | src/store/mockData.ts:90-108 | A supplied id is used and the counter stays. Without one, the item takes the old counter and the counter grows by 1. The item is built by the defaulting rules. It becomes the new head, the old list follows unchanged, and it is what the method returns. A lookup of its id finds it. Without a supplied id, the id invariant is kept. |
| MockData.NewItemDefaults | src/store/mockData.ts:94-102 | With no field supplied, create gives type task, title 未命名, empty content, no tags, priority medium, status todo, deadline "", creation time now, and not pinned. |
| MockData.NewItemEmptyStrings | src/store/mockData.ts:95-100 | A supplied empty title, content or deadline gives the same item as leaving that field out, so an empty title becomes 未命名. |
| MockData.NewItemFromAllFields | src/store/mockData.ts:92-103 | Creating from every field of an item that has a non-empty title and a deadline reproduces that item. |
| MockData.CreatePreservesIds | src/store/mockData.ts:91-105 | A create without a supplied id keeps ids distinct and below the counter, which has grown by one. |
| MockData.SuppliedIdCollision | src/store/mockData.ts:91 | On the seeded store, creating with id 7 and then twice without an id gives two items with id 7: a supplied id is not checked. |
| MockData.Store.UpdateItem | src/store/mockData.ts:111-117 | The new list is the old one updated at the first match, and the counter is untouched. An update without an id keeps the id invariant. |
| MockData.Updated | src/store/mockData.ts:112-114 | With no item of that id the list is unchanged. Otherwise exactly the first matching position is replaced by the merge, and the length stays. |
| MockData.MergeNoFields | src/store/mockData.ts:114 | A spread that supplies nothing keeps the item. |
| MockData.MergeAllFields | src/store/mockData.ts:114 | Supplied fields override: a spread of all fields of another item that has a deadline yields that item, id and type included. When the other item has no deadline, the result is that item with the original deadline kept. |
| MockData.MergeIdempotent | src/store/mockData.ts:114 | Merging the same fields twice equals merging them once. |
| MockData.UpdatedIdempotent | src/store/mockData.ts:111-117 | Applying the same update twice equals applying it once. This holds when the update supplies no id, supplies the same id, or the ids are distinct. |
| MockData.UpdateChangingIdNotIdempotent | src/store/mockData.ts:112-114 | With two items sharing an id, an update that changes the id is not idempotent: the second application reaches the other item. |
| MockData.UpdatePreservesIds | src/store/mockData.ts:114 | An update that supplies no id keeps ids distinct and below the counter. |
| MockData.Store.DeleteItem | src/store/mockData.ts:120-123 | The new list is the old one without the id, and the counter is untouched. The id invariant is kept. |
| MockData.Without | src/store/mockData.ts:121 | After delete no item has the id, and the list is no longer than before. |
| MockData.WithoutCount | src/store/mockData.ts:121 | Delete keeps each item with another id as many times as the list has it, and none with the id. |
| MockData.WithoutAppend | src/store/mockData.ts:121 | Delete works piecewise on a concatenation, so the relative order of the rest is kept. |
| MockData.WithoutAbsent | src/store/mockData.ts:121 | Deleting an absent id is a no-op. |
| MockData.WithoutIdempotent | src/store/mockData.ts:121 | Deleting twice equals deleting once. |
| MockData.DeletePreservesIds | src/store/mockData.ts:121 | Delete keeps ids distinct and below the counter. |

## Left out

- Vue reactivity (`ref`, `computed`): the views are functions of the current state. They are recomputed on each call rather than pushed to observers.
- The `console.log` calls in create, update and delete: output only.
- Date handling: parsing `created_at` strings into times and reading the clock are foreign calls. Timestamps are integers and the clock is the parameter `now`. A comparator on unparseable dates (`NaN`) is not modelled.
- An empty `created_at` string: in the code it falls back to the clock (`src/store/mockData.ts:101`). A timestamp here is an integer, which has no empty value, so that fallback is not modelled.
- Object identity and aliasing: items and tag lists are values in the model. In the code, `createItem` returns the same object it puts into the list (`src/store/mockData.ts:105`, `:107`). The stored `tags` array is the caller's own array (`:97`). `getItems` copies the list but not the items in it (`:77-80`), and `getItemById` returns the stored object itself (`:86`). So a caller can change the store by writing through an object it got back, without calling `updateItem`. Such writes are outside the model. They can also break the id invariant that `CreatePreservesIds`, `UpdatePreservesIds` and `DeletePreservesIds` state.
- Integers are unbounded: the id counter does not model the limits of JavaScript numbers.
- JavaScript's own sort algorithm is replaced by a stable insertion sort. For a comparator given by an integer key, every stable sort gives the same order.
- A partial record that carries a field explicitly set to `undefined` is not modelled: a field is either supplied with a value or absent.
- The type casts in create (`as Item['type']` and the like) check nothing at run time. Out-of-range strings cannot occur in the model, because the enumerations are datatypes.
- The HTTP clients (`src/api/index.ts`, `src/api/notes.ts`, `src/api/task.ts`), the application bootstrap (`src/main.ts`) and the route table (`src/router/index.ts`) are not part of this model. They do network I/O or framework set-up and hold no store logic.
