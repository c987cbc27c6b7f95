/**
 * The in-memory item store: one list of items, seeded with five records, and
 * an id counter that starts at 6. Reads derive fresh views of the list;
 * create, update and delete change it.
 */
module MockData {
  import opened Types
  import opened StableSort

  /** The title a created item gets when none (or an empty one) is supplied. */
  const Untitled: string := "未命名"

  /** The counter value the store starts with: one past the largest seed id. */
  const FirstFreeId: int := 6

  /**
   * The seed records. Their creation times are written as integers of the
   * form yyyymmddhhmm, which orders them as the seed's date strings are
   * ordered.
   */
  function SeedItems(): seq<Item>
  {
    [ Item(1, Task, "完成文档", "详细编写文档 ", ["study", "project"], High, Todo,
           Some("2025-11-10 09:00"), 202511091000, true),
      Item(2, Task, "学习 Vue 3 Composition API", "", ["study"], Medium, Todo,
           None, 202511081100, false),
      Item(3, Task, "倒垃圾", "", ["life"], Low, Done,
           None, 202511080900, false),
      Item(4, Note, "Tailwind CSS 笔记", "# 常用指令\n- `bg-blue-500`\n- `text-lg`\n- `@apply`",
           ["dev", "css"], Medium, Done, None, 202511071500, true),
      Item(5, Note, "会议纪要", "### 11月9日周会\n- 讨论MVP功能\n- 确定技术栈",
           ["project", "work"], Medium, Done, None, 202511091400, false) ]
  }

  // ---------------------------------------------------------------------
  // Views
  // ---------------------------------------------------------------------

  /** The sort key of the pin comparator: pinned items first. */
  function PinRank(x: Item): int
  {
    if x.isPinned then 0 else 1
  }

  /** The time comparator's key for creation time `createdAt`: the most recent first. */
  function TimeRankOf(createdAt: int): int
  {
    -createdAt
  }

  /** The sort key of the time comparator. */
  function TimeRank(x: Item): int
  {
    TimeRankOf(x.createdAt)
  }

  /** The items of `s` of type `t`, in their order in `s`. */
  function OfType(s: seq<Item>, t: ItemType): (r: seq<Item>)
    ensures |r| <= |s|
    ensures forall x :: x in r ==> x in s && x.itemType == t
  {
    if s == [] then []
    else
      assert s == [s[0]] + s[1..];
      (if s[0].itemType == t then [s[0]] else []) + OfType(s[1..], t)
  }

  /** The typed view keeps every item of type `t` as often as the list has it, and no other. */
  lemma {:induction false} OfTypeCount(s: seq<Item>, t: ItemType, x: Item)
    ensures multiset(OfType(s, t))[x] == if x.itemType == t then multiset(s)[x] else 0
  {
    if s != [] {
      assert s == [s[0]] + s[1..];
      OfTypeCount(s[1..], t, x);
    }
  }

  /** The items of `s` created at `c` whose pin status is `pinned`, in their order in `s`. */
  function Group(s: seq<Item>, c: int, pinned: bool): seq<Item>
  {
    KeyClass(KeyClass(s, TimeRank, TimeRankOf(c)), PinRank, if pinned then 0 else 1)
  }

  /**
   * The position of the first item of `s` whose id is `id`, or -1 when there
   * is none.
   */
  function FindIndex(s: seq<Item>, id: int): (k: int)
    ensures -1 <= k < |s|
    ensures k == -1 <==> forall i :: 0 <= i < |s| ==> s[i].id != id
    ensures k >= 0 ==> s[k].id == id && forall i :: 0 <= i < k ==> s[i].id != id
  {
    if s == [] then -1
    else if s[0].id == id then 0
    else
      var k := FindIndex(s[1..], id);
      if k == -1 then -1 else k + 1
  }

  // ---------------------------------------------------------------------
  // Item construction and merging
  // ---------------------------------------------------------------------

  /**
   * The item that create builds from `p`, with id `id`, where `now` stands
   * for the clock. An absent field takes its default; so do a supplied empty
   * title and a supplied empty deadline. A deadline always ends up present.
   */
  function NewItem(p: PartialItem, id: int, now: int): Item
  {
    Item(id,
         p.itemType.GetOr(Task),
         if p.title.None? || p.title.value == "" then Untitled else p.title.value,
         p.content.GetOr(""),
         p.tags.GetOr([]),
         p.priority.GetOr(Medium),
         p.status.GetOr(Todo),
         Some(p.deadline.GetOr("")),
         p.createdAt.GetOr(now),
         p.isPinned.GetOr(false))
  }

  /** The shallow merge of `p` onto `x`: supplied fields replace, absent ones are kept. */
  function Merge(x: Item, p: PartialItem): Item
  {
    Item(p.id.GetOr(x.id),
         p.itemType.GetOr(x.itemType),
         p.title.GetOr(x.title),
         p.content.GetOr(x.content),
         p.tags.GetOr(x.tags),
         p.priority.GetOr(x.priority),
         p.status.GetOr(x.status),
         if p.deadline.Some? then Some(p.deadline.value) else x.deadline,
         p.createdAt.GetOr(x.createdAt),
         p.isPinned.GetOr(x.isPinned))
  }

  /** The partial item that supplies every field of `x` (an absent deadline stays absent). */
  function AllFields(x: Item): PartialItem
  {
    PartialItem(Some(x.id), Some(x.itemType), Some(x.title), Some(x.content), Some(x.tags),
                Some(x.priority), Some(x.status), x.deadline, Some(x.createdAt), Some(x.isPinned))
  }

  // ---------------------------------------------------------------------
  // The effect of the mutators on the list
  // ---------------------------------------------------------------------

  /**
   * The list after updating `id` with `p`: the first item with that id is
   * replaced by its merge with `p`; without such an item nothing changes.
   */
  function Updated(s: seq<Item>, id: int, p: PartialItem): (r: seq<Item>)
    ensures |r| == |s|
    ensures (forall i :: 0 <= i < |s| ==> s[i].id != id) ==> r == s
    ensures forall k :: 0 <= k < |s| && s[k].id == id && (forall j :: 0 <= j < k ==> s[j].id != id)
              ==> r == s[k := Merge(s[k], p)]
  {
    var k := FindIndex(s, id);
    if k == -1 then s else s[k := Merge(s[k], p)]
  }

  /** The list without any item whose id is `id`, the others in their order. */
  function Without(s: seq<Item>, id: int): (r: seq<Item>)
    ensures |r| <= |s|
    ensures forall i :: 0 <= i < |r| ==> r[i].id != id
  {
    if s == [] then []
    else
      assert s == [s[0]] + s[1..];
      (if s[0].id != id then [s[0]] else []) + Without(s[1..], id)
  }

  /** Delete keeps every item with another id as often as the list has it, and no other. */
  lemma {:induction false} WithoutCount(s: seq<Item>, id: int, x: Item)
    ensures multiset(Without(s, id))[x] == if x.id != id then multiset(s)[x] else 0
  {
    if s != [] {
      assert s == [s[0]] + s[1..];
      WithoutCount(s[1..], id, x);
    }
  }

  /** Ids in `s` are pairwise distinct. */
  ghost predicate IdsDistinct(s: seq<Item>)
  {
    forall i, j :: 0 <= i < j < |s| ==> s[i].id != s[j].id
  }

  /** Ids in `s` are pairwise distinct and all below the counter value `nextId`. */
  ghost predicate IdsValid(s: seq<Item>, nextId: int)
  {
    && IdsDistinct(s)
    && (forall i :: 0 <= i < |s| ==> s[i].id < nextId)
  }

  // ---------------------------------------------------------------------
  // The store
  // ---------------------------------------------------------------------

  class Store {
    var items: seq<Item>
    var nextId: int

    /** The store as the module sets it up: the seed records and counter 6. */
    constructor ()
      ensures items == SeedItems() && nextId == FirstFreeId
    {
      items := SeedItems();
      nextId := FirstFreeId;
    }

    /**
     * The items of type `t`, sorted first by pin status and then, stably, by
     * creation time, most recent first. The later sort decides: the result is
     * ordered by creation time, and pin status only breaks ties.
     */
    function GetItems(t: ItemType): (r: seq<Item>)
      reads this
      ensures multiset(r) == multiset(OfType(items, t))
      ensures forall x :: x in r ==> x.itemType == t
      ensures forall i, j :: 0 <= i < j < |r| ==> r[i].createdAt >= r[j].createdAt
      ensures forall i, j :: 0 <= i < j < |r| && r[i].createdAt == r[j].createdAt
                ==> r[i].isPinned || !r[j].isPinned
    {
      var byPin := SortBy(OfType(items, t), PinRank);
      var r := SortBy(byPin, TimeRank);
      SortByKeepsTies(byPin, TimeRank, PinRank);
      SortByMembers(OfType(items, t), PinRank);
      SortByMembers(byPin, TimeRank);
      r
    }

    /** The first item whose id is `id`, or `None` when there is none. */
    function GetItemById(id: int): (r: Option<Item>)
      reads this
      ensures r.None? <==> forall i :: 0 <= i < |items| ==> items[i].id != id
      ensures r.Some? ==> (r.value.id == id &&
                exists k :: 0 <= k < |items| && items[k] == r.value &&
                  forall j :: 0 <= j < k ==> items[j].id != id)
    {
      var k := FindIndex(items, id);
      if k == -1 then None else Some(items[k])
    }

    /**
     * Creates an item from `p` at time `now` and puts it at the head of the
     * list. A supplied id is used as it is; otherwise the counter provides
     * the id and advances by one.
     */
    method CreateItem(p: PartialItem, now: int) returns (item: Item)
      modifies this
      ensures p.id.Some? ==> item.id == p.id.value && nextId == old(nextId)
      ensures p.id.None? ==> item.id == old(nextId) && nextId == old(nextId) + 1
      ensures item == NewItem(p, item.id, now)
      ensures items == [item] + old(items)
      ensures GetItemById(item.id) == Some(item)
      ensures p.id.None? && IdsValid(old(items), old(nextId)) ==> IdsValid(items, nextId)
    {
      var id: int;
      if p.id.Some? {
        id := p.id.value;
      } else {
        id := nextId;
        nextId := nextId + 1;
      }
      item := NewItem(p, id, now);
      items := [item] + items;
      if p.id.None? && IdsValid(old(items), old(nextId)) {
        CreatePreservesIds(old(items), old(nextId), p, now);
      }
    }

    /** Merges `p` onto the first item whose id is `id`; does nothing if there is none. */
    method UpdateItem(id: int, p: PartialItem)
      modifies this
      ensures items == Updated(old(items), id, p)
      ensures nextId == old(nextId)
      ensures p.id.None? && IdsValid(old(items), nextId) ==> IdsValid(items, nextId)
    {
      var index := FindIndex(items, id);
      if index != -1 {
        items := items[index := Merge(items[index], p)];
      }
      if p.id.None? && IdsValid(old(items), nextId) {
        UpdatePreservesIds(old(items), nextId, id, p);
      }
    }

    /** Removes every item whose id is `id`. */
    method DeleteItem(id: int)
      modifies this
      ensures items == Without(old(items), id)
      ensures nextId == old(nextId)
      ensures IdsValid(old(items), nextId) ==> IdsValid(items, nextId)
    {
      items := Without(items, id);
      if IdsValid(old(items), nextId) {
        DeletePreservesIds(old(items), nextId, id);
      }
    }
  }

  // ---------------------------------------------------------------------
  // Properties of the views
  // ---------------------------------------------------------------------

  /** Every item is in exactly one of the two typed views. */
  lemma TypePartition(s: seq<Item>)
    ensures multiset(OfType(s, Task)) + multiset(OfType(s, Note)) == multiset(s)
  {
    forall x
      ensures (multiset(OfType(s, Task)) + multiset(OfType(s, Note)))[x] == multiset(s)[x]
    {
      OfTypeCount(s, Task, x);
      OfTypeCount(s, Note, x);
    }
  }

  /** The typed views of a store together hold exactly the store's items. */
  lemma ViewsPartitionStore(st: Store)
    ensures multiset(st.GetItems(Task)) + multiset(st.GetItems(Note)) == multiset(st.items)
  {
    TypePartition(st.items);
  }

  /**
   * Items of equal creation time and equal pin status come out of the view
   * in the order they have in the store.
   */
  lemma GetItemsStable(st: Store, t: ItemType, c: int, pinned: bool)
    ensures Group(st.GetItems(t), c, pinned) == Group(OfType(st.items, t), c, pinned)
  {
    var s0 := OfType(st.items, t);
    assert st.GetItems(t) == SortBy(SortBy(s0, PinRank), TimeRank);
    TwoSortsStable(s0, PinRank, TimeRank, if pinned then 0 else 1, TimeRankOf(c));
  }

  /**
   * In the seeded store the note view lists the unpinned note 5 before the
   * pinned note 4, because note 5 is newer.
   */
  lemma SeedNotesOrder(st: Store)
    requires st.items == SeedItems()
    ensures st.GetItems(Note) == [SeedItems()[4], SeedItems()[3]]
    ensures !st.GetItems(Note)[0].isPinned && st.GetItems(Note)[1].isPinned
  {
    SeedNotes();
    SeedNotesSorted();
    assert st.GetItems(Note) == SortBy(SortBy(OfType(SeedItems(), Note), PinRank), TimeRank);
  }

  /** Sorting the two seeded notes by pin status and then by time puts the newer note 5 first. */
  lemma SeedNotesSorted()
    ensures SortBy(SortBy([SeedItems()[3], SeedItems()[4]], PinRank), TimeRank)
         == [SeedItems()[4], SeedItems()[3]]
  {
  }

  /** The seeded notes are items 4 and 5, in that order. */
  lemma SeedNotes()
    ensures OfType(SeedItems(), Note) == [SeedItems()[3], SeedItems()[4]]
  {
  }

  /** The seeded store satisfies the id invariant. */
  lemma SeedIdsValid()
    ensures IdsValid(SeedItems(), FirstFreeId)
  {
  }

  // ---------------------------------------------------------------------
  // Properties of create, update and delete
  // ---------------------------------------------------------------------

  /** Create with no fields at all yields every default. */
  lemma NewItemDefaults(id: int, now: int)
    ensures NewItem(NoFields, id, now) == Item(id, Task, Untitled, "", [], Medium, Todo, Some(""), now, false)
  {
  }

  /**
   * Create treats a supplied empty title, content or deadline as absent: each
   * gives the same item as leaving the field out.
   */
  lemma NewItemEmptyStrings(p: PartialItem, id: int, now: int)
    ensures NewItem(p.(title := Some("")), id, now) == NewItem(p.(title := None), id, now)
    ensures NewItem(p.(title := Some("")), id, now).title == Untitled
    ensures NewItem(p.(content := Some("")), id, now) == NewItem(p.(content := None), id, now)
    ensures NewItem(p.(deadline := Some("")), id, now) == NewItem(p.(deadline := None), id, now)
  {
  }

  /**
   * Creating from all fields of an item with a non-empty title and a
   * deadline gives back that item: no default overrides a supplied value.
   */
  lemma NewItemFromAllFields(x: Item, now: int)
    requires x.title != "" && x.deadline.Some?
    ensures NewItem(AllFields(x), x.id, now) == x
  {
  }

  /** Create from counter `n` without a supplied id keeps the id invariant, with the counter at `n + 1`. */
  lemma CreatePreservesIds(s: seq<Item>, n: int, p: PartialItem, now: int)
    requires IdsValid(s, n) && p.id.None?
    ensures IdsValid([NewItem(p, n, now)] + s, n + 1)
  {
  }

  /** A merge that supplies nothing keeps the item. */
  lemma MergeNoFields(x: Item)
    ensures Merge(x, NoFields) == x
  {
  }

  /**
   * A merge that supplies every field of `y` yields `y`, except that when `y`
   * has no deadline there is none to supply and `x`'s deadline is kept.
   */
  lemma MergeAllFields(x: Item, y: Item)
    ensures y.deadline.Some? ==> Merge(x, AllFields(y)) == y
    ensures y.deadline.None? ==> Merge(x, AllFields(y)) == y.(deadline := x.deadline)
  {
  }

  /** Merging the same fields twice is merging them once. */
  lemma MergeIdempotent(x: Item, p: PartialItem)
    ensures Merge(Merge(x, p), p) == Merge(x, p)
  {
  }

  /**
   * Updating twice with the same fields equals updating once, unless the
   * fields move the item to another id while a second item still has the
   * old one.
   */
  lemma UpdatedIdempotent(s: seq<Item>, id: int, p: PartialItem)
    requires p.id.None? || p.id == Some(id) || IdsDistinct(s)
    ensures Updated(Updated(s, id, p), id, p) == Updated(s, id, p)
  {
    var k := FindIndex(s, id);
    if k != -1 {
      var s1 := s[k := Merge(s[k], p)];
      assert Updated(s, id, p) == s1;
      MergeIdempotent(s[k], p);
      if p.id.None? || p.id == Some(id) {
        assert forall j :: 0 <= j < k ==> s1[j].id != id;
        assert Updated(s1, id, p) == s1[k := Merge(s1[k], p)];
      } else {
        assert forall i :: 0 <= i < |s1| ==> s1[i].id != id by {
          forall i | 0 <= i < |s1| ensures s1[i].id != id {
            if i < k {
            } else if i > k {
              assert s[k].id != s[i].id;
            }
          }
        }
      }
    }
  }

  /** Without distinct ids, an update that changes the id is not idempotent. */
  lemma UpdateChangingIdNotIdempotent()
    ensures var a := Item(1, Task, "a", "", [], Medium, Todo, None, 0, false);
            var p := NoFields.(id := Some(2));
            Updated(Updated([a, a], 1, p), 1, p) != Updated([a, a], 1, p)
  {
  }

  /** An update that supplies no id keeps the id invariant. */
  lemma UpdatePreservesIds(s: seq<Item>, n: int, id: int, p: PartialItem)
    requires IdsValid(s, n) && p.id.None?
    ensures IdsValid(Updated(s, id, p), n)
  {
  }

  /** A list with distinct ids has a tail with distinct ids, none equal to the head's. */
  lemma DistinctTail(s: seq<Item>)
    requires s != [] && IdsDistinct(s)
    ensures IdsDistinct(s[1..])
    ensures forall y :: y in s[1..] ==> y.id != s[0].id
  {
  }

  /** Putting an item with a new id in front of a list with distinct ids keeps them distinct. */
  lemma DistinctCons(x: Item, s: seq<Item>)
    requires IdsDistinct(s)
    requires forall y :: y in s ==> y.id != x.id
    ensures IdsDistinct([x] + s)
  {
  }

  /** Every item left by delete was in the list. */
  lemma WithoutMembers(s: seq<Item>, id: int, x: Item)
    requires x in Without(s, id)
    ensures x in s
  {
    WithoutCount(s, id, x);
    assert x in multiset(Without(s, id));
  }

  /** Delete keeps ids pairwise distinct. */
  lemma {:induction false} WithoutKeepsDistinct(s: seq<Item>, id: int)
    requires IdsDistinct(s)
    ensures IdsDistinct(Without(s, id))
  {
    if s != [] {
      DistinctTail(s);
      WithoutKeepsDistinct(s[1..], id);
      if s[0].id != id {
        forall y | y in Without(s[1..], id) ensures y.id != s[0].id {
          WithoutMembers(s[1..], id, y);
        }
        DistinctCons(s[0], Without(s[1..], id));
      }
    }
  }

  /** Delete keeps the id invariant. */
  lemma DeletePreservesIds(s: seq<Item>, n: int, id: int)
    requires IdsValid(s, n)
    ensures IdsValid(Without(s, id), n)
  {
    WithoutKeepsDistinct(s, id);
    var r := Without(s, id);
    forall i | 0 <= i < |r| ensures r[i].id < n {
      WithoutMembers(s, id, r[i]);
    }
  }

  /** Deleting keeps the relative order: it works piecewise on a concatenation. */
  lemma {:induction false} WithoutAppend(a: seq<Item>, b: seq<Item>, id: int)
    ensures Without(a + b, id) == Without(a, id) + Without(b, id)
  {
    if a == [] {
      assert a + b == b;
    } else {
      assert (a + b)[0] == a[0] && (a + b)[1..] == a[1..] + b;
      WithoutAppend(a[1..], b, id);
    }
  }

  /** Deleting an id that no item has changes nothing. */
  lemma {:induction false} WithoutAbsent(s: seq<Item>, id: int)
    requires forall i :: 0 <= i < |s| ==> s[i].id != id
    ensures Without(s, id) == s
  {
    if s != [] {
      WithoutAbsent(s[1..], id);
    }
  }

  /** Deleting twice is deleting once. */
  lemma WithoutIdempotent(s: seq<Item>, id: int)
    ensures Without(Without(s, id), id) == Without(s, id)
  {
    WithoutAbsent(Without(s, id), id);
  }

  // ---------------------------------------------------------------------
  // A caller's view
  // ---------------------------------------------------------------------

  /**
   * A supplied id is not checked against the counter: on the seeded store,
   * creating with id 7 and then twice without an id gives two items with
   * id 7.
   */
  method SuppliedIdCollision() returns (first: Item, third: Item)
    ensures first.id == 7 && third.id == 7
  {
    var st := new Store();
    first := st.CreateItem(NoFields.(id := Some(7)), 0);
    var second := st.CreateItem(NoFields, 0);
    third := st.CreateItem(NoFields, 0);
    assert second.id == 6;
  }
}
