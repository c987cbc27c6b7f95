/**
 * The record shared by the task and note features: one `Item` type whose
 * `itemType` field says which of the two views it belongs to.
 */
module Types {

  datatype Option<+T> = None | Some(value: T)
  {
    /** The held value, or `default` when there is none. */
    function GetOr(default: T): T
    {
      match this
      case Some(v) => v
      case None => default
    }
  }

  datatype ItemType = Task | Note

  datatype Priority = High | Medium | Low

  datatype Status = Todo | Doing | Done

  /**
   * A stored task or note. `deadline` is optional; `createdAt` is the
   * creation timestamp as an abstract integer (a later moment is a larger
   * number).
   */
  datatype Item = Item(
    id: int,
    itemType: ItemType,
    title: string,
    content: string,
    tags: seq<string>,
    priority: Priority,
    status: Status,
    deadline: Option<string>,
    createdAt: int,
    isPinned: bool)

  /**
   * A partial item, as handed to create and update: each field is either
   * supplied (`Some`) or absent (`None`).
   */
  datatype PartialItem = PartialItem(
    id: Option<int>,
    itemType: Option<ItemType>,
    title: Option<string>,
    content: Option<string>,
    tags: Option<seq<string>>,
    priority: Option<Priority>,
    status: Option<Status>,
    deadline: Option<string>,
    createdAt: Option<int>,
    isPinned: Option<bool>)

  /** The partial item that supplies no field at all. */
  const NoFields: PartialItem :=
    PartialItem(None, None, None, None, None, None, None, None, None, None)
}
