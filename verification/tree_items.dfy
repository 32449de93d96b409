/** The values a tree store holds: identifiers, caller items and stored items. */
module TreeItems {

  datatype Option<T> = None | Some(value: T)

  /** An item identifier, `string | number` in the source; numbers are integral here. */
  datatype Guid = Num(n: int) | Str(s: string)

  /** The caller-defined extra fields of an item, passed through untouched and
      compared only for equality. `id` and `parent` are fields of `Item`
      itself, and `children` is the store's own field, which the constructor
      overwrites and the read methods strip; none of the three can be an
      extra field. */
  type Payload = m: map<string, string> | "id" !in m && "parent" !in m && "children" !in m
    witness map[]

  /** A caller's item: its id, a nullable parent reference and the extra fields. */
  datatype Item = Item(id: Guid, parent: Option<Guid>, extra: Payload)

  /** A stored item: the caller's record plus the store-maintained list of the
      ids of its children, in the order they were attached. */
  datatype FullItem = FullItem(item: Item, children: seq<Guid>)

  /** JavaScript truthiness of a parent reference, as checked by `if (parentId)`:
      `null`, the number 0 and the empty string all count as "no parent". */
  predicate Truthy(p: Option<Guid>)
    ensures Truthy(p) ==> p.Some?
    ensures p.Some? ==> (Truthy(p) <==> p.value != Num(0) && p.value != Str(""))
  {
    match p
    case None => false
    case Some(Num(n)) => n != 0
    case Some(Str(t)) => t != ""
  }

  /** Whether `node` names `p` as its parent in a way the store acts on. */
  predicate RefersTo(node: Item, p: Guid) {
    Truthy(node.parent) && node.parent.value == p
  }

  /** The ids of a sequence of items (`items.map(i => i.id)`). */
  function Ids(xs: seq<Item>): (r: seq<Guid>)
    ensures |r| == |xs|
    ensures forall i :: 0 <= i < |xs| ==> r[i] == xs[i].id
  {
    seq(|xs|, i requires 0 <= i < |xs| => xs[i].id)
  }
}
