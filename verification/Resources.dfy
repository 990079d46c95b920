/** The health-check resource as the scheduler, the Redis hash and the memory list hold it. */
module Resources {
  import opened Wrappers

  datatype Resource = Resource(uid: string, name: string, space: string, schedule: string,
                               latestSync: int, relatedService: Option<string>)
  {
    /** Name and namespace, joined by a dot. */
    function Key(): string {
      name + "." + space
    }
  }

  /** Two resources with the same key are in the same namespace and have the same name, as namespaces
      are RFC 1123 labels and so contain no dot. */
  lemma KeyIsInjective(a: Resource, b: Resource)
    requires '.' !in a.space && '.' !in b.space
    ensures a.Key() == b.Key() <==> a.name == b.name && a.space == b.space
  {
    if a.Key() == b.Key() {
      LastDot(a);
      LastDot(b);
    }
  }

  /** The namespace is what follows the last dot of the key. */
  lemma LastDot(r: Resource)
    requires '.' !in r.space
    ensures var key, n := r.Key(), |r.name|;
            && |key| == n + 1 + |r.space| && key[..n] == r.name && key[n] == '.' && key[n + 1..] == r.space
            && forall i | n < i < |key| :: key[i] != '.'
  {
  }

  /** The first item with the given uid. */
  function ItemFor(items: seq<Resource>, uid: string): (item: Option<Resource>)
    ensures item.Some? ==> item.value in items && item.value.uid == uid
    ensures item.None? ==> forall x <- items :: x.uid != uid
  {
    if items == [] then None
    else if items[0].uid == uid then Some(items[0])
    else ItemFor(items[1..], uid)
  }

  ghost predicate DistinctUids(items: seq<Resource>) {
    forall i, j | 0 <= i < j < |items| :: items[i].uid != items[j].uid
  }

  ghost predicate DistinctKeys(items: seq<Resource>) {
    forall i, j | 0 <= i < j < |items| :: items[i].Key() != items[j].Key()
  }

  lemma {:induction false} ItemForIs(items: seq<Resource>, item: Resource)
    requires DistinctUids(items) && item in items
    ensures ItemFor(items, item.uid) == Some(item)
  {
    if items[0] != item {
      assert item in items[1..];
      var i :| 0 <= i < |items| && items[i] == item;
      assert items[0].uid != items[i].uid;
      ItemForIs(items[1..], item);
    }
  }
}
