/** A Redis hash as a dictionary, and its reconciliation with a list of items. */
module RedisDictionaries {

  function KeysOf<V>(items: seq<V>, keyOf: V -> string): set<string> {
    set i | 0 <= i < |items| :: keyOf(items[i])
  }

  /** The last item with the given key. */
  function LastWith<V>(items: seq<V>, keyOf: V -> string, key: string): (item: V)
    requires key in KeysOf(items, keyOf)
    ensures exists i :: 0 <= i < |items| && items[i] == item && keyOf(item) == key &&
                        forall j | i < j < |items| :: keyOf(items[j]) != key
  {
    if keyOf(items[|items| - 1]) == key then items[|items| - 1]
    else LastWith(items[..|items| - 1], keyOf, key)
  }

  /** The hash after the items were added, over the old entries or only for new keys. */
  function Merged<V>(hash: map<string, V>, items: seq<V>, keyOf: V -> string, overrideExisting: bool): map<string, V> {
    map key | key in hash.Keys + KeysOf(items, keyOf) ::
      if key in KeysOf(items, keyOf) && (overrideExisting || key !in hash) then LastWith(items, keyOf, key)
      else hash[key]
  }

  /** The reconciled hash: exactly the keys of the items; a key that was present keeps its value unless
      overridden, and every other key has its last item. */
  function Reconciled<V>(hash: map<string, V>, items: seq<V>, keyOf: V -> string,
                         overrideExisting: bool): map<string, V> {
    map key | key in KeysOf(items, keyOf) ::
      if !overrideExisting && key in hash then hash[key] else LastWith(items, keyOf, key)
  }

  class RedisDictionary<V(==)> {
    /** The key property of a value. */
    const keyOf: V -> string
    var hash: map<string, V>

    constructor (keyOf: V -> string)
      ensures this.keyOf == keyOf && hash == map[]
    {
      this.keyOf := keyOf;
      hash := map[];
    }

    method Add(value: V)
      modifies this
      ensures hash == old(hash)[keyOf(value) := value]
    {
      AddAt(keyOf(value), value);
    }

    method AddAt(key: string, value: V)
      modifies this
      ensures hash == old(hash)[key := value]
    {
      hash := hash[key := value];
    }

    method Remove(key: string) returns (removed: bool)
      modifies this
      ensures hash == old(hash) - {key} && removed == (key in old(hash))
    {
      removed := key in hash;
      hash := hash - {key};
    }

    method Sync(items: seq<V>, overrideExisting: bool)
      modifies this
      ensures hash == Reconciled(old(hash), items, keyOf, overrideExisting)
    {
      var keys := hash.Keys;
      for i := 0 to |items|
        invariant hash == Merged(old(hash), items[..i], keyOf, overrideExisting)
      {
        MergeOne(old(hash), items, i, keyOf, overrideExisting);
        if overrideExisting {
          Add(items[i]);
        } else {
          var itemKey := keyOf(items[i]);
          if itemKey !in keys {
            Add(items[i]);
          }
        }
      }
      assert items[..|items|] == items;
      RemoveOthers(KeysOf(items, keyOf));
    }

    method SyncBy(items: seq<V>, keyFunc: V -> string)
      modifies this
      ensures hash == Reconciled(old(hash), items, keyFunc, false)
    {
      var keys := hash.Keys;
      for i := 0 to |items|
        invariant hash == Merged(old(hash), items[..i], keyFunc, false)
      {
        MergeOne(old(hash), items, i, keyFunc, false);
        var key := keyFunc(items[i]);
        if key !in keys {
          AddAt(key, items[i]);
        }
      }
      assert items[..|items|] == items;
      RemoveOthers(KeysOf(items, keyFunc));
    }

    /** The second loop of both: every key of the hash that no item has is removed. */
    method RemoveOthers(itemKeys: set<string>)
      modifies this
      ensures hash == map key | key in old(hash) && key in itemKeys :: old(hash)[key]
    {
      var left := hash.Keys;
      while left != {}
        invariant left <= old(hash).Keys
        invariant hash == map key | key in old(hash) && (key in left || key in itemKeys) :: old(hash)[key]
        decreases left
      {
        var key :| key in left;
        left := left - {key};
        if key !in itemKeys {
          var _ := Remove(key);
        }
      }
    }
  }

  lemma KeysOfPrefix<V>(items: seq<V>, i: nat, keyOf: V -> string)
    requires i < |items|
    ensures KeysOf(items[..i + 1], keyOf) == KeysOf(items[..i], keyOf) + {keyOf(items[i])}
  {
    assert items[..i + 1][i] == items[i];
    forall key | key in KeysOf(items[..i], keyOf) ensures key in KeysOf(items[..i + 1], keyOf) {
      var j :| 0 <= j < i && keyOf(items[..i][j]) == key;
      assert items[..i + 1][j] == items[j];
    }
    assert keyOf(items[..i + 1][i]) in KeysOf(items[..i + 1], keyOf);
  }

  lemma LastOfPrefix<V>(items: seq<V>, i: nat, keyOf: V -> string, key: string)
    requires i < |items| && key in KeysOf(items[..i + 1], keyOf)
    requires keyOf(items[i]) != key ==> key in KeysOf(items[..i], keyOf)
    ensures LastWith(items[..i + 1], keyOf, key) ==
            if keyOf(items[i]) == key then items[i] else LastWith(items[..i], keyOf, key)
  {
    assert items[..i + 1][..i] == items[..i] && items[..i + 1][i] == items[i];
  }

  /** A hash with one more item, if its key is to be set. */
  function WithItem<V>(hash: map<string, V>, before: map<string, V>, item: V, keyOf: V -> string,
                       overrideExisting: bool): map<string, V> {
    if overrideExisting || keyOf(item) !in hash then before[keyOf(item) := item] else before
  }

  lemma MergeOneAt<V>(hash: map<string, V>, items: seq<V>, i: nat, keyOf: V -> string, overrideExisting: bool,
                      key: string)
    requires i < |items|
    ensures var before := Merged(hash, items[..i], keyOf, overrideExisting);
            var after := Merged(hash, items[..i + 1], keyOf, overrideExisting);
            var expected := WithItem(hash, before, items[i], keyOf, overrideExisting);
            && (key in after <==> key in expected)
            && (key in after ==> after[key] == expected[key])
  {
    KeysOfPrefix(items, i, keyOf);
    if key in KeysOf(items[..i + 1], keyOf) {
      LastOfPrefix(items, i, keyOf, key);
    }
  }

  /** Merging one more item adds it, if its key is to be set. */
  lemma MergeOne<V>(hash: map<string, V>, items: seq<V>, i: nat, keyOf: V -> string, overrideExisting: bool)
    requires i < |items|
    ensures Merged(hash, items[..i + 1], keyOf, overrideExisting) ==
            WithItem(hash, Merged(hash, items[..i], keyOf, overrideExisting), items[i], keyOf, overrideExisting)
  {
    var before := Merged(hash, items[..i], keyOf, overrideExisting);
    var after := Merged(hash, items[..i + 1], keyOf, overrideExisting);
    var expected := WithItem(hash, before, items[i], keyOf, overrideExisting);
    forall key: string ensures (key in after <==> key in expected) && (key in after ==> after[key] == expected[key]) {
      MergeOneAt(hash, items, i, keyOf, overrideExisting, key);
    }
    SameMap(after, expected);
  }

  lemma SameMap<V>(a: map<string, V>, b: map<string, V>)
    requires forall key: string :: (key in a <==> key in b) && (key in a ==> a[key] == b[key])
    ensures a == b
  {
  }

  /** What a key of the reconciled hash holds: its old value if it is to be kept, and otherwise the last item of
      that key. */
  ghost predicate HoldsRightValue<V(!new)>(hash: map<string, V>, items: seq<V>, keyOf: V -> string,
                                           overrideExisting: bool,
                                           key: string, value: V)
  {
    if !overrideExisting && key in hash then value == hash[key]
    else exists i :: 0 <= i < |items| && items[i] == value && keyOf(items[i]) == key &&
                     forall j | i < j < |items| :: keyOf(items[j]) != key
  }

  /** A hash is the reconciled one if and only if its keys are those of the items and each holds the right value;
      reconciling again changes nothing. */
  lemma ReconciledIff<V(!new)>(hash: map<string, V>, items: seq<V>, keyOf: V -> string, overrideExisting: bool,
                               r: map<string, V>)
    ensures r == Reconciled(hash, items, keyOf, overrideExisting) <==>
            r.Keys == KeysOf(items, keyOf) &&
            forall key <- r.Keys :: HoldsRightValue(hash, items, keyOf, overrideExisting, key, r[key])
    ensures r == Reconciled(hash, items, keyOf, overrideExisting) ==> Reconciled(r, items, keyOf, overrideExisting) == r
  {
    var expected := Reconciled(hash, items, keyOf, overrideExisting);
    forall key, value | key in KeysOf(items, keyOf)
      ensures HoldsRightValue(hash, items, keyOf, overrideExisting, key, value) <==> value == expected[key]
    {
      RightValueIs(hash, items, keyOf, overrideExisting, key, value);
    }
    ReconciledTwice(hash, items, keyOf, overrideExisting);
    assert r.Keys == expected.Keys && (forall key <- r.Keys :: r[key] == expected[key]) ==> r == expected;
  }

  lemma RightValueIs<V(!new)>(hash: map<string, V>, items: seq<V>, keyOf: V -> string, overrideExisting: bool,
                              key: string, value: V)
    requires key in KeysOf(items, keyOf)
    ensures HoldsRightValue(hash, items, keyOf, overrideExisting, key, value) <==>
            value == Reconciled(hash, items, keyOf, overrideExisting)[key]
  {
  }

  lemma ReconciledTwice<V>(hash: map<string, V>, items: seq<V>, keyOf: V -> string, overrideExisting: bool)
    ensures var r := Reconciled(hash, items, keyOf, overrideExisting);
            Reconciled(r, items, keyOf, overrideExisting) == r
  {
  }
}
