/**
 * Id-keyed tables filled by assignment in a loop (`table[key(item)] = item`):
 * a later item with the same key replaces an earlier one.
 */
module Tables {

  function TableOf<K(==), T>(items: seq<T>, key: T -> K): map<K, T>
  {
    if items == [] then map[]
    else TableOf(items[..|items| - 1], key)[key(items[|items| - 1]) := items[|items| - 1]]
  }

  function KeysOf<K(==), T>(items: seq<T>, key: T -> K): set<K>
  {
    set i | 0 <= i < |items| :: key(items[i])
  }

  lemma TableOfSnoc<K, T>(items: seq<T>, key: T -> K, x: T)
    ensures TableOf(items + [x], key) == TableOf(items, key)[key(x) := x]
  {
    assert (items + [x])[..|items|] == items;
  }

  /** The table has exactly the keys of the items. */
  lemma {:induction false} TableOfKeys<K, T>(items: seq<T>, key: T -> K)
    ensures TableOf(items, key).Keys == KeysOf(items, key)
    ensures |TableOf(items, key)| == |KeysOf(items, key)|
  {
    if items != [] {
      var init := items[..|items| - 1];
      TableOfKeys(init, key);
      forall k | k in KeysOf(items, key) ensures k in TableOf(items, key).Keys {
        var i :| 0 <= i < |items| && key(items[i]) == k;
        if i < |items| - 1 {
          assert key(init[i]) == k;
        }
      }
      forall k | k in TableOf(items, key).Keys ensures k in KeysOf(items, key) {
        if k != key(items[|items| - 1]) {
          var i :| 0 <= i < |init| && key(init[i]) == k;
          assert key(items[i]) == k;
        }
      }
    }
    assert TableOf(items, key).Keys == KeysOf(items, key);
  }

  /** The stored item for a key is the last item with that key. */
  lemma {:induction false} TableOfLastWins<K, T>(items: seq<T>, key: T -> K, i: nat)
    requires i < |items|
    requires forall j :: i < j < |items| ==> key(items[j]) != key(items[i])
    ensures key(items[i]) in TableOf(items, key)
    ensures TableOf(items, key)[key(items[i])] == items[i]
  {
    if i < |items| - 1 {
      var init := items[..|items| - 1];
      TableOfLastWins(init, key, i);
    }
  }

  /** Every stored item is one of the items, under its own key. */
  lemma {:induction false} TableOfMember<K, T>(items: seq<T>, key: T -> K, k: K)
    requires k in TableOf(items, key)
    ensures TableOf(items, key)[k] in items && key(TableOf(items, key)[k]) == k
  {
    var init := items[..|items| - 1];
    if k != key(items[|items| - 1]) {
      TableOfMember(init, key, k);
    }
  }
}
