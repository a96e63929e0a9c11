/** Byte strings in order, and sorted lists of them. */
module SortedKeys {
  import opened Common

  type Key = seq<byte>

  predicate Less(a: Key, b: Key) {
    if b == [] then false
    else if a == [] then true
    else a[0] < b[0] || (a[0] == b[0] && Less(a[1..], b[1..]))
  }

  lemma {:induction false} LessTotal(a: Key, b: Key)
    ensures Less(a, b) || a == b || Less(b, a)
    ensures !(Less(a, b) && Less(b, a)) && !Less(a, a)
  {
    if a != [] && b != [] {
      LessTotal(a[1..], b[1..]);
      LessTotal(a[1..], a[1..]);
      assert a == [a[0]] + a[1..] && b == [b[0]] + b[1..];
    } else if a != [] {
      LessTotal(a[1..], a[1..]);
    }
  }

  lemma {:induction false} LessTransitive(a: Key, b: Key, c: Key)
    requires Less(a, b) && Less(b, c)
    ensures Less(a, c)
  {
    if a != [] && a[0] == b[0] == c[0] {
      LessTransitive(a[1..], b[1..], c[1..]);
    }
  }

  predicate Sorted(keys: seq<Key>) {
    forall i, j :: 0 <= i < j < |keys| ==> Less(keys[i], keys[j])
  }

  /** The first position whose key is not below key: sort.SearchStrings. */
  function Search(keys: seq<Key>, key: Key): (i: nat)
    ensures i <= |keys| && (forall j :: 0 <= j < i ==> Less(keys[j], key))
    ensures i < |keys| ==> !Less(keys[i], key)
  {
    if keys == [] || !Less(keys[0], key) then 0 else 1 + Search(keys[1..], key)
  }

  /** The list with key put in its place. */
  function Insert(keys: seq<Key>, key: Key): (r: seq<Key>) {
    var i := Search(keys, key);
    if i >= |keys| then keys + [key]
    else if keys[i] != key then keys[..i] + [key] + keys[i..]
    else keys
  }

  function Remove(keys: seq<Key>, key: Key): (r: seq<Key>) {
    var i := Search(keys, key);
    if i < |keys| && key == keys[i] then keys[..i] + keys[i + 1..] else keys
  }

  lemma Above(keys: seq<Key>, key: Key, j: nat)
    requires Sorted(keys) && Search(keys, key) <= j < |keys|
    ensures keys[j] == key ==> j == Search(keys, key)
    ensures keys[j] != key ==> Less(key, keys[j])
  {
    var i := Search(keys, key);
    LessTotal(keys[i], key);
    LessTotal(keys[j], key);
    if keys[i] != key && i < j {
      LessTransitive(key, keys[i], keys[j]);
    }
  }

  /** Everything before the place of key is below it and everything after is above. */
  lemma Split(keys: seq<Key>, key: Key)
    requires Sorted(keys)
    ensures forall j :: Search(keys, key) <= j < |keys| && (j > Search(keys, key) || keys[j] != key) ==>
              Less(key, keys[j]) && keys[j] != key
    ensures forall j :: 0 <= j < Search(keys, key) ==> keys[j] != key
  {
    var i := Search(keys, key);
    LessTotal(key, key);
    forall j | i <= j < |keys| && (j > i || keys[j] != key)
      ensures Less(key, keys[j]) && keys[j] != key
    {
      Above(keys, key, j);
    }
  }

  lemma InsertSorted(keys: seq<Key>, key: Key)
    requires Sorted(keys)
    ensures Sorted(Insert(keys, key))
    ensures forall k :: k in Insert(keys, key) <==> k in keys || k == key
  {
    hide Less;
    var i := Search(keys, key);
    Split(keys, key);
    if i < |keys| && keys[i] != key {
      Between(keys[..i], key, keys[i..]);
      assert keys == keys[..i] + keys[i..];
    } else if i >= |keys| {
      Between(keys, key, []);
      assert keys + [key] + [] == keys + [key];
    }
  }

  lemma Between(low: seq<Key>, key: Key, high: seq<Key>)
    requires Sorted(low) && Sorted(high)
    requires forall j :: 0 <= j < |low| ==> Less(low[j], key)
    requires forall j :: 0 <= j < |high| ==> Less(key, high[j])
    requires forall i, j :: 0 <= i < |low| && 0 <= j < |high| ==> Less(low[i], high[j])
    ensures Sorted(low + [key] + high)
  {
    hide Less;
  }

  lemma RemoveSorted(keys: seq<Key>, key: Key)
    requires Sorted(keys)
    ensures Sorted(Remove(keys, key))
    ensures forall k :: k in Remove(keys, key) <==> k in keys && k != key
  {
    hide Less;
    var i := Search(keys, key);
    Split(keys, key);
    assert i < |keys| ==> keys == keys[..i] + [keys[i]] + keys[i + 1..];
  }

  /** The keys of a set in order. */
  ghost function InOrder(keys: set<Key>): (list: seq<Key>)
    ensures Sorted(list) && forall k: Key :: k in list <==> k in keys
  {
    if keys == {} then []
    else
      var k :| k in keys;
      InsertSorted(InOrder(keys - {k}), k);
      Insert(InOrder(keys - {k}), k)
  }

  lemma SortedRest(a: seq<Key>)
    requires Sorted(a) && a != []
    ensures Sorted(a[1..]) && a[0] !in a[1..]
    ensures forall k: Key :: k in a ==> k == a[0] || (k in a[1..] && Less(a[0], k))
  {
    hide Less;
    forall i | 1 <= i < |a|
      ensures a[i] != a[0] && Less(a[0], a[i]) && a[i] in a[1..]
    {
      LessTotal(a[0], a[i]);
      assert a[i] == a[1..][i - 1];
    }
  }

  /** There is only one order. */
  lemma {:induction false} SortedUnique(a: seq<Key>, b: seq<Key>)
    requires Sorted(a) && Sorted(b) && forall k: Key :: k in a <==> k in b
    ensures a == b
  {
    hide Sorted, Less;
    if b != [] {
      assert b[0] in b;
    }
    if a != [] {
      assert a[0] in b && b != [] && b[0] in a;
      SortedRest(a);
      SortedRest(b);
      LessTotal(a[0], b[0]);
      assert a == [a[0]] + a[1..] && b == [b[0]] + b[1..];
      SortedUnique(a[1..], b[1..]);
    }
  }
}
