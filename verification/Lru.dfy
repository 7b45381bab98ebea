/** The least-recently-used cache (src/utils/Cache.h): a list of items, front first, and a map from
    each key to its own list node. */
module Lru {
  import opened Options

  /** A list node: what a list iterator of the source points to. */
  class Entry<K, V> {
    const key: K
    const value: V

    constructor (key: K, value: V)
      ensures this.key == key && this.value == value
    {
      this.key, this.value := key, value;
    }
  }

  ghost function Keys<K, V>(s: seq<Entry<K, V>>): (ks: seq<K>)
    ensures |ks| == |s| && forall i :: 0 <= i < |s| ==> ks[i] == s[i].key
  {
    if s == [] then [] else [s[0].key] + Keys(s[1..])
  }

  /** list::erase: drop one node. */
  function Erase<K, V>(s: seq<Entry<K, V>>, n: Entry<K, V>): seq<Entry<K, V>> {
    if s == [] then [] else if s[0] == n then s[1..] else [s[0]] + Erase(s[1..], n)
  }

  // ---------- recency of keys ----------

  ghost predicate Distinct<K>(s: seq<K>) {
    forall i, j :: 0 <= i < j < |s| ==> s[i] != s[j]
  }

  ghost function Without<K>(s: seq<K>, k: K): seq<K> {
    if s == [] then [] else if s[0] == k then Without(s[1..], k) else [s[0]] + Without(s[1..], k)
  }

  /** The key order after `k` has been used. */
  ghost function Touch<K>(s: seq<K>, k: K): seq<K> {
    [k] + Without(s, k)
  }

  ghost function Trim<K>(s: seq<K>, n: nat): seq<K> {
    if |s| <= n then s else s[..n]
  }

  lemma {:induction false} DistinctTail<K>(s: seq<K>)
    requires Distinct(s) && s != []
    ensures Distinct(s[1..]) && s[0] !in s[1..]
  {
  }

  lemma {:induction false} WithoutFacts<K>(s: seq<K>, k: K)
    requires Distinct(s)
    ensures Distinct(Without(s, k)) && Distinct(Touch(s, k))
    ensures forall x :: x in Without(s, k) <==> x in s && x != k
    ensures |Without(s, k)| == |s| - if k in s then 1 else 0
    ensures k !in s ==> Without(s, k) == s
  {
    if s != [] {
      WithoutFacts(s[1..], k);
      assert s == [s[0]] + s[1..] && s[0] !in s[1..];
    }
  }

  // ---------- list and map together ----------

  /** The map the list calls for: each key to its own node. */
  ghost function IndexOf<K, V>(s: seq<Entry<K, V>>): map<K, Entry<K, V>> {
    if s == [] then map[] else IndexOf(s[1..])[s[0].key := s[0]]
  }

  /** Distinct keys, every value is what the loader gives, and the map points each key to its node. */
  ghost predicate Sound<K, V>(spec: K -> V, items: seq<Entry<K, V>>, index: map<K, Entry<K, V>>) {
    && Distinct(Keys(items))
    && (forall i :: 0 <= i < |items| ==> items[i].value == spec(items[i].key))
    && index == IndexOf(items)
  }

  lemma {:induction false} IndexKeys<K, V>(s: seq<Entry<K, V>>)
    ensures forall k :: k in IndexOf(s) <==> k in Keys(s)
  {
    if s != [] {
      IndexKeys(s[1..]);
    }
  }

  lemma {:induction false} IndexNode<K, V>(s: seq<Entry<K, V>>, k: K)
    requires k in Keys(s)
    ensures k in IndexOf(s) && IndexOf(s)[k] in s && IndexOf(s)[k].key == k
  {
    if s[0].key != k {
      IndexNode(s[1..], k);
    }
  }

  lemma UpdateMinus<K, N>(m: map<K, N>, a: K, v: N, k: K)
    ensures a != k ==> m[a := v] - {k} == (m - {k})[a := v]
    ensures a == k && k !in m ==> m[a := v] - {k} == m
    ensures a == k ==> (m - {k})[a := v] == m[a := v]
  {
  }

  lemma {:induction false} KeyOf<K, V>(s: seq<Entry<K, V>>, n: Entry<K, V>)
    requires n in s
    ensures n.key in Keys(s)
  {
    var i :| 0 <= i < |s| && s[i] == n;
    assert Keys(s)[i] == n.key;
  }

  lemma {:induction false} EraseNode<K, V>(s: seq<Entry<K, V>>, n: Entry<K, V>)
    requires Distinct(Keys(s)) && n in s
    ensures Keys(Erase(s, n)) == Without(Keys(s), n.key)
    ensures IndexOf(Erase(s, n)) == IndexOf(s) - {n.key}
  {
    var ks := Keys(s);
    assert ks[0] == s[0].key && ks[1..] == Keys(s[1..]);
    DistinctTail(ks);
    hide Distinct;
    IndexKeys(s[1..]);
    UpdateMinus(IndexOf(s[1..]), s[0].key, s[0], n.key);
    if s[0] == n {
      WithoutFacts(ks[1..], n.key);
    } else {
      KeyOf(s[1..], n);
      EraseNode(s[1..], n);
    }
  }

  lemma {:induction false} EraseValues<K, V>(spec: K -> V, s: seq<Entry<K, V>>, n: Entry<K, V>)
    requires forall i :: 0 <= i < |s| ==> s[i].value == spec(s[i].key)
    ensures forall i :: 0 <= i < |Erase(s, n)| ==> Erase(s, n)[i].value == spec(Erase(s, n)[i].key)
  {
    if s != [] && s[0] != n {
      EraseValues(spec, s[1..], n);
    }
  }

  lemma {:induction false} ButLast<K, V>(s: seq<Entry<K, V>>)
    requires Distinct(Keys(s)) && s != []
    ensures var n := |s| - 1; Keys(s[..n]) == Keys(s)[..n] && IndexOf(s[..n]) == IndexOf(s) - {s[n].key}
  {
    hide Erase, Without, Touch, Trim, Sound;
    var n := |s| - 1;
    if n > 0 {
      assert s[..n][1..] == s[1..][..n - 1] && Keys(s)[1..] == Keys(s[1..]);
      ButLast(s[1..]);
      assert s[1..][n - 1] == s[n] && Keys(s)[0] != Keys(s)[n];
      UpdateMinus(IndexOf(s[1..]), s[0].key, s[0], s[n].key);
    } else {
      assert s[..0] == [] && s == [s[0]];
    }
  }

  lemma {:induction false} DistinctSize<K, V>(s: seq<Entry<K, V>>)
    requires Distinct(Keys(s))
    ensures |IndexOf(s)| == |s|
  {
    if s != [] {
      assert Keys(s)[1..] == Keys(s[1..]);
      DistinctSize(s[1..]);
      IndexKeys(s[1..]);
      assert s[0].key !in Keys(s[1..]);
    }
  }

  /** A node put before a list that lacks its key. */
  lemma {:induction false} FrontSound<K, V>(spec: K -> V, node: Entry<K, V>, rest: seq<Entry<K, V>>)
    requires Distinct(Keys(rest)) && node.key !in Keys(rest) && node.value == spec(node.key)
    requires forall i :: 0 <= i < |rest| ==> rest[i].value == spec(rest[i].key)
    ensures Sound(spec, [node] + rest, IndexOf(rest)[node.key := node])
    ensures Keys([node] + rest) == [node.key] + Keys(rest)
  {
    var all := [node] + rest;
    assert all[1..] == rest;
    assert forall i :: 0 <= i < |all| ==> all[i] == if i == 0 then node else rest[i - 1];
  }

  /** Replacing the node of `key`, or adding one, at the front of a sound list. */
  lemma {:induction false} Fronted<K, V>(spec: K -> V, items: seq<Entry<K, V>>, node: Entry<K, V>)
    requires Sound(spec, items, IndexOf(items)) && node.value == spec(node.key)
    ensures var names := IndexOf(items);
            var rest := if node.key in names then Erase(items, names[node.key]) else items;
            Sound(spec, [node] + rest, names[node.key := node]) && Keys([node] + rest) == Touch(Keys(items), node.key)
  {
    var names, key := IndexOf(items), node.key;
    IndexKeys(items);
    WithoutFacts(Keys(items), key);
    if key in names {
      IndexNode(items, key);
      EraseNode(items, names[key]);
      EraseValues(spec, items, names[key]);
      FrontSound(spec, node, Erase(items, names[key]));
      UpdateMinus(names, key, node, key);
    } else {
      FrontSound(spec, node, items);
    }
  }

  /** The state changes of the cache, on values. */
  lemma {:induction false} Members<K, V>(spec: K -> V, items: seq<Entry<K, V>>, index: map<K, Entry<K, V>>)
    requires Sound(spec, items, index)
    ensures forall k :: k in index <==> k in Keys(items)
    ensures |index| == |items|
  {
    IndexKeys(items);
    DistinctSize(items);
  }

  lemma {:induction false} FindStep<K, V>(spec: K -> V, items: seq<Entry<K, V>>, index: map<K, Entry<K, V>>, key: K)
    requires Sound(spec, items, index) && key in index
    ensures var it := index[key];
            && it.key == key && it.value == spec(key)
            && Sound(spec, [it] + Erase(items, it), index) && Keys([it] + Erase(items, it)) == Touch(Keys(items), key)
            && |Erase(items, it)| == |items| - 1
  {
    IndexKeys(items);
    IndexNode(items, key);
    var it := index[key];
    var i :| 0 <= i < |items| && items[i] == it;
    Fronted(spec, items, it);
    UpdateSame(index, key);
    EraseLength(items, it);
  }

  lemma UpdateSame<K, N>(m: map<K, N>, k: K)
    requires k in m
    ensures m[k := m[k]] == m
  {
  }

  lemma {:induction false} EraseLength<K, V>(s: seq<Entry<K, V>>, n: Entry<K, V>)
    requires n in s
    ensures |Erase(s, n)| == |s| - 1
  {
    if s[0] != n {
      EraseLength(s[1..], n);
    }
  }

  lemma {:induction false} PutStep<K, V>(spec: K -> V, items: seq<Entry<K, V>>, index: map<K, Entry<K, V>>, node: Entry<K, V>)
    requires Sound(spec, items, index) && node !in items && node.value == spec(node.key)
    ensures var pushed := [node] + items;
            var all := if node.key in index then Erase(pushed, index[node.key]) else pushed;
            var names := if node.key in index then (index - {node.key})[node.key := node] else index[node.key := node];
            Sound(spec, all, names) && Keys(all) == Touch(Keys(items), node.key) && |all| <= |items| + 1
  {
    Fronted(spec, items, node);
    IndexKeys(items);
    if node.key in index {
      IndexNode(items, node.key);
      EraseLength(items, index[node.key]);
      UpdateMinus(index, node.key, node, node.key);
      assert ([node] + items)[1..] == items;
    }
  }

  class Cache<K(==,!new), V> {
    const maxSize: nat
    /** What the loader gives for each key. */
    ghost const spec: K -> V
    var items: seq<Entry<K, V>>
    var index: map<K, Entry<K, V>>

    ghost predicate Valid()
      reads this
    {
      Consistent() && |items| <= maxSize
    }

    ghost predicate Consistent()
      reads this
    {
      Sound(spec, items, index)
    }

    constructor (maxSize: nat, ghost spec: K -> V)
      ensures Valid() && items == [] && this.maxSize == maxSize && this.spec == spec
    {
      this.maxSize, this.spec := maxSize, spec;
      items, index := [], map[];
    }

    /** get on a key that is held: its node moves to the front. */
    method Find(key: K) returns (r: Option<V>)
      requires Valid()
      modifies this
      ensures Valid()
      ensures if key in old(Keys(items)) then r == Some(spec(key)) && Keys(items) == Touch(old(Keys(items)), key)
              else r == None && items == old(items)
    {
      hide Sound, Keys, Touch, IndexOf, Erase;
      Members(spec, items, index);
      if key !in index {
        return None;
      }
      FindStep(spec, items, index, key);
      var it := index[key];
      items := [it] + Erase(items, it);
      r := Some(it.value);
    }

    /** put: a new node at the front, the old node of the same key gone, the last one evicted
        when there are too many. */
    method Put(key: K, value: V)
      requires Valid() && value == spec(key)
      modifies this
      ensures Valid()
      ensures Keys(items) == Trim(Touch(old(Keys(items)), key), maxSize)
    {
      hide Sound, Touch, IndexOf, Erase;
      PushFront(key, value);
      Members(spec, items, index);
      if |index| > maxSize {
        PopBack();
      }
    }

    method PushFront(key: K, value: V)
      requires Consistent() && value == spec(key)
      modifies this
      ensures Consistent()
      ensures Keys(items) == Touch(old(Keys(items)), key) && |items| <= old(|items|) + 1
    {
      hide Sound, Keys, Touch, IndexOf, Erase;
      var node := new Entry(key, value);
      PutStep(spec, items, index, node);
      items := [node] + items;
      if key in index {
        items := Erase(items, index[key]);
        index := index - {key};
      }
      index := index[key := node];
    }

    method PopBack()
      requires Consistent() && |items| > 0
      modifies this
      ensures Consistent()
      ensures items == old(items[..|items| - 1]) && Keys(items) == old(Keys(items))[..|items|]
    {
      ButLast(items);
      var last := items[|items| - 1];
      index := index - {last.key};
      items := items[..|items| - 1];
    }

    /** get on a missing key, once the loader has returned: store the value and use it.  Between
        the miss and this step the loader may itself have used the cache. */
    method Load(key: K, value: V) returns (r: V)
      requires Valid() && value == spec(key) && maxSize >= 1
      modifies this
      ensures Valid() && r == spec(key)
      ensures Keys(items) == Trim(Touch(old(Keys(items)), key), maxSize)
    {
      Put(key, value);
      ghost var ks := Keys(items);
      assert ks[0] == key;
      var found := Find(key);
      assert Touch(ks, key) == ks by { TouchFirst(ks); }
      r := found.value;
    }

    /** get with a loader that does not touch the cache. */
    method Get(key: K, loader: K -> V) returns (r: V)
      requires Valid() && maxSize >= 1 && loader(key) == spec(key)
      modifies this
      ensures Valid() && r == spec(key)
      ensures Keys(items) == Trim(Touch(old(Keys(items)), key), maxSize)
    {
      ghost var ks := Keys(items);
      var found := Find(key);
      if found.Some? {
        WithoutFacts(ks, key);
        return found.value;
      }
      r := Load(key, loader(key));
    }

    method Exists(key: K) returns (r: bool)
      requires Valid()
      ensures r <==> key in Keys(items)
    {
      IndexKeys(items);
      r := key in index;
    }

    method Invalidate()
      requires Valid()
      modifies this
      ensures Valid() && items == []
    {
      items, index := [], map[];
    }
  }

  lemma {:induction false} TouchFirst<K>(s: seq<K>)
    requires Distinct(s) && s != []
    ensures Touch(s, s[0]) == s
  {
    WithoutFacts(s[1..], s[0]);
    assert s == [s[0]] + s[1..] && s[0] !in s[1..];
  }
}
