/** Loaders that use the cache they load for, as its recursive lock allows (src/utils/Cache.h). */
module LruNested {
  import opened Lru
  import opened LruStack
  import opened Options

  /** A request, and the requests its loader makes of the same cache if the key is missing. */
  datatype Request<K> = Request(key: K, inner: seq<Request<K>>)

  /** The keys held after using some more. */
  ghost function HeldFrom<K>(ks: seq<K>, uses: seq<K>, n: nat): seq<K> {
    if uses == [] then ks else Trim(Touch(HeldFrom(ks, uses[..|uses| - 1], n), uses[|uses| - 1]), n)
  }

  /** The keys a request uses, in order, when `ks` are held: a hit uses its key only, a miss first what
      its loader asks for. */
  ghost function UsesOf<K>(ks: seq<K>, q: Request<K>, n: nat): seq<K>
    decreases q, |q.inner| + 1
  {
    if q.key in ks then [q.key] else UsesFrom(ks, q, 0, n) + [q.key]
  }

  ghost function UsesFrom<K>(ks: seq<K>, q: Request<K>, i: nat, n: nat): seq<K>
    requires i <= |q.inner|
    decreases q, |q.inner| - i
  {
    if i == |q.inner| then []
    else
      var u := UsesOf(ks, q.inner[i], n);
      u + UsesFrom(HeldFrom(ks, u, n), q, i + 1, n)
  }

  /** The uses of several requests one after another. */
  ghost function UsesOfAll<K>(ks: seq<K>, qs: seq<Request<K>>, n: nat): seq<K> {
    if qs == [] then []
    else
      var before := UsesOfAll(ks, qs[..|qs| - 1], n);
      before + UsesOf(HeldFrom(ks, before, n), qs[|qs| - 1], n)
  }

  lemma {:induction false} HeldAppend<K>(ks: seq<K>, a: seq<K>, b: seq<K>, n: nat)
    ensures HeldFrom(ks, a + b, n) == HeldFrom(HeldFrom(ks, a, n), b, n)
    decreases |b|
  {
    if b == [] {
      assert a + b == a;
    } else {
      assert (a + b)[..|a + b| - 1] == a + b[..|b| - 1];
      HeldAppend(ks, a, b[..|b| - 1], n);
    }
  }

  lemma {:induction false} HeldFromNothing<K>(uses: seq<K>, n: nat)
    ensures HeldFrom([], uses, n) == Held(uses, n)
  {
    if uses != [] {
      HeldFromNothing(uses[..|uses| - 1], n);
    }
  }

  lemma OneUse<K>(ks: seq<K>, k: K, n: nat)
    ensures HeldFrom(ks, [k], n) == Trim(Touch(ks, k), n)
  {
    assert [k][..0] == [];
  }

  lemma HitFits<K>(ks: seq<K>, k: K, n: nat)
    requires Distinct(ks) && k in ks && |ks| <= n
    ensures Trim(Touch(ks, k), n) == Touch(ks, k)
  {
    WithoutFacts(ks, k);
  }

  lemma KeysFacts<K(!new), V>(c: Cache<K, V>)
    requires c.Valid()
    ensures Distinct(Keys(c.items)) && |Keys(c.items)| <= c.maxSize
  {
  }

  /** get, with a loader that first makes its own requests of the cache. */
  method Ask<K(==,!new), V>(c: Cache<K, V>, q: Request<K>, loader: K -> V) returns (r: V)
    requires c.Valid() && c.maxSize >= 1 && forall k :: loader(k) == c.spec(k)
    modifies c
    ensures c.Valid() && r == c.spec(q.key)
    ensures Keys(c.items) == HeldFrom(old(Keys(c.items)), UsesOf(old(Keys(c.items)), q, c.maxSize), c.maxSize)
    decreases q
  {
    hide Sound, Keys, Touch, Trim, HeldFrom, Distinct;
    ghost var ks, n := Keys(c.items), c.maxSize;
    KeysFacts(c);
    OneUse(ks, q.key, n);
    var found := c.Find(q.key);
    if found.Some? {
      HitFits(ks, q.key, n);
      return found.value;
    }
    ghost var uses, u := UsesFrom(ks, q, 0, n), [];
    StartUses(ks, uses, n);
    for i := 0 to |q.inner|
      invariant c.Valid() && Keys(c.items) == HeldFrom(ks, u, n) && uses == u + UsesFrom(Keys(c.items), q, i, n)
    {
      ghost var before := Keys(c.items);
      ghost var more := UsesOf(before, q.inner[i], n);
      var _ := Ask(c, q.inner[i], loader);
      HeldAppend(ks, u, more, n);
      assert u + (more + UsesFrom(Keys(c.items), q, i + 1, n)) == u + more + UsesFrom(Keys(c.items), q, i + 1, n);
      u := u + more;
    }
    assert u + [] == u;
    HeldAppend(ks, u, [q.key], n);
    OneUse(Keys(c.items), q.key, n);
    r := c.Load(q.key, loader(q.key));
  }

  lemma StartUses<K>(ks: seq<K>, uses: seq<K>, n: nat)
    ensures HeldFrom(ks, [], n) == ks && [] + uses == uses
  {
  }

  /** Any run of such requests through one cache: every answer is the loader's, and at the end the cache
      holds the most recently used keys of all that were used, by whoever. */
  method ServeNested<K(==,!new), V(0)>(maxSize: nat, loader: K -> V, qs: seq<Request<K>>) returns (values: seq<V>, ghost held: seq<K>)
    requires maxSize >= 1
    ensures |values| == |qs| && forall i :: 0 <= i < |qs| ==> values[i] == loader(qs[i].key)
    ensures held == Trim(Recent(UsesOfAll([], qs, maxSize)), maxSize)
  {
    hide Sound, Keys, Touch, Trim, HeldFrom, Recent, UsesOf, Held;
    var c := new Cache(maxSize, loader);
    NoKeys<K, V>();
    values := [];
    StartUses<K>([], [], maxSize);
    for n := 0 to |qs|
      invariant c.Valid() && c.maxSize == maxSize && c.spec == loader && fresh(c)
      invariant Keys(c.items) == HeldFrom([], UsesOfAll([], qs[..n], maxSize), maxSize)
      invariant |values| == n && forall i :: 0 <= i < n ==> values[i] == loader(qs[i].key)
    {
      ghost var before := UsesOfAll([], qs[..n], maxSize);
      assert qs[..n + 1][..n] == qs[..n];
      HeldAppend([], before, UsesOf(HeldFrom([], before, maxSize), qs[n], maxSize), maxSize);
      var v := Ask(c, qs[n], loader);
      values := values + [v];
    }
    assert qs[..|qs|] == qs;
    ghost var uses := UsesOfAll([], qs, maxSize);
    HeldFromNothing(uses, maxSize);
    HeldIsMostRecent(uses, maxSize);
    held := Keys(c.items);
  }
}
