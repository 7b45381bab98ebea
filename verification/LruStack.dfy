/** What a cache of a given capacity holds after any sequence of requests (src/utils/Cache.h). */
module LruStack {
  import opened Lru

  /** The requested keys, most recently used first. */
  ghost function Recent<K>(reqs: seq<K>): seq<K> {
    if reqs == [] then [] else Touch(Recent(reqs[..|reqs| - 1]), reqs[|reqs| - 1])
  }

  /** The keys a cache of capacity `n` holds after the requests: each request is one `Get`. */
  ghost function Held<K>(reqs: seq<K>, n: nat): seq<K> {
    if reqs == [] then [] else Trim(Touch(Held(reqs[..|reqs| - 1], n), reqs[|reqs| - 1]), n)
  }

  /** When `k` was last requested; -1 if never. */
  ghost function LastUse<K>(reqs: seq<K>, k: K): int {
    if reqs == [] then -1 else if reqs[|reqs| - 1] == k then |reqs| - 1 else LastUse(reqs[..|reqs| - 1], k)
  }

  /** Later use first. */
  ghost predicate ByUse<K>(reqs: seq<K>, s: seq<K>) {
    forall i, j :: 0 <= i < j < |s| ==> LastUse(reqs, s[i]) > LastUse(reqs, s[j])
  }

  lemma {:induction false} LastUseFacts<K>(reqs: seq<K>, k: K)
    ensures -1 <= LastUse(reqs, k) < |reqs|
    ensures LastUse(reqs, k) >= 0 <==> k in reqs
  {
    if reqs != [] {
      var n := |reqs| - 1;
      assert reqs == reqs[..n] + [reqs[n]];
      LastUseFacts(reqs[..n], k);
    }
  }

  lemma {:induction false} WithoutByUse<K>(reqs: seq<K>, s: seq<K>, k: K)
    requires ByUse(reqs, s)
    ensures forall x :: x in Without(s, k) ==> x in s && x != k
    ensures ByUse(reqs, Without(s, k))
  {
    if s != [] {
      WithoutByUse(reqs, s[1..], k);
      var w, v := Without(s, k), Without(s[1..], k);
      forall i, j | 0 <= i < j < |w| ensures LastUse(reqs, w[i]) > LastUse(reqs, w[j]) {
        if s[0] != k {
          assert w[j] == v[j - 1] && v[j - 1] in s[1..];
          if i > 0 {
            assert w[i] == v[i - 1];
          }
        }
      }
    }
  }

  lemma {:induction false} ByUseDistinct<K>(reqs: seq<K>, s: seq<K>)
    requires ByUse(reqs, s)
    ensures Distinct(s)
  {
  }

  /** `Recent` is the recency order: its keys are the requested ones, each once, later use first. */
  lemma {:induction false} RecentIsMostRecentFirst<K>(reqs: seq<K>)
    ensures ByUse(reqs, Recent(reqs)) && Distinct(Recent(reqs))
    ensures forall k :: k in Recent(reqs) <==> k in reqs
  {
    if reqs != [] {
      var n := |reqs| - 1;
      var before, k := reqs[..n], reqs[n];
      RecentIsMostRecentFirst(before);
      RecentStep(before, k, Recent(before));
      assert reqs == before + [k];
      ByUseDistinct(reqs, Recent(reqs));
    }
  }

  lemma {:induction false} RecentStep<K>(before: seq<K>, k: K, s: seq<K>)
    requires ByUse(before, s) && Distinct(s) && forall x :: x in s <==> x in before
    ensures ByUse(before + [k], Touch(s, k)) && forall x :: x in Touch(s, k) <==> x in before + [k]
  {
    var reqs := before + [k];
    WithoutFacts(s, k);
    WithoutByUse(before, s, k);
    assert reqs[..|before|] == before;
    var w := Without(s, k);
    forall j | 0 <= j < |w| ensures LastUse(reqs, w[j]) == LastUse(before, w[j]) < |before| {
      assert w[j] in w;
      LastUseFacts(before, w[j]);
    }
    hide Without;
    assert LastUse(reqs, k) == |before|;
    var t := Touch(s, k);
    forall i, j | 0 <= i < j < |t| ensures LastUse(reqs, t[i]) > LastUse(reqs, t[j]) {
      assert t[j] == w[j - 1] && (i > 0 ==> t[i] == w[i - 1]);
    }
  }

  /** Evicting before or after the next use makes no difference. */
  lemma TrimTouch<K>(s: seq<K>, k: K, n: nat)
    requires Distinct(s) && n >= 1
    ensures Trim(Touch(Trim(s, n), k), n) == Trim(Touch(s, k), n)
  {
    if |s| > n {
      WithoutPrefix(s, k, n);
      WithoutFacts(s[..n], k);
    }
  }

  lemma {:induction false} WithoutPrefix<K>(s: seq<K>, k: K, n: nat)
    requires n <= |s|
    ensures Without(s[..n], k) <= Without(s, k)
  {
    if n > 0 {
      assert s[..n][1..] == s[1..][..n - 1];
      WithoutPrefix(s[1..], k, n - 1);
    }
  }

  /** With capacity n the cache holds exactly the n most recently used keys, in order. */
  lemma {:induction false} HeldIsMostRecent<K>(reqs: seq<K>, n: nat)
    requires n >= 1
    ensures Held(reqs, n) == Trim(Recent(reqs), n)
  {
    if reqs != [] {
      var before := reqs[..|reqs| - 1];
      HeldIsMostRecent(before, n);
      RecentIsMostRecentFirst(before);
      TrimTouch(Recent(before), reqs[|reqs| - 1], n);
    }
  }

  /** A larger cache holds everything a smaller one does, so it hits whenever the smaller one does. */
  lemma LargerCacheHits<K>(reqs: seq<K>, n: nat, m: nat, k: K)
    requires 1 <= n <= m
    ensures Held(reqs, n) <= Held(reqs, m)
    ensures k in Held(reqs, n) ==> k in Held(reqs, m)
  {
    HeldIsMostRecent(reqs, n);
    HeldIsMostRecent(reqs, m);
  }

  lemma NoKeys<K, V>()
    ensures Keys<K, V>([]) == []
  {
  }

  /** Any run of requests through one cache: every answer is the loader's, and at the end the cache
      holds the most recently used keys. */
  method Serve<K(==,!new), V(0)>(maxSize: nat, loader: K -> V, reqs: seq<K>) returns (values: seq<V>, ghost held: seq<K>)
    requires maxSize >= 1
    ensures |values| == |reqs| && forall i :: 0 <= i < |reqs| ==> values[i] == loader(reqs[i])
    ensures held == Trim(Recent(reqs), maxSize)
  {
    hide Sound, Touch, Trim, Recent, Keys;
    assert Keys<K, V>([]) == [] by { NoKeys<K, V>(); }
    var c := new Cache(maxSize, loader);
    values := [];
    for n := 0 to |reqs|
      invariant c.Valid() && c.maxSize == maxSize && c.spec == loader && fresh(c)
      invariant Keys(c.items) == Held(reqs[..n], maxSize)
      invariant |values| == n && forall i :: 0 <= i < n ==> values[i] == loader(reqs[i])
    {
      var v := c.Get(reqs[n], loader);
      values := values + [v];
      assert reqs[..n + 1][..n] == reqs[..n];
    }
    assert reqs[..|reqs|] == reqs;
    HeldIsMostRecent(reqs, maxSize);
    held := Keys(c.items);
  }
}
