/** The part of std::map the map stream uses. */
module OrderedMap {
  import opened Options

  /** map::lower_bound: the first key not before `x`. */
  method LowerBound<V>(m: map<nat, V>, x: nat) returns (r: Option<nat>)
    ensures r == None ==> forall k :: k in m ==> k < x
    ensures r.Some? ==> r.value in m && r.value >= x && forall k :: k in m && k >= x ==> k >= r.value
  {
    r := None;
    var todo := m.Keys;
    while todo != {}
      invariant todo <= m.Keys
      invariant r.Some? ==> r.value in m && r.value >= x
      invariant forall k :: k in m && k !in todo && k >= x ==> r.Some? && k >= r.value
      decreases |todo|
    {
      var k :| k in todo;
      if k >= x && (r == None || k < r.value) {
        r := Some(k);
      }
      todo := todo - {k};
    }
  }

  /** The last key before `x`: where stepping an iterator back from `x`, or from the end, lands. */
  method Before<V>(m: map<nat, V>, x: Option<nat>) returns (r: nat)
    requires exists k :: k in m && (x == None || k < x.value)
    ensures r in m && (x == None || r < x.value)
    ensures forall k :: k in m && (x == None || k < x.value) ==> k <= r
  {
    var best: Option<nat> := None;
    var todo := m.Keys;
    while todo != {}
      invariant todo <= m.Keys
      invariant best.Some? ==> best.value in m && (x == None || best.value < x.value)
      invariant forall k :: k in m && k !in todo && (x == None || k < x.value) ==> best.Some? && k <= best.value
      decreases |todo|
    {
      var k :| k in todo;
      if (x == None || k < x.value) && (best == None || k > best.value) {
        best := Some(k);
      }
      todo := todo - {k};
    }
    r := best.value;
  }
}
