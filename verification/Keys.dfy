/**
  Timer keys and their order.

  A timer is ordered first by the tick at which it is due and then by the
  sequence number it was given when it was scheduled.
 */
module Keys {

  /** `xf_timeout_handle_t`. */
  datatype Key = Key(id: int, timestamp: int)

  /** `xf_timeout_compare`. */
  function Compare(a: Key, b: Key): (r: int)
    ensures r == 0 <==> a == b
    ensures r < 0 <==> a.timestamp < b.timestamp || (a.timestamp == b.timestamp && a.id < b.id)
  {
    if a.timestamp != b.timestamp then (if a.timestamp < b.timestamp then -1 else 1)
    else if a.id != b.id then (if a.id < b.id then -1 else 1)
    else 0
  }

  predicate Less(a: Key, b: Key) {
    Compare(a, b) < 0
  }

  ghost predicate IsLeast(k: Key, ks: set<Key>) {
    k in ks && forall j | j in ks :: j == k || Less(k, j)
  }

  lemma LeastUnique(ks: set<Key>, a: Key, b: Key)
    requires IsLeast(a, ks) && IsLeast(b, ks)
    ensures a == b
  {
  }

  ghost predicate IsGreatest(k: Key, ks: set<Key>) {
    k in ks && forall j | j in ks :: j == k || Less(j, k)
  }

  /** Every non-empty finite set of keys has a least and a greatest element. */
  lemma {:induction false} ExtremesExist(ks: set<Key>)
    requires ks != {}
    ensures exists k :: IsLeast(k, ks)
    ensures exists k :: IsGreatest(k, ks)
    decreases ks
  {
    var k :| k in ks;
    var rest := ks - {k};
    assert ks == rest + {k};
    if rest == {} {
      assert IsLeast(k, ks) && IsGreatest(k, ks);
    } else {
      ExtremesExist(rest);
      var lo :| IsLeast(lo, rest);
      var hi :| IsGreatest(hi, rest);
      assert IsLeast(if Less(lo, k) then lo else k, ks);
      assert IsGreatest(if Less(k, hi) then hi else k, ks);
    }
  }

  ghost function Least(ks: set<Key>): (k: Key)
    requires ks != {}
    ensures IsLeast(k, ks)
  {
    ExtremesExist(ks);
    var k :| IsLeast(k, ks);
    k
  }

  ghost function Greatest(ks: set<Key>): (k: Key)
    requires ks != {}
    ensures IsGreatest(k, ks)
  {
    ExtremesExist(ks);
    var k :| IsGreatest(k, ks);
    k
  }
}
