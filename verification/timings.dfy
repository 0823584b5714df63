/** The baseline of a set of raw timestamps: the smallest value that is not
    exactly 0. A raw value of 0 marks an event whose timestamp the browser
    could not obtain; negative values are not filtered and do count. */
module Timings {
  import opened Wrappers

  /** The nonzero timestamps of the events in `keys`. */
  function GoodValuesOn(timings: map<string, int>, keys: set<string>): set<int> {
    set k | k in keys && k in timings && timings[k] != 0 :: timings[k]
  }

  /** Every nonzero timestamp of the mapping, whatever its event name. */
  function GoodValues(timings: map<string, int>): set<int> {
    GoodValuesOn(timings, timings.Keys)
  }

  /** `m` is the least element of `s`. */
  predicate IsMinimum(m: int, s: set<int>) {
    m in s && forall v :: v in s ==> m <= v
  }

  /** A set of integers is empty or has an element. */
  lemma EmptyOrInhabited(s: set<int>)
    ensures s == {} || exists x :: x in s
  {
    if !(exists x :: x in s) {
      assert s == {};
    }
  }

  /** Every non-empty finite set of integers has a least element. */
  lemma {:induction false} MinimumExists(s: set<int>)
    requires s != {}
    ensures exists m :: IsMinimum(m, s)
    decreases |s|
  {
    EmptyOrInhabited(s);
    var x :| x in s;
    if s != {x} {
      var rest := s - {x};
      assert forall v :: v in s ==> v == x || v in rest;
      MinimumExists(rest);
      var m :| IsMinimum(m, rest);
      if x < m {
        assert IsMinimum(x, s);
      } else {
        assert IsMinimum(m, s);
      }
    } else {
      assert IsMinimum(x, s);
    }
  }

  /** The least element of a non-empty set (Python's `min`). */
  function Minimum(s: set<int>): (m: int)
    requires s != {}
    ensures IsMinimum(m, s)
  {
    MinimumExists(s);
    var m :| IsMinimum(m, s);
    m
  }

  /** The baseline of a timing mapping, or `None` when every value is 0 (or
      there are no values), where Python's `min` has nothing to choose from. */
  function Baseline(timings: map<string, int>): (b: Option<int>)
    ensures b.None? <==> forall k :: k in timings ==> timings[k] == 0
    ensures b.Some? ==> b.value != 0 && exists k :: k in timings && timings[k] == b.value
    ensures b.Some? ==> forall k :: k in timings && timings[k] != 0 ==> b.value <= timings[k]
  {
    var good := GoodValues(timings);
    assert forall k :: k in timings && timings[k] != 0 ==> timings[k] in good;
    if good == {} then None else Some(Minimum(good))
  }

  /** Computes the baseline with a single pass over the mapping's keys. */
  method ComputeBaseline(timings: map<string, int>) returns (b: Option<int>)
    ensures b == Baseline(timings)
  {
    b := None;
    var rest := timings.Keys;
    while rest != {}
      invariant rest <= timings.Keys
      invariant b.None? ==> GoodValuesOn(timings, timings.Keys - rest) == {}
      invariant b.Some? ==> IsMinimum(b.value, GoodValuesOn(timings, timings.Keys - rest))
      decreases rest
    {
      var k :| k in rest;
      var v := timings[k];
      ghost var before := GoodValuesOn(timings, timings.Keys - rest);
      if v != 0 && (b.None? || v < b.value) {
        b := Some(v);
      }
      rest := rest - {k};
      assert GoodValuesOn(timings, timings.Keys - rest)
          == before + (if v != 0 then {v} else {});
    }
    assert timings.Keys - rest == timings.Keys;
  }
}
