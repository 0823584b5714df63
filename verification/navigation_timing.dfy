/** Seventeen of the attribute names of the `PerformanceTiming` interface
    (section 4.2 of the W3C Navigation Timing recommendation), in the order
    in which the page load timer reports them, and facts about sequences
    listed in the order of a fixed sequence of names. */
module NavigationTiming {

  /** Seventeen of the interface's attributes, in the recommendation's
      order. The interface also has `unloadEventStart`, `unloadEventEnd`,
      `redirectStart` and `redirectEnd`; those are not in this order, so
      they are never reported, but as keys of the mapping they still take
      part in the baseline. */
  const OrderedEvents: seq<string> := [
    "navigationStart", "fetchStart", "domainLookupStart",
    "domainLookupEnd", "connectStart", "connectEnd",
    "secureConnectionStart", "requestStart",
    "responseStart", "responseEnd", "domLoading",
    "domInteractive", "domContentLoadedEventStart",
    "domContentLoadedEventEnd", "domComplete",
    "loadEventStart", "loadEventEnd"
  ]

  /** No element of `s` occurs twice. */
  predicate Distinct<T(==)>(s: seq<T>) {
    forall i, j :: 0 <= i < j < |s| ==> s[i] != s[j]
  }

  /** The canonical order names seventeen different events. */
  lemma OrderedEventsDistinct()
    ensures |OrderedEvents| == 17
    ensures Distinct(OrderedEvents)
  {
  }

  /** The position of the first occurrence of `x` in `s`; for the canonical
      order, the rank of an event. */
  function IndexOf<T(==)>(s: seq<T>, x: T): (i: nat)
    requires x in s
    ensures i < |s| && s[i] == x
    ensures forall j :: 0 <= j < i ==> s[j] != x
  {
    if s[0] == x then 0 else 1 + IndexOf(s[1..], x)
  }

  /** In a sequence without repetitions, the i-th element sits at position i. */
  lemma IndexOfDistinct<T>(s: seq<T>, i: nat)
    requires Distinct(s) && i < |s|
    ensures IndexOf(s, s[i]) == i
  {
  }

  /** `names` lists members of `order`, each strictly after the previous one
      in `order`. */
  predicate StrictlyRanked<T(==)>(order: seq<T>, names: seq<T>) {
    && (forall i :: 0 <= i < |names| ==> names[i] in order)
    && (forall i, j :: 0 <= i < j < |names| ==> IndexOf(order, names[i]) < IndexOf(order, names[j]))
  }

  /** A strictly ranked sequence has no repetitions. */
  lemma StrictlyRankedDistinct<T>(order: seq<T>, names: seq<T>)
    requires StrictlyRanked(order, names)
    ensures Distinct(names)
  {
  }

  /** A member of `order` ranked before every element of a strictly ranked
      sequence can go in front of it. */
  lemma StrictlyRankedCons<T>(order: seq<T>, x: T, names: seq<T>)
    requires StrictlyRanked(order, names) && x in order
    requires forall y :: y in names ==> IndexOf(order, x) < IndexOf(order, y)
    ensures StrictlyRanked(order, [x] + names)
  {
    var s := [x] + names;
    forall i, j | 0 <= i < j < |s|
      ensures IndexOf(order, s[i]) < IndexOf(order, s[j])
    {
      assert s[j] == names[j - 1];
      if i > 0 {
        assert s[i] == names[i - 1];
      }
    }
  }

  /** Removing the head of a strictly ranked sequence removes exactly that
      one element. */
  lemma TailMembers<T>(order: seq<T>, names: seq<T>, n: T)
    requires StrictlyRanked(order, names) && names != []
    ensures n in names[1..] <==> n in names && n != names[0]
  {
    if n in names[1..] {
      var k :| 1 <= k < |names| && names[k] == n;
      assert IndexOf(order, names[0]) < IndexOf(order, names[k]);
    }
    if n in names && n != names[0] {
      var k :| 0 <= k < |names| && names[k] == n;
      assert names[1..][k - 1] == n;
    }
  }

  /** The head of a strictly ranked sequence is its lowest-ranked member. */
  lemma HeadLeast<T>(order: seq<T>, names: seq<T>, n: T)
    requires StrictlyRanked(order, names) && n in names
    ensures IndexOf(order, names[0]) <= IndexOf(order, n)
  {
    var k :| 0 <= k < |names| && names[k] == n;
    if k > 0 {
      assert IndexOf(order, names[0]) < IndexOf(order, names[k]);
    }
  }

  /** A non-empty sequence contains its head. */
  lemma HeadMember<T>(s: seq<T>)
    ensures |s| > 0 ==> s[0] in s
  {
  }

  /** Two strictly ranked sequences with the same members are equal: the
      order leaves no freedom in how a set of its elements is listed. */
  lemma {:induction false} StrictlyRankedUnique<T>(order: seq<T>, a: seq<T>, c: seq<T>)
    requires StrictlyRanked(order, a) && StrictlyRanked(order, c)
    requires forall n :: n in a <==> n in c
    ensures a == c
    decreases |a|
  {
    if a != [] {
      assert a[0] in c;
      HeadLeast(order, c, a[0]);
      HeadLeast(order, a, c[0]);
      assert a[0] == order[IndexOf(order, a[0])] == c[0];
      forall n
        ensures n in a[1..] <==> n in c[1..]
      {
        TailMembers(order, a, n);
        TailMembers(order, c, n);
      }
      StrictlyRankedUnique(order, a[1..], c[1..]);
      assert a == [a[0]] + a[1..];
      assert c == [c[0]] + c[1..];
    } else {
      HeadMember(c);
      assert |c| == 0;
    }
  }

  /** The members of a sequence, as a set. */
  function Members<T>(s: seq<T>): set<T> {
    set x | x in s
  }

  /** A sequence without repetitions has as many members as elements. */
  lemma {:induction false} DistinctMembers<T>(s: seq<T>)
    requires Distinct(s)
    ensures |Members(s)| == |s|
  {
    if s != [] {
      DistinctMembers(s[1..]);
      assert Members(s) == Members(s[1..]) + {s[0]};
      assert s[0] !in Members(s[1..]);
    }
  }

  /** A sequence without repetitions whose elements all lie in `k` is no
      longer than `k` is large. */
  lemma DistinctWithin<T>(s: seq<T>, k: set<T>)
    requires Distinct(s)
    requires forall i :: 0 <= i < |s| ==> s[i] in k
    ensures |s| <= |k|
  {
    DistinctMembers(s);
    assert k == Members(s) + (k - Members(s));
    assert Members(s) !! (k - Members(s));
  }
}
