/** The page load timer's normalisation of a browser's raw navigation
    timestamps: the events of the canonical order that the browser reported,
    in that order, each as the time elapsed since the baseline. */
module PageLoad {
  import opened Wrappers
  import opened NavigationTiming
  import opened Timings

  /** An event name and its elapsed time in milliseconds. */
  type EventTime = (string, int)

  /** The error `get_event_times` can raise: `min` of an empty list of
      nonzero values (Python's `ValueError`). */
  datatype TimingError = EmptyBaseline

  /** Puts `prefix` in front of a successful result; passes an error on. */
  function Prepend(prefix: seq<EventTime>, r: Result<seq<EventTime>, TimingError>): Result<seq<EventTime>, TimingError> {
    match r
    case Success(rest) => Success(prefix + rest)
    case Failure(e) => Failure(e)
  }

  /** Prepending twice is prepending the concatenation. */
  lemma PrependTwice(p: seq<EventTime>, q: seq<EventTime>, r: Result<seq<EventTime>, TimingError>)
    ensures Prepend(p, Prepend(q, r)) == Prepend(p + q, r)
  {
    if r.Success? {
      assert p + (q + r.value) == (p + q) + r.value;
    }
  }

  /** The generator over `names`: for each name the mapping holds, its raw
      value minus the baseline. The baseline is only asked for when a name
      is present, so the error arises at the first present name and not
      before. */
  function Project(names: seq<string>, timings: map<string, int>): Result<seq<EventTime>, TimingError> {
    if names == [] then Success([])
    else if names[0] in timings then
      match Baseline(timings)
      case None => Failure(EmptyBaseline)
      case Some(b) => Prepend([(names[0], timings[names[0]] - b)], Project(names[1..], timings))
    else Project(names[1..], timings)
  }

  /** `get_event_times`, once the browser has returned its timing mapping. */
  function EventTimes(timings: map<string, int>): Result<seq<EventTime>, TimingError> {
    Project(OrderedEvents, timings)
  }

  /** The event names of a normalised sequence. */
  function Names(out: seq<EventTime>): (names: seq<string>)
    ensures |names| == |out|
    ensures forall i :: 0 <= i < |out| ==> names[i] == out[i].0
  {
    seq(|out|, i requires 0 <= i < |out| => out[i].0)
  }

  /** Some event of the canonical order is present in the mapping. */
  predicate SomeCanonicalPresent(timings: map<string, int>) {
    exists n :: n in OrderedEvents && n in timings
  }

  /** The names of `out` are exactly the names of `names` the mapping holds. */
  ghost predicate NamesPresent(names: seq<string>, timings: map<string, int>, out: seq<EventTime>) {
    forall n :: n in Names(out) <==> n in names && n in timings
  }

  /** Each entry of `out` carries its event's raw value minus `b`. */
  ghost predicate OffsetBy(timings: map<string, int>, b: int, out: seq<EventTime>) {
    forall i :: 0 <= i < |out| ==> out[i].0 in timings && out[i].1 == timings[out[i].0] - b
  }

  /** Every name of `out` sits at position `k` or later in `order`. */
  ghost predicate RankedFrom(order: seq<string>, k: nat, out: seq<EventTime>) {
    forall i :: 0 <= i < |out| ==> out[i].0 in order && k <= IndexOf(order, out[i].0)
  }

  /** Declarative description of a correct output for baseline `b` and the
      event order `order`: its names are exactly the events of `order`
      present in the mapping, listed in that order, and each carries its raw
      value minus `b`. */
  ghost predicate Normalizes(order: seq<string>, timings: map<string, int>, b: int, out: seq<EventTime>) {
    && NamesPresent(order, timings, out)
    && StrictlyRanked(order, Names(out))
    && OffsetBy(timings, b, out)
  }

  /** The description for the canonical order of the timing events. */
  ghost predicate IsNormalization(timings: map<string, int>, b: int, out: seq<EventTime>) {
    Normalizes(OrderedEvents, timings, b, out)
  }

  /** What the walk over the suffix of `order` from position `k` should
      yield: the present events of that suffix, in the order of `order`,
      each offset by the baseline `b`. */
  ghost predicate SuffixNormalizes(order: seq<string>, k: nat, timings: map<string, int>, b: int, out: seq<EventTime>)
    requires k <= |order|
  {
    && NamesPresent(order[k..], timings, out)
    && StrictlyRanked(order, Names(out))
    && OffsetBy(timings, b, out)
    && RankedFrom(order, k, out)
  }

  /** The members of the suffix from `k` are the k-th name and the members
      of the suffix from `k + 1`. */
  lemma SuffixMembers(order: seq<string>, k: nat, n: string)
    requires k < |order|
    ensures n in order[k..] <==> n == order[k] || n in order[k + 1..]
  {
    assert order[k..] == [order[k]] + order[k + 1..];
  }

  /** The walk over the empty suffix yields nothing. */
  lemma SuffixEnd(order: seq<string>, timings: map<string, int>, b: int)
    ensures SuffixNormalizes(order, |order|, timings, b, [])
  {
    assert Names([]) == [];
  }

  /** A present name at position `k` goes in front of the walk from `k + 1`. */
  lemma SuffixTake(order: seq<string>, k: nat, timings: map<string, int>, b: int, rest: seq<EventTime>)
    requires Distinct(order)
    requires k < |order| && order[k] in timings
    requires SuffixNormalizes(order, k + 1, timings, b, rest)
    ensures SuffixNormalizes(order, k, timings, b, [(order[k], timings[order[k]] - b)] + rest)
  {
    var out := [(order[k], timings[order[k]] - b)] + rest;
    IndexOfDistinct(order, k);
    assert Names(out) == [order[k]] + Names(rest);
    TakeNamesPresent(order, k, timings, b, rest);
    TakeRanked(order, k, rest);
    TakeOffset(timings, b, order[k], rest);
    TakeRankedFrom(order, k, rest);
  }

  /** Taking the present k-th name adds exactly that name. */
  lemma TakeNamesPresent(order: seq<string>, k: nat, timings: map<string, int>, b: int, rest: seq<EventTime>)
    requires k < |order| && order[k] in timings
    requires NamesPresent(order[k + 1..], timings, rest)
    ensures NamesPresent(order[k..], timings, [(order[k], timings[order[k]] - b)] + rest)
  {
    var out := [(order[k], timings[order[k]] - b)] + rest;
    assert Names(out) == [order[k]] + Names(rest);
    forall n
      ensures n in Names(out) <==> n in order[k..] && n in timings
    {
      SuffixMembers(order, k, n);
    }
  }

  /** The k-th name ranks before every name taken from the suffix after it. */
  lemma TakeRanked(order: seq<string>, k: nat, rest: seq<EventTime>)
    requires Distinct(order) && k < |order|
    requires StrictlyRanked(order, Names(rest)) && RankedFrom(order, k + 1, rest)
    ensures forall v :: StrictlyRanked(order, Names([(order[k], v)] + rest))
  {
    IndexOfDistinct(order, k);
    forall y | y in Names(rest)
      ensures k < IndexOf(order, y)
    {
      var i :| 0 <= i < |rest| && Names(rest)[i] == y;
    }
    forall v: int
      ensures StrictlyRanked(order, Names([(order[k], v)] + rest))
    {
      assert Names([(order[k], v)] + rest) == [order[k]] + Names(rest);
      StrictlyRankedCons(order, order[k], Names(rest));
    }
  }

  /** The new head is offset by the same baseline as the rest. */
  lemma TakeOffset(timings: map<string, int>, b: int, name: string, rest: seq<EventTime>)
    requires name in timings
    requires OffsetBy(timings, b, rest)
    ensures OffsetBy(timings, b, [(name, timings[name] - b)] + rest)
  {
    var out := [(name, timings[name] - b)] + rest;
    forall i | 0 < i < |out|
      ensures out[i] == rest[i - 1]
    {
    }
  }

  /** Every name of the walk from `k` sits at position `k` or later. */
  lemma TakeRankedFrom(order: seq<string>, k: nat, rest: seq<EventTime>)
    requires Distinct(order) && k < |order|
    requires RankedFrom(order, k + 1, rest)
    ensures forall v :: RankedFrom(order, k, [(order[k], v)] + rest)
  {
    IndexOfDistinct(order, k);
    forall v: int, i | 0 < i < |[(order[k], v)] + rest|
      ensures ([(order[k], v)] + rest)[i] == rest[i - 1]
    {
    }
  }

  /** An absent name at position `k` leaves the walk from `k + 1` as it is. */
  lemma SuffixSkip(order: seq<string>, k: nat, timings: map<string, int>, b: int, rest: seq<EventTime>)
    requires k < |order| && order[k] !in timings
    requires SuffixNormalizes(order, k + 1, timings, b, rest)
    ensures SuffixNormalizes(order, k, timings, b, rest)
  {
    assert RankedFrom(order, k, rest);
    forall n
      ensures n in Names(rest) <==> n in order[k..] && n in timings
    {
      SuffixMembers(order, k, n);
    }
  }

  /** The walk over the suffix of `order` from position `k`, for a mapping
      with a baseline, succeeds and yields what the suffix should. */
  lemma {:induction false} ProjectSuffixSound(order: seq<string>, timings: map<string, int>, b: int, k: nat)
    requires Distinct(order)
    requires Baseline(timings) == Some(b)
    requires k <= |order|
    ensures Project(order[k..], timings).Success?
    ensures SuffixNormalizes(order, k, timings, b, Project(order[k..], timings).value)
    decreases |order| - k
  {
    if k < |order| {
      var names := order[k..];
      assert names[1..] == order[k + 1..];
      ProjectSuffixSound(order, timings, b, k + 1);
      var rest := Project(names[1..], timings).value;
      if names[0] in timings {
        assert Project(names, timings) == Success([(order[k], timings[order[k]] - b)] + rest);
        SuffixTake(order, k, timings, b, rest);
      } else {
        assert Project(names, timings) == Success(rest);
        SuffixSkip(order, k, timings, b, rest);
      }
    } else {
      assert order[k..] == [];
      SuffixEnd(order, timings, b);
    }
  }

  /** The walk over all of `order`, for a mapping with a baseline, succeeds
      and yields the described output. */
  lemma ProjectSound(order: seq<string>, timings: map<string, int>, b: int)
    requires Distinct(order)
    requires Baseline(timings) == Some(b)
    ensures Project(order, timings).Success?
    ensures Normalizes(order, timings, b, Project(order, timings).value)
  {
    ProjectSuffixSound(order, timings, b, 0);
    assert order[0..] == order;
  }

  /** Soundness: whenever the mapping has a nonzero value, the call succeeds
      and its output meets the declarative description for the baseline,
      the least nonzero value of the whole mapping. */
  lemma EventTimesSound(timings: map<string, int>)
    requires exists k :: k in timings && timings[k] != 0
    ensures Baseline(timings).Some?
    ensures EventTimes(timings).Success?
    ensures IsNormalization(timings, Baseline(timings).value, EventTimes(timings).value)
  {
    OrderedEventsDistinct();
    ProjectSound(OrderedEvents, timings, Baseline(timings).value);
  }

  /** The declarative description admits one output only. */
  lemma NormalizationUnique(order: seq<string>, timings: map<string, int>, b: int, out1: seq<EventTime>, out2: seq<EventTime>)
    requires Normalizes(order, timings, b, out1)
    requires Normalizes(order, timings, b, out2)
    ensures out1 == out2
  {
    StrictlyRankedUnique(order, Names(out1), Names(out2));
    assert |out1| == |out2|;
    forall i | 0 <= i < |out1|
      ensures out1[i] == out2[i]
    {
      assert out1[i].0 == Names(out1)[i] == Names(out2)[i] == out2[i].0;
    }
  }

  /** Completeness: any sequence meeting the declarative description for the
      baseline is exactly what the call returns. */
  lemma EventTimesComplete(timings: map<string, int>, out: seq<EventTime>)
    requires Baseline(timings).Some?
    requires IsNormalization(timings, Baseline(timings).value, out)
    ensures EventTimes(timings) == Success(out)
  {
    EventTimesSound(timings);
    NormalizationUnique(OrderedEvents, timings, Baseline(timings).value, out, EventTimes(timings).value);
  }

  /** The walk over the suffix of `order` from position `k` fails exactly
      when some name of that suffix is present and the mapping has no
      nonzero value; with no name of the suffix present it yields nothing. */
  lemma {:induction false} ProjectSuffixOutcome(order: seq<string>, timings: map<string, int>, k: nat)
    requires k <= |order|
    ensures Project(order[k..], timings).Failure?
        <==> (exists j :: k <= j < |order| && order[j] in timings) && Baseline(timings).None?
    ensures (forall j :: k <= j < |order| ==> order[j] !in timings)
        ==> Project(order[k..], timings) == Success([])
    decreases |order| - k
  {
    if k < |order| {
      var names := order[k..];
      assert names[1..] == order[k + 1..];
      ProjectSuffixOutcome(order, timings, k + 1);
    }
  }

  /** The error condition: the call raises exactly when some canonical event
      is present and every value of the mapping is 0. */
  lemma EventTimesFails(timings: map<string, int>)
    ensures EventTimes(timings).Failure?
        <==> SomeCanonicalPresent(timings) && forall k :: k in timings ==> timings[k] == 0
  {
    ProjectSuffixOutcome(OrderedEvents, timings, 0);
    assert OrderedEvents[0..] == OrderedEvents;
    if SomeCanonicalPresent(timings) {
      var n :| n in OrderedEvents && n in timings;
      assert OrderedEvents[IndexOf(OrderedEvents, n)] in timings;
    }
  }

  /** Without any canonical event in the mapping the call returns nothing,
      and does not raise, even when every value is 0. */
  lemma EventTimesNoCanonical(timings: map<string, int>)
    requires !SomeCanonicalPresent(timings)
    ensures EventTimes(timings) == Success([])
  {
    ProjectSuffixOutcome(OrderedEvents, timings, 0);
    assert OrderedEvents[0..] == OrderedEvents;
  }

  /** A successful output names distinct events, at most the seventeen of
      the canonical order and at most as many as the mapping has keys. */
  lemma EventTimesSize(timings: map<string, int>)
    requires EventTimes(timings).Success?
    ensures Distinct(Names(EventTimes(timings).value))
    ensures |EventTimes(timings).value| <= |OrderedEvents| == 17
    ensures |EventTimes(timings).value| <= |timings|
  {
    var out := EventTimes(timings).value;
    OrderedEventsDistinct();
    if Baseline(timings).Some? {
      EventTimesSound(timings);
      StrictlyRankedDistinct(OrderedEvents, Names(out));
      DistinctMembers(OrderedEvents);
      assert forall i :: 0 <= i < |out| ==> Names(out)[i] in Members(OrderedEvents);
      DistinctWithin(Names(out), Members(OrderedEvents));
      assert forall i :: 0 <= i < |out| ==> Names(out)[i] in timings.Keys;
      DistinctWithin(Names(out), timings.Keys);
    } else {
      EventTimesFails(timings);
      EventTimesNoCanonical(timings);
    }
  }

  /** When no raw value is negative, every event with a real timestamp gets
      a non-negative elapsed time, and the events carrying the least
      timestamp get 0. */
  lemma EventTimesNonNegative(timings: map<string, int>)
    requires forall k :: k in timings ==> timings[k] >= 0
    requires EventTimes(timings).Success?
    ensures var out := EventTimes(timings).value;
      forall i :: 0 <= i < |out| && out[i].0 in timings && timings[out[i].0] != 0 ==> out[i].1 >= 0
    ensures var out := EventTimes(timings).value;
      forall i :: 0 <= i < |out| && out[i].0 in timings && Baseline(timings) == Some(timings[out[i].0]) ==> out[i].1 == 0
  {
    if Baseline(timings).Some? {
      EventTimesSound(timings);
    } else {
      EventTimesFails(timings);
      EventTimesNoCanonical(timings);
    }
  }

  /** Every present event of the order appears in a described output, with
      its raw value minus the baseline. */
  lemma NormalizesReports(order: seq<string>, timings: map<string, int>, b: int, out: seq<EventTime>, name: string)
    requires Normalizes(order, timings, b, out)
    requires name in order && name in timings
    ensures (name, timings[name] - b) in out
  {
    assert name in Names(out);
    var i :| 0 <= i < |out| && Names(out)[i] == name;
    assert out[i] == (name, timings[name] - b);
  }

  /** Every event of `order` present in the mapping with raw value 0 appears
      in `out`, as 0 minus the baseline `b`. */
  ghost predicate ZeroEventsShown(order: seq<string>, timings: map<string, int>, b: int, out: seq<EventTime>) {
    forall n :: n in order && n in timings && timings[n] == 0 ==> (n, -b) in out
  }

  /** A described output reports the zero-valued events of its order. */
  lemma ZeroEventsIn(order: seq<string>, timings: map<string, int>, b: int, out: seq<EventTime>)
    requires Normalizes(order, timings, b, out)
    ensures ZeroEventsShown(order, timings, b, out)
  {
    forall n | n in order && n in timings && timings[n] == 0
      ensures (n, -b) in out
    {
      NormalizesReports(order, timings, b, out, n);
    }
  }

  /** A canonical event whose raw value is 0 takes no part in the baseline
      but is still reported, as 0 minus the baseline. */
  lemma ZeroEventsReported(timings: map<string, int>)
    requires exists k :: k in timings && timings[k] != 0
    ensures Baseline(timings).Some? && EventTimes(timings).Success?
    ensures ZeroEventsShown(OrderedEvents, timings, Baseline(timings).value, EventTimes(timings).value)
  {
    EventTimesSound(timings);
    ZeroEventsIn(OrderedEvents, timings, Baseline(timings).value, EventTimes(timings).value);
  }

  /** Runs the generator over `names` in one pass, asking for the baseline
      only when a name is present. */
  method ComputeProjection(names: seq<string>, timings: map<string, int>) returns (r: Result<seq<EventTime>, TimingError>)
    ensures r == Project(names, timings)
  {
    var baseline := ComputeBaseline(timings);
    var out: seq<EventTime> := [];
    var i := 0;
    assert names[0..] == names;
    assert Prepend([], Project(names, timings)) == Project(names, timings) by {
      if Project(names, timings).Success? {
        assert [] + Project(names, timings).value == Project(names, timings).value;
      }
    }
    while i < |names|
      invariant i <= |names|
      invariant Project(names, timings) == Prepend(out, Project(names[i..], timings))
    {
      var name := names[i];
      assert names[i..][1..] == names[i + 1..];
      if name in timings {
        if baseline.None? {
          return Failure(EmptyBaseline);
        }
        var entry := (name, timings[name] - baseline.value);
        PrependTwice(out, [entry], Project(names[i + 1..], timings));
        out := out + [entry];
      }
      i := i + 1;
    }
    assert names[i..] == [];
    assert out + [] == out;
    r := Success(out);
  }

  /** Computes the normalised event times in one pass over the canonical
      order. */
  method ComputeEventTimes(timings: map<string, int>) returns (r: Result<seq<EventTime>, TimingError>)
    ensures r == EventTimes(timings)
  {
    r := ComputeProjection(OrderedEvents, timings);
  }

  /** The timer object. The browser driver it holds in the original is not
      modelled: the timing mapping the driver returns is passed in. */
  class PageLoadTimer {
    /** The last normalised result; `None` until the first successful call. */
    var times: Option<seq<EventTime>>

    constructor ()
      ensures times == None
    {
      times := None;
    }

    /** Normalises the mapping and stores the result in `times`. When the
        computation raises, the assignment never happens. */
    method GetEventTimes(timings: map<string, int>) returns (r: Result<seq<EventTime>, TimingError>)
      modifies this
      ensures r == EventTimes(timings)
      ensures r.Success? ==> times == Some(r.value)
      ensures r.Failure? ==> times == old(times)
    {
      r := ComputeEventTimes(timings);
      if r.Success? {
        times := Some(r.value);
      }
    }
  }
}
