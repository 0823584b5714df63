/** Concrete runs of the normalisation, one per behaviour worth seeing on a
    small input. */
module Scenarios {
  import opened Wrappers
  import opened NavigationTiming
  import opened Timings
  import opened PageLoad

  /** Two events share the earliest timestamp; `loadEventEnd` was not
      recorded (0), stays out of the baseline and is still reported, at
      0 - 1000. */
  lemma UnrecordedEventStillReported()
    ensures var t := map["navigationStart" := 1000, "fetchStart" := 1000,
                         "domainLookupStart" := 1050, "responseEnd" := 1200,
                         "loadEventEnd" := 0];
      && Baseline(t) == Some(1000)
      && EventTimes(t).Success?
      && ("loadEventEnd", -1000) in EventTimes(t).value
  {
    var t := map["navigationStart" := 1000, "fetchStart" := 1000,
                 "domainLookupStart" := 1050, "responseEnd" := 1200,
                 "loadEventEnd" := 0];
    assert t["navigationStart"] == 1000;
    assert Baseline(t) == Some(1000);
    ZeroEventsReported(t);
    assert "loadEventEnd" in OrderedEvents;
  }

  /** A key outside the canonical order is dropped from the output. */
  lemma UnrelatedKeyDropped()
    ensures EventTimes(map["unrelatedField" := 500, "navigationStart" := 200])
         == Success([("navigationStart", 0)])
  {
    var t := map["unrelatedField" := 500, "navigationStart" := 200];
    var out := [("navigationStart", 0)];
    assert t["navigationStart"] == 200;
    assert Baseline(t) == Some(200);
    assert Names(out) == ["navigationStart"];
    assert NamesPresent(OrderedEvents, t, out);
    assert StrictlyRanked(OrderedEvents, Names(out));
    assert OffsetBy(t, Baseline(t).value, out);
    EventTimesComplete(t, out);
  }

  /** A key outside the canonical order still takes part in the baseline. */
  lemma UnrelatedKeySetsBaseline()
    ensures EventTimes(map["unrelatedField" := 100, "navigationStart" := 200])
         == Success([("navigationStart", 100)])
  {
    var t := map["unrelatedField" := 100, "navigationStart" := 200];
    var out := [("navigationStart", 100)];
    assert t["unrelatedField"] == 100;
    assert Baseline(t) == Some(100);
    assert Names(out) == ["navigationStart"];
    assert NamesPresent(OrderedEvents, t, out);
    assert StrictlyRanked(OrderedEvents, Names(out));
    assert OffsetBy(t, Baseline(t).value, out);
    EventTimesComplete(t, out);
  }

  /** Only 0 is filtered: a negative value becomes the baseline. */
  lemma NegativeValueSetsBaseline()
    ensures EventTimes(map["navigationStart" := 10, "unrelatedField" := -5])
         == Success([("navigationStart", 15)])
  {
    var t := map["navigationStart" := 10, "unrelatedField" := -5];
    var out := [("navigationStart", 15)];
    assert t["unrelatedField"] == -5;
    assert Baseline(t) == Some(-5);
    assert Names(out) == ["navigationStart"];
    assert NamesPresent(OrderedEvents, t, out);
    assert StrictlyRanked(OrderedEvents, Names(out));
    assert OffsetBy(t, Baseline(t).value, out);
    EventTimesComplete(t, out);
  }

  /** A canonical event is present and every value is 0: `min` raises. */
  lemma AllZeroWithCanonicalFails()
    ensures EventTimes(map["navigationStart" := 0, "unrelatedField" := 0]) == Failure(EmptyBaseline)
  {
    var t := map["navigationStart" := 0, "unrelatedField" := 0];
    assert Baseline(t) == None;
  }

  /** No canonical event is present: nothing is reported and nothing raises,
      although every value is 0. */
  lemma AllZeroWithoutCanonicalSucceeds()
    ensures EventTimes(map["unrelatedField" := 0]) == Success([])
    ensures EventTimes(map[]) == Success([])
  {
    EventTimesNoCanonical(map["unrelatedField" := 0]);
    EventTimesNoCanonical(map[]);
  }
}
