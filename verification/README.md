# Page load timer — normalisation of navigation timings

`PageLoadTimer.get_event_times` asks a browser for its
`window.performance.timing` object. That object maps the navigation events
of section 4.2 of the W3C Navigation Timing recommendation to wall-clock
timestamps in milliseconds. The timer reports seventeen of the interface's
attributes. The other four (`unloadEventStart`, `unloadEventEnd`,
`redirectStart`, `redirectEnd`) are never reported, but they still take
part in the baseline like any other key. The method turns the mapping
into a sequence of elapsed times:

- The **baseline** is the least of all values that are not 0. A value of 0
  means the browser could not record that event.
- The **projection** walks the 17 event names in the recommendation's order.
- For every name the mapping holds, it emits `(name, raw - baseline)`. The
  result is stored in the timer's `times` field and returned.

The model takes the mapping the browser returns as a `map<string, int>`.
It computes the output as a `Result<seq<(string, int)>, TimingError>`:

| file | module | contents |
|---|---|---|
| `wrappers.dfy` | `Wrappers` | `Option` and `Result` |
| `navigation_timing.dfy` | `NavigationTiming` | the 17 event names in canonical order, rank (`IndexOf`), strictly ranked sequences and their uniqueness |
| `timings.dfy` | `Timings` | the baseline: least nonzero value of the mapping, as a function and as a one-pass method |
| `page_load_timer.dfy` | `PageLoad` | the generator (`Project`), `EventTimes`, its declarative description (`IsNormalization`), the error condition, the bound and sign properties, the one-pass methods and the `PageLoadTimer` class |
| `scenarios.dfy` | `Scenarios` | small concrete mappings and their outputs |

`Project` mirrors the Python generator expression of line 59. `min` sits
inside that generator, so the baseline is only asked for once a canonical
name is found in the mapping. The error therefore depends on that name
being present. `TimingError.EmptyBaseline` stands for the `ValueError` that
`min` raises on an empty list.

The declarative partner of `EventTimes` is `IsNormalization(timings, b, out)`.
It holds when all of the following do:

- the names of `out` are exactly the canonical names present in `timings`;
- those names are listed in strictly increasing canonical rank;
- every entry carries its raw value minus `b`.

`EventTimesSound` and `EventTimesComplete` prove that the call's output is
the one sequence meeting this description, with the baseline as `b`.

### Where the code differs from a prose reading of it

The model follows the code:

- **Negative values.** Line 46 keeps every value `!= 0`, not only positive
  ones. A negative value, canonical or not, can therefore become the
  baseline (`Scenarios.NegativeValueSetsBaseline`).
- **When the call fails.** It does not fail whenever every value is 0. It
  fails exactly when every value is 0 *and* some canonical name is present.
  With no canonical name present, the result is empty and nothing is
  raised, even for an all-zero or empty mapping (`PageLoad.EventTimesFails`,
  `Scenarios.AllZeroWithoutCanonicalSucceeds`).
- **Zero-valued events.** An event whose value is 0 is emitted, with
  elapsed time `0 - baseline`, which is negative for a positive baseline.
  Elapsed times are not non-negative in general. They are non-negative for
  events that carry a real timestamp, when no value is negative
  (`PageLoad.EventTimesNonNegative`).

## Model

| member | source | states |
|---|---|---|
| Timings.Baseline | pageloadtimer.py:46 | There is no baseline exactly when every value of the mapping is 0. Otherwise the baseline is a nonzero value of the mapping, no greater than any nonzero value; non-canonical keys and negative values take part. |
| Timings.Minimum | pageloadtimer.py:59 | `min` of a non-empty collection of values is a member of it and no greater than any member. |
| Timings.ComputeBaseline | pageloadtimer.py:46 | One pass over the keys computes the same baseline, or its absence. |
| NavigationTiming.StrictlyRankedUnique | pageloadtimer.py:51-59 | Two sequences listed in strictly increasing rank of the same order, with the same members, are equal; so the fixed order alone fixes the output order. |
| PageLoad.EventTimesSound | pageloadtimer.py:46-60 | When some value is nonzero, the call succeeds. Its names are exactly the canonical names present in the mapping, in canonical order, with non-canonical keys dropped. Each value is that event's raw value minus the least nonzero value of the whole mapping. |
| PageLoad.NormalizationUnique | pageloadtimer.py:51-60 | At most one sequence meets that description for a given mapping and baseline. |
| PageLoad.EventTimesComplete | pageloadtimer.py:51-60 | Any sequence meeting the description is exactly what the call returns. |
| PageLoad.ProjectSuffixOutcome | pageloadtimer.py:59 | The generator over any stretch of the order fails exactly when a name of that stretch is present and there is no baseline. When no name of the stretch is present, it yields nothing. |
| PageLoad.EventTimesFails | pageloadtimer.py:46-59 | The call raises exactly when some canonical event is present and every value of the mapping is 0. |
| PageLoad.EventTimesNoCanonical | pageloadtimer.py:59 | With no canonical event in the mapping, the result is empty and nothing is raised. |
| PageLoad.EventTimesSize | pageloadtimer.py:51-60 | A successful output has distinct names. Its length is at most 17 and at most the number of keys of the mapping. |
| PageLoad.EventTimesNonNegative | pageloadtimer.py:37-59 | When no value is negative, every emitted event with a nonzero raw value has elapsed time at least 0. An event whose raw value equals the baseline has elapsed time 0. |
| PageLoad.NormalizesReports | pageloadtimer.py:59 | Every present event of the order appears in a described output, paired with its raw value minus the baseline. |
| PageLoad.ZeroEventsReported | pageloadtimer.py:44-59 | A canonical event with raw value 0 is left out of the baseline but still emitted, as `0 - baseline`. |
| PageLoad.ComputeProjection | pageloadtimer.py:59 | One pass over the names, computing the baseline once, gives the generator's result, including its error. |
| PageLoad.ComputeEventTimes | pageloadtimer.py:35-61 | The one-pass computation over the canonical order gives the call's result. |
| PageLoad.PageLoadTimer.GetEventTimes | pageloadtimer.py:59-61 | Returns the call's result. After a successful call, `times` holds exactly the returned sequence. After a failed one, `times` is unchanged. |
| Scenarios.UnrecordedEventStillReported | pageloadtimer.py:44-59 | For navigationStart 1000, fetchStart 1000, domainLookupStart 1050, responseEnd 1200, loadEventEnd 0: the baseline is 1000, the call succeeds, and loadEventEnd is reported at -1000. |
| Scenarios.UnrelatedKeyDropped | pageloadtimer.py:59 | A non-canonical key does not appear in the output. |
| Scenarios.UnrelatedKeySetsBaseline | pageloadtimer.py:46 | A non-canonical key with the least nonzero value sets the baseline. |
| Scenarios.NegativeValueSetsBaseline | pageloadtimer.py:46 | A negative value becomes the baseline: navigationStart 10 with another key at -5 yields 15. |
| Scenarios.AllZeroWithCanonicalFails | pageloadtimer.py:46-59 | An all-zero mapping that holds navigationStart raises. |
| Scenarios.AllZeroWithoutCanonicalSucceeds | pageloadtimer.py:59 | An all-zero mapping without canonical names, and the empty mapping, yield an empty result. |

## Left out

- The browser driver, `inject_timing_js` and the embedded JavaScript
  (pageloadtimer.py:25-33) are a call into a browser. The mapping that call
  returns is the parameter of `EventTimes`. The constructor's `driver` and
  `jscript` fields are therefore not modelled.
- `plot` and `plot_all` (pageloadtimer.py:63-87) render charts with Plotly
  and write HTML files.
- The `__main__` loop (pageloadtimer.py:90-108) drives browser sessions,
  makes network requests, prints, and tags each result with a `'name'` key
  after normalisation.
- Timestamps are unbounded integers. Python integers are unbounded. The
  model does not represent the JavaScript numbers the browser produces
  before they reach Python.
- The result's `OrderedDict` is modelled as a sequence of pairs. Its keys
  are unique because its names are distinct (`PageLoad.EventTimesSize`).
- `PageLoad.ComputeProjection` computes the baseline once, before its
  loop. `Project`, like the source, asks for the baseline at every present
  name. The ensures of `ComputeProjection` proves that the two agree,
  error included.
- `PageLoad.PageLoadTimer.GetEventTimes`: the source returns the very
  `OrderedDict` object it stores in `times` (pageloadtimer.py:60-61). A
  caller that changes the returned object therefore changes `times` too;
  the `__main__` loop does so when it adds the `'name'` key
  (pageloadtimer.py:103). The model returns a value, so this aliasing is
  not modelled.
- Determinism in the input mapping holds by construction. `EventTimes` is a
  function of the mapping, and `GetEventTimes` returns its value. No
  separate lemma states it.
- Scenarios.UnrecordedEventStillReported: states the baseline, success and
  the entry for `loadEventEnd`, not the whole five-entry output. The full
  output follows from `PageLoad.EventTimesSound` with baseline 1000.
