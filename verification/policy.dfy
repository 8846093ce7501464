/** Resolution of the purge policy of one incremental aggregation: defaults per
    granularity, overridden by an optional `purge` annotation whose `enable`,
    `interval` and first `retention` sub-annotation are read once at setup. */
module Policy {
  import opened Wrappers
  import opened Text
  import opened Durations

  /** Purging runs every 15 minutes unless the annotation says otherwise. */
  const DefaultIntervalMs: int := 15 * MinuteMs

  /** The retention a granularity gets when nothing overrides it. */
  function DefaultRetention(g: Granularity): (r: Retention)
    ensures r == RetainAll <==> g == Months || g == Years
    ensures r.Keep? ==> 0 < r.ms
  {
    match g
    case Seconds => Keep(30 * SecondMs)
    case Minutes => Keep(24 * HourMs)
    case Hours => Keep(30 * DayMs)
    case Days => Keep(5 * YearMs)
    case Months => RetainAll
    case Years => RetainAll
  }

  /** The default policy: one entry for each aggregated granularity. */
  function Defaults(aggregated: set<Granularity>): map<Granularity, Retention>
  {
    map g | g in aggregated :: DefaultRetention(g)
  }

  /** One `granularity = value` element of a retention sub-annotation; the key
      is already normalised to a granularity. */
  datatype Element = Element(key: Granularity, value: string)

  /** A `retention` sub-annotation of the purge annotation. */
  datatype RetentionAnnotation = RetentionAnnotation(elements: seq<Element>)

  /** The `purge` annotation: optional `enable` and `interval` elements and the
      list of `retention` sub-annotations (possibly empty). */
  datatype PurgeAnnotation = PurgeAnnotation(
    enable: Option<string>,
    interval: Option<string>,
    retentions: seq<RetentionAnnotation>)

  /** Errors that make the aggregation fail at creation time. */
  datatype SetupError =
    | UndefinedEnable(value: string)          // `enable` is neither true nor false
    | NotAggregated(granularity: Granularity) // retention for a granularity with no table

  /** The resolved purge configuration, immutable after setup. */
  datatype PurgeTask = PurgeTask(enabled: bool, intervalMs: int, retention: map<Granularity, Retention>)
  {
    predicate IsPurgingEnabled()
    {
      enabled
    }
  }

  /** An `enable` literal the purger accepts. */
  predicate IsBooleanLiteral(s: string)
  {
    EqualsIgnoreCase(s, "true") || EqualsIgnoreCase(s, "false")
  }

  /** The retention one element asks for: `all` in any case keeps everything,
      any other value is a duration literal turned into milliseconds by
      `timeToLong`. */
  function ElementRetention(value: string, timeToLong: string -> int): (r: Retention)
    ensures Encode(r) == if EqualsIgnoreCase(value, "all") then RetainAllSentinel else timeToLong(value)
    ensures Purgeable(r) <==> !EqualsIgnoreCase(value, "all") && timeToLong(value) != RetainAllSentinel
  {
    if EqualsIgnoreCase(value, "all") then RetainAll else Keep(timeToLong(value))
  }

  /** The granularities named by a list of elements. */
  function Keys(elements: seq<Element>): set<Granularity>
  {
    set i | 0 <= i < |elements| :: elements[i].key
  }

  /** The value of the last element naming `g`, if any. */
  function LastFor(elements: seq<Element>, g: Granularity): Option<string>
  {
    if |elements| == 0 then None
    else if elements[|elements| - 1].key == g then Some(elements[|elements| - 1].value)
    else LastFor(elements[..|elements| - 1], g)
  }

  /** Applies retention elements in order to the policy `m`; the first element
      naming a granularity that is not aggregated aborts with an error naming it. */
  function ApplyRetention(aggregated: set<Granularity>, m: map<Granularity, Retention>,
                          elements: seq<Element>, timeToLong: string -> int)
    : (r: Result<map<Granularity, Retention>, SetupError>)
    ensures r.Success? <==> forall i :: 0 <= i < |elements| ==> elements[i].key in aggregated
    ensures r.Success? ==> r.value.Keys == m.Keys + Keys(elements)
    ensures r.Failure? ==>
      exists i :: 0 <= i < |elements| && elements[i].key !in aggregated
        && r.error == NotAggregated(elements[i].key)
        && forall j :: 0 <= j < i ==> elements[j].key in aggregated
    decreases |elements|
  {
    if |elements| == 0 then Success(m)
    else
      var e := elements[0];
      if e.key !in aggregated then Failure(NotAggregated(e.key))
      else
        var r := ApplyRetention(aggregated, m[e.key := ElementRetention(e.value, timeToLong)],
                                elements[1..], timeToLong);
        assert Keys(elements) == {e.key} + Keys(elements[1..]) by {
          forall g | g in Keys(elements) ensures g in {e.key} + Keys(elements[1..]) {
            var i :| 0 <= i < |elements| && elements[i].key == g;
            if i > 0 { assert elements[1..][i - 1].key == g; }
          }
        }
        assert r.Failure? ==>
          exists i :: 0 <= i < |elements| && elements[i].key !in aggregated
            && r.error == NotAggregated(elements[i].key)
            && forall j :: 0 <= j < i ==> elements[j].key in aggregated by {
          if r.Failure? {
            var i :| 0 <= i < |elements[1..]| && elements[1..][i].key !in aggregated
              && r.error == NotAggregated(elements[1..][i].key)
              && forall j :: 0 <= j < i ==> elements[1..][j].key in aggregated;
            assert elements[i + 1].key !in aggregated;
            forall j | 0 <= j < i + 1 ensures elements[j].key in aggregated {
              if j > 0 { assert elements[1..][j - 1].key in aggregated; }
            }
          }
        }
        r
  }

  /** Policy resolution at aggregation setup.  `aggregated` is the set of
      granularities that have a table, `purge` the optional purge annotation,
      `timeToLong` the duration-literal parser. */
  function Init(aggregated: set<Granularity>, purge: Option<PurgeAnnotation>, timeToLong: string -> int)
    : (r: Result<PurgeTask, SetupError>)
    ensures r.Success? ==> r.value.retention.Keys == aggregated
    ensures purge.Some? && purge.value.enable.Some? && !IsBooleanLiteral(purge.value.enable.value)
      <==> r.Failure? && r.error.UndefinedEnable?
    ensures r.Failure? && r.error.UndefinedEnable? ==> r.error.value == purge.value.enable.value
    ensures r.Success? ==>
      (r.value.IsPurgingEnabled()
       <==> purge.None? || purge.value.enable.None? || EqualsIgnoreCase(purge.value.enable.value, "true"))
    ensures r.Success? && !r.value.enabled ==>
      r.value.intervalMs == DefaultIntervalMs && r.value.retention == Defaults(aggregated)
  {
    var defaults := Defaults(aggregated);
    match purge
    case None => Success(PurgeTask(true, DefaultIntervalMs, defaults))
    case Some(p) =>
      if p.enable.Some? && !IsBooleanLiteral(p.enable.value) then
        Failure(UndefinedEnable(p.enable.value))
      else
        var enabled := p.enable.None? || EqualsIgnoreCase(p.enable.value, "true");
        if !enabled then Success(PurgeTask(false, DefaultIntervalMs, defaults))
        else
          var interval := if p.interval.Some? then timeToLong(p.interval.value) else DefaultIntervalMs;
          if |p.retentions| == 0 then Success(PurgeTask(true, interval, defaults))
          else
            match ApplyRetention(aggregated, defaults, p.retentions[0].elements, timeToLong)
            case Success(m) => Success(PurgeTask(true, interval, m))
            case Failure(e) => Failure(e)
  }

  /** The annotation with no elements at all. */
  const EmptyPurge: PurgeAnnotation := PurgeAnnotation(None, None, [])

  /** With no purge annotation, or an empty one, purging is enabled every 15
      minutes and every aggregated granularity keeps its default retention. */
  lemma DefaultsStand(aggregated: set<Granularity>, purge: Option<PurgeAnnotation>, timeToLong: string -> int)
    requires purge == None || purge == Some(EmptyPurge)
    ensures Init(aggregated, purge, timeToLong).Success?
    ensures Init(aggregated, purge, timeToLong).value.IsPurgingEnabled()
    ensures Init(aggregated, purge, timeToLong).value.intervalMs == 900_000
    ensures var m := Init(aggregated, purge, timeToLong).value.retention;
      && m.Keys == aggregated
      && (Seconds in aggregated ==> m[Seconds] == Keep(30_000))
      && (Minutes in aggregated ==> m[Minutes] == Keep(86_400_000))
      && (Hours in aggregated ==> m[Hours] == Keep(2_592_000_000))
      && (Days in aggregated ==> m[Days] == Keep(157_680_000_000))
      && (Months in aggregated ==> m[Months] == RetainAll)
      && (Years in aggregated ==> m[Years] == RetainAll)
  {
  }

  /** Concrete `enable` literals: upper-case TRUE and lower-case false are
      accepted, maybe is rejected. */
  lemma EnableLiterals(aggregated: set<Granularity>, timeToLong: string -> int)
    ensures Init(aggregated, Some(PurgeAnnotation(Some("TRUE"), None, [])), timeToLong)
      == Success(PurgeTask(true, DefaultIntervalMs, Defaults(aggregated)))
    ensures Init(aggregated, Some(PurgeAnnotation(Some("false"), None, [])), timeToLong)
      == Success(PurgeTask(false, DefaultIntervalMs, Defaults(aggregated)))
    ensures Init(aggregated, Some(PurgeAnnotation(Some("maybe"), None, [])), timeToLong)
      == Failure(UndefinedEnable("maybe"))
  {
    assert EqualsIgnoreCase("TRUE", "true") by {
      assert ToLower('T') == 't' && ToLower('R') == 'r' && ToLower('U') == 'u' && ToLower('E') == 'e';
    }
    assert EqualsIgnoreCase("false", "false");
    assert !EqualsIgnoreCase("maybe", "false") by {
      assert ToLower("maybe"[0]) != ToLower("false"[0]);
    }
  }

  /** Switching purging off makes the rest of the annotation inert: neither the
      interval nor any retention element is read, so none can fail. */
  lemma DisabledIsInert(aggregated: set<Granularity>, p: PurgeAnnotation, timeToLong: string -> int)
    requires p.enable.Some? && EqualsIgnoreCase(p.enable.value, "false")
    ensures Init(aggregated, Some(p), timeToLong)
      == Success(PurgeTask(false, DefaultIntervalMs, Defaults(aggregated)))
  {
  }

  /** Later elements overwrite earlier ones: after a successful pass the value
      for each granularity is the one of the last element naming it, or the
      starting value if no element names it. */
  lemma {:induction false} RetentionOverride(aggregated: set<Granularity>, m: map<Granularity, Retention>,
                                             elements: seq<Element>, timeToLong: string -> int)
    requires ApplyRetention(aggregated, m, elements, timeToLong).Success?
    ensures var r := ApplyRetention(aggregated, m, elements, timeToLong).value;
      forall g :: g in r ==>
        match LastFor(elements, g)
        case Some(v) => r[g] == ElementRetention(v, timeToLong)
        case None => g in m && r[g] == m[g]
    decreases |elements|
  {
    if |elements| > 0 {
      var e := elements[0];
      var m' := m[e.key := ElementRetention(e.value, timeToLong)];
      RetentionOverride(aggregated, m', elements[1..], timeToLong);
      var r := ApplyRetention(aggregated, m, elements, timeToLong).value;
      assert r == ApplyRetention(aggregated, m', elements[1..], timeToLong).value;
      forall g | g in r
        ensures match LastFor(elements, g)
          case Some(v) => r[g] == ElementRetention(v, timeToLong)
          case None => g in m && r[g] == m[g]
      {
        LastForCons(elements, g);
      }
    }
  }

  /** Looking for the last element from the back agrees with looking in the
      tail first and falling back on the head. */
  lemma {:induction false} LastForCons(elements: seq<Element>, g: Granularity)
    requires |elements| > 0
    ensures LastFor(elements, g) ==
      if LastFor(elements[1..], g).Some? then LastFor(elements[1..], g)
      else if elements[0].key == g then Some(elements[0].value)
      else None
    decreases |elements|
  {
    var n := |elements|;
    if n == 1 {
      assert elements[1..] == [];
    } else if elements[n - 1].key == g {
      assert elements[1..][n - 2] == elements[n - 1];
    } else {
      var init := elements[..n - 1];
      LastForCons(init, g);
      assert init[1..] == elements[1..][..n - 2];
      assert elements[1..][n - 2] == elements[n - 1];
    }
  }

  /** When purging is on, the interval element replaces the default period and
      the retention of every aggregated granularity is the last value the
      first retention sub-annotation gives it, or its default. */
  lemma EnabledOverrides(aggregated: set<Granularity>, p: PurgeAnnotation, timeToLong: string -> int)
    requires Init(aggregated, Some(p), timeToLong).Success?
    requires Init(aggregated, Some(p), timeToLong).value.enabled
    ensures var t := Init(aggregated, Some(p), timeToLong).value;
      && t.intervalMs == (if p.interval.Some? then timeToLong(p.interval.value) else DefaultIntervalMs)
      && forall g :: g in aggregated ==>
           t.retention[g] ==
             if |p.retentions| == 0 || LastFor(p.retentions[0].elements, g).None? then DefaultRetention(g)
             else ElementRetention(LastFor(p.retentions[0].elements, g).value, timeToLong)
  {
    if |p.retentions| > 0 {
      RetentionOverride(aggregated, Defaults(aggregated), p.retentions[0].elements, timeToLong);
    }
  }

  /** A retention element for a granularity that has no table fails setup,
      naming the first such granularity; no other element fails that way. */
  lemma UnknownGranularityRejected(aggregated: set<Granularity>, p: PurgeAnnotation, timeToLong: string -> int,
                                   g: Granularity)
    requires p.enable.None? || EqualsIgnoreCase(p.enable.value, "true")
    ensures Init(aggregated, Some(p), timeToLong) == Failure(NotAggregated(g))
      <==> |p.retentions| > 0 &&
           exists i :: 0 <= i < |p.retentions[0].elements| && p.retentions[0].elements[i].key == g
             && g !in aggregated
             && forall j :: 0 <= j < i ==> p.retentions[0].elements[j].key in aggregated
  {
  }

  /** Only the first retention sub-annotation is consulted. */
  lemma OnlyFirstRetentionConsulted(aggregated: set<Granularity>, p: PurgeAnnotation, timeToLong: string -> int)
    requires |p.retentions| > 0
    ensures Init(aggregated, Some(p), timeToLong)
      == Init(aggregated, Some(p.(retentions := p.retentions[..1])), timeToLong)
  {
  }

  /** A concrete configuration: seconds and hours are aggregated, purging is
      enabled with a one-minute interval and hours kept for seven days. */
  lemma OneMinuteSevenDays(timeToLong: string -> int)
    requires timeToLong("1 min") == 60_000 && timeToLong("7 d") == 604_800_000
    ensures Init({Seconds, Hours},
                 Some(PurgeAnnotation(Some("true"), Some("1 min"),
                                      [RetentionAnnotation([Element(Hours, "7 d")])])),
                 timeToLong)
      == Success(PurgeTask(true, 60_000, map[Seconds := Keep(30_000), Hours := Keep(604_800_000)]))
  {
    var es := [Element(Hours, "7 d")];
    assert ToLower("7 d"[0]) != ToLower("all"[0]);
    assert ElementRetention("7 d", timeToLong) == Keep(604_800_000);
    assert IsBooleanLiteral("true") by {
      assert EqualsIgnoreCase("true", "true");
    }
    var defaults := Defaults({Seconds, Hours});
    assert defaults == map[Seconds := Keep(30_000), Hours := Keep(2_592_000_000)];
    assert es[1..] == [];
    assert ApplyRetention({Seconds, Hours}, defaults, es, timeToLong)
      == Success(defaults[Hours := Keep(604_800_000)]);
    assert defaults[Hours := Keep(604_800_000)]
      == map[Seconds := Keep(30_000), Hours := Keep(604_800_000)];
  }
}
