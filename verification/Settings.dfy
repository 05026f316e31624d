/**
  The memoised settings of the server: what each getter computes from the
  options, the fields that remember it, and what forgets them.
*/
module Settings {
  import opened Wrappers

  /** An option split at its commas: at least one part. */
  datatype Parts = Parts(first: string, others: seq<string>)

  /**
    The library converters. `duration` is the value rounded up to seconds. A
    failed conversion is None, and leaves the target variable as it was.
  */
  datatype Converters = Converters(
    duration: string -> Option<int>,
    integer: string -> Option<int>,
    split: string -> Parts)

  /** The two keywords of the TTL option, or anything else. */
  datatype TtlOption = Off | UsePeriod | Lasting(text: string)

  function ReadTtlOption(text: string): TtlOption {
    if text == "off" then Off else if text == "use-period" then UsePeriod else Lasting(text)
  }

  datatype Options = Options(
    frequency: string,
    period: string,
    ttl: TtlOption,
    settleTime: string,
    low: string,
    medium: string,
    critical: string)

  const MINIMUM_STATISTICS_FREQUENCY := 60
  const DEFAULT_STATISTICS_FREQUENCY := 60
  const MINIMUM_STATISTICS_PERIOD := 3600
  const DEFAULT_STATISTICS_PERIOD := 604800
  const ROUND_STATISTICS_PERIOD := 3600
  const DEFAULT_STATISTICS_TTL := 604800
  const MINIMUM_STATISTICS_TTL := 3600
  const DEFAULT_SETTLE_TIME := 300
  const MINIMUM_SETTLE_TIME := 60

  /** The bounds of one class of error reports. */
  datatype Class = Class(
    defaultPriority: int,
    belowPriority: int,     // what a priority under the minimum becomes
    minimumPriority: int,
    maximumPriority: int,
    abovePriority: int,     // what a priority over the maximum becomes
    defaultSpan: int,
    minimumSpan: int,
    zeroIsDefault: bool)    // a span of zero takes the default instead of the minimum

  const LOW := Class(10, 1, 1, 50, 50, 604800, 86400, true)
  const MEDIUM := Class(50, 10, 10, 90, 90, 259200, 3600, false)
  const CRITICAL := Class(90, 90, 1, 100, 90, 86400, 300, false)

  datatype Report = Report(priority: int, span: int)

  // ----- The value each option stands for -----

  function Max(a: int, b: int): int {
    if a < b then b else a
  }

  /** A duration option: the default when invalid or negative, and never under the minimum. */
  function DurationOf(c: Converters, text: string, default: int, minimum: int): int {
    match c.duration(text)
    case None => Max(minimum, default)
    case Some(seconds) => Max(minimum, if seconds < 0 then default else seconds)
  }

  function FrequencyOf(c: Converters, o: Options): int {
    DurationOf(c, o.frequency, DEFAULT_STATISTICS_FREQUENCY, MINIMUM_STATISTICS_FREQUENCY)
  }

  /** The period asked for, before rounding. */
  function AskedPeriod(c: Converters, o: Options): int {
    DurationOf(c, o.period, DEFAULT_STATISTICS_PERIOD, MINIMUM_STATISTICS_PERIOD)
  }

  function PeriodOf(c: Converters, o: Options): int {
    (AskedPeriod(c, o) + (ROUND_STATISTICS_PERIOD - 1)) / ROUND_STATISTICS_PERIOD * ROUND_STATISTICS_PERIOD
  }

  function TtlOf(c: Converters, o: Options): int {
    match o.ttl
    case Off => 0
    case UsePeriod => PeriodOf(c, o)
    case Lasting(text) => DurationOf(c, text, DEFAULT_STATISTICS_TTL, MINIMUM_STATISTICS_TTL)
  }

  /** An invalid settle time is not replaced: it stays at -1. */
  function SettleTimeOf(c: Converters, o: Options): int {
    match c.duration(o.settleTime)
    case None => -1
    case Some(seconds) => Max(MINIMUM_SETTLE_TIME, if seconds < 0 then DEFAULT_SETTLE_TIME else seconds)
  }

  function PriorityOf(c: Converters, k: Class, text: string): int {
    match c.integer(text)
    case None => k.defaultPriority
    case Some(p) =>
      if p < k.minimumPriority then k.belowPriority
      else if p > k.maximumPriority then k.abovePriority
      else p
  }

  function SpanOf(c: Converters, k: Class, text: string): int {
    match c.duration(text)
    case None => k.defaultSpan
    case Some(s) =>
      if s < 0 || (s == 0 && k.zeroIsDefault) then k.defaultSpan
      else if s < k.minimumSpan then k.minimumSpan
      else s
  }

  /** Parts after the second are ignored. */
  function ReportOf(c: Converters, k: Class, text: string): Report {
    if |text| == 0 then Report(k.defaultPriority, k.defaultSpan)
    else
      var parts := c.split(text);
      Report(
        PriorityOf(c, k, parts.first),
        if |parts.others| == 0 || |parts.others[0]| == 0 then k.defaultSpan else SpanOf(c, k, parts.others[0]))
  }

  predicate TooManyParts(c: Converters, text: string) {
    |text| > 0 && |c.split(text).others| > 1
  }

  /** For the critical class alone, an option with too many parts is not read at all. */
  function CriticalOf(c: Converters, text: string): Report {
    if TooManyParts(c, text) then Report(CRITICAL.defaultPriority, CRITICAL.defaultSpan)
    else ReportOf(c, CRITICAL, text)
  }

  // ----- What the values are worth to their users -----

  /** The period is the least whole number of hours that covers the one asked for. */
  lemma PeriodIsLeastCoveringHours(c: Converters, o: Options)
    ensures PeriodOf(c, o) % 3600 == 0
    ensures AskedPeriod(c, o) <= PeriodOf(c, o)
    ensures forall p :: p % 3600 == 0 && AskedPeriod(c, o) <= p ==> PeriodOf(c, o) <= p
    ensures PeriodOf(c, o) >= 3600 && PeriodOf(c, o) % 60 == 0
  {
    var hours := (AskedPeriod(c, o) + 3599) / 3600;
    assert PeriodOf(c, o) == hours * 3600;
    forall p | p % 3600 == 0 && AskedPeriod(c, o) <= p
      ensures hours * 3600 <= p
    {
      assert p == p / 3600 * 3600;
    }
  }

  /** Whatever the options say, the spans are bounded below and the priorities on both sides. */
  lemma ReportsAreClamped(c: Converters, o: Options)
    ensures 1 <= ReportOf(c, LOW, o.low).priority <= 50 && ReportOf(c, LOW, o.low).span >= 86400
    ensures 10 <= ReportOf(c, MEDIUM, o.medium).priority <= 90 && ReportOf(c, MEDIUM, o.medium).span >= 3600
    ensures 1 <= CriticalOf(c, o.critical).priority <= 100 && CriticalOf(c, o.critical).span >= 300
  {
  }

  /** A duration option within its bounds. */
  predicate InBounds(c: Converters, text: string, minimum: int) {
    c.duration(text).Some? && c.duration(text).value >= minimum
  }

  /** A setting within its bounds is used as given, a period when it is whole hours. */
  lemma InBoundsIsKept(c: Converters, o: Options, k: Class, text: string)
    ensures InBounds(c, o.frequency, 60) ==> FrequencyOf(c, o) == c.duration(o.frequency).value
    ensures InBounds(c, o.period, 3600) ==>
              (PeriodOf(c, o) == c.duration(o.period).value <==> c.duration(o.period).value % 3600 == 0)
    ensures o.ttl.Lasting? && InBounds(c, o.ttl.text, 3600) ==> TtlOf(c, o) == c.duration(o.ttl.text).value
    ensures TtlOf(c, o) == 0 <==> o.ttl == Off
    ensures o.ttl == UsePeriod ==> TtlOf(c, o) == PeriodOf(c, o)
    ensures InBounds(c, o.settleTime, 60) ==> SettleTimeOf(c, o) == c.duration(o.settleTime).value
    ensures SettleTimeOf(c, o) == -1 <==> c.duration(o.settleTime) == None
    ensures c.integer(text).Some? && k.minimumPriority <= c.integer(text).value <= k.maximumPriority ==>
              PriorityOf(c, k, text) == c.integer(text).value
    ensures InBounds(c, text, k.minimumSpan) && k.minimumSpan > 0 ==> SpanOf(c, k, text) == c.duration(text).value
  {
    PeriodIsLeastCoveringHours(c, o);
  }

  /** And no setting ever leaves its bounds. */
  lemma SettingsAreBounded(c: Converters, o: Options)
    ensures FrequencyOf(c, o) >= 60 && PeriodOf(c, o) >= 3600
    ensures TtlOf(c, o) == 0 || TtlOf(c, o) >= 3600
    ensures SettleTimeOf(c, o) == -1 || SettleTimeOf(c, o) >= 60
  {
    PeriodIsLeastCoveringHours(c, o);
  }

  // ----- Naming the options -----

  datatype Name = Frequency | Period | Ttl | SettleTime | Low | Medium | Critical | Unknown

  /** The option a fluid-settings name stands for. */
  function NameOf(text: string): Name {
    if text == "statistics-frequency" then Frequency
    else if text == "statistics-period" then Period
    else if text == "statistics-ttl" then Ttl
    else if text == "error-report-settle-time" then SettleTime
    else if text == "error-report-low-priority" then Low
    else if text == "error-report-medium-priority" then Medium
    else if text == "error-report-critical-priority" then Critical
    else Unknown
  }

  function With(o: Options, name: Name, value: string): Options {
    match name
    case Frequency => o.(frequency := value)
    case Period => o.(period := value)
    case Ttl => o.(ttl := ReadTtlOption(value))
    case SettleTime => o.(settleTime := value)
    case Low => o.(low := value)
    case Medium => o.(medium := value)
    case Critical => o.(critical := value)
    case Unknown => o
  }

  datatype Getter =
    | GetFrequency | GetPeriod | GetTtl | GetSettleTime
    | GetLowPriority | GetLowSpan | GetMediumPriority | GetMediumSpan | GetCriticalPriority | GetCriticalSpan

  /** The value of a setting, computed afresh. */
  function Fresh(c: Converters, o: Options, g: Getter): int {
    match g
    case GetFrequency => FrequencyOf(c, o)
    case GetPeriod => PeriodOf(c, o)
    case GetTtl => TtlOf(c, o)
    case GetSettleTime => SettleTimeOf(c, o)
    case GetLowPriority => ReportOf(c, LOW, o.low).priority
    case GetLowSpan => ReportOf(c, LOW, o.low).span
    case GetMediumPriority => ReportOf(c, MEDIUM, o.medium).priority
    case GetMediumSpan => ReportOf(c, MEDIUM, o.medium).span
    case GetCriticalPriority => CriticalOf(c, o.critical).priority
    case GetCriticalSpan => CriticalOf(c, o.critical).span
  }

  /** Why fluid-settings sends a message: a value was set by another service, or anything else. */
  datatype Status = NewValue | OtherStatus

  datatype Request = Get(getter: Getter) | Update(name: Name, value: string)

  predicate ReadsCritical(g: Getter) {
    g == GetCriticalPriority || g == GetCriticalSpan
  }

  /** The options, and whether the critical class is remembered. */
  datatype Moment = Moment(options: Options, known: bool)

  function After(m: Moment, request: Request): Moment {
    match request
    case Get(g) => m.(known := m.known || ReadsCritical(g))
    case Update(name, value) => Moment(With(m.options, name, value), m.known && name != Critical)
  }

  function AfterAll(m: Moment, requests: seq<Request>): Moment {
    if requests == [] then m
    else After(AfterAll(m, requests[..|requests| - 1]), requests[|requests| - 1])
  }

  /** The one call that answers wrongly. */
  predicate Misled(c: Converters, o: Options, g: Getter, known: bool) {
    g == GetCriticalPriority && !known && TooManyParts(c, o.critical)
  }

  /** What a getter answers; an update has no answer of its own. */
  function Answer(c: Converters, m: Moment, request: Request): int {
    match request
    case Get(g) => if Misled(c, m.options, g, m.known) then 0 else Fresh(c, m.options, g)
    case Update(_, _) => 0
  }

  function Answers(c: Converters, m: Moment, requests: seq<Request>): seq<int> {
    if requests == [] then []
    else
      var before := requests[..|requests| - 1];
      Answers(c, m, before) + [Answer(c, AfterAll(m, before), requests[|requests| - 1])]
  }

  lemma {:induction false} AnswerAt(c: Converters, m: Moment, requests: seq<Request>, i: nat)
    requires i < |requests|
    ensures |Answers(c, m, requests)| == |requests|
    ensures Answers(c, m, requests)[i] == Answer(c, AfterAll(m, requests[..i]), requests[i])
    decreases |requests|
  {
    var before := requests[..|requests| - 1];
    if i < |before| {
      AnswerAt(c, m, before, i);
      assert before[..i] == requests[..i];
    } else if before != [] {
      AnswerAt(c, m, before, 0);
    }
  }

  /**
    In any interleaving of calls and updates, an answer is the value the options
    of that moment give, except the first critical priority asked for while its
    option has too many parts.
  */
  lemma AnswersAreFresh(c: Converters, m: Moment, requests: seq<Request>, i: nat)
    requires i < |requests| && requests[i].Get?
    ensures var before := AfterAll(m, requests[..i]);
            |Answers(c, m, requests)| == |requests|
            && (Answers(c, m, requests)[i] == Fresh(c, before.options, requests[i].getter)
                <==> !Misled(c, before.options, requests[i].getter, before.known))
  {
    AnswerAt(c, m, requests, i);
    ReportsAreClamped(c, AfterAll(m, requests[..i]).options);
  }

  /** Any option with too many parts misleads the first call, and no later one. */
  lemma FirstAnswerIsZero(c: Converters, o: Options)
    requires TooManyParts(c, o.critical)
    ensures Answers(c, Moment(o, false), [Get(GetCriticalPriority), Get(GetCriticalPriority)]) == [0, 90]
    ensures Misled(c, o, GetCriticalPriority, false)
  {
    var call := Get(GetCriticalPriority);
    assert [call, call][..1] == [call] && [call][..0] == [];
    assert Answers(c, Moment(o, false), [call]) == [0];
  }

  // ----- What an update is answered by -----

  lemma NamesAreKnown()
    ensures NameOf("statistics-frequency") == Frequency && NameOf("statistics-period") == Period
    ensures NameOf("statistics-ttl") == Ttl && NameOf("error-report-settle-time") == SettleTime
    ensures NameOf("error-report-low-priority") == Low && NameOf("error-report-medium-priority") == Medium
    ensures NameOf("error-report-critical-priority") == Critical
  {
    assert |"statistics-frequency"| == 20 && |"statistics-period"| == 17 && |"statistics-ttl"| == 14;
    assert |"error-report-settle-time"| == 24 && |"error-report-low-priority"| == 25;
    assert |"error-report-medium-priority"| == 28 && |"error-report-critical-priority"| == 30;
  }

  /** What a getter answers right after an update, which any requests came before. */
  function AnswerAfter(c: Converters, m: Moment, requests: seq<Request>, text: string, value: string, g: Getter): int {
    Answer(c, AfterAll(m, requests + [Update(NameOf(text), value)]), Get(g))
  }

  lemma AfterLast(m: Moment, requests: seq<Request>, request: Request)
    ensures AfterAll(m, requests + [request]) == After(AfterAll(m, requests), request)
  {
    assert (requests + [request])[..|requests|] == requests;
  }

  lemma FrequencyIsAnswered(c: Converters, m: Moment, requests: seq<Request>, value: string)
    ensures AnswerAfter(c, m, requests, "statistics-frequency", value, GetFrequency)
         == match c.duration(value)
            case None => 60
            case Some(v) => if v < 60 then 60 else v
  {
    NamesAreKnown();
    AfterLast(m, requests, Update(Frequency, value));
  }

  /** The period is the whole hours that cover what is asked for, a week when that is nothing. */
  lemma PeriodIsAnswered(c: Converters, m: Moment, requests: seq<Request>, value: string)
    ensures var period := AnswerAfter(c, m, requests, "statistics-period", value, GetPeriod);
            var duration := c.duration(value);
            var asked := if duration.Some? && duration.value >= 0 then duration.value else 604800;
            && period % 3600 == 0 && period >= 3600
            && asked <= period && (period > 3600 ==> period - 3600 < asked)
  {
    NamesAreKnown();
    AfterLast(m, requests, Update(Period, value));
    PeriodIsLeastCoveringHours(c, AfterAll(m, requests + [Update(Period, value)]).options);
  }

  /** The two keywords of the TTL, and anything else. */
  lemma TtlIsAnswered(c: Converters, m: Moment, requests: seq<Request>, value: string)
    ensures AnswerAfter(c, m, requests, "statistics-ttl", "off", GetTtl) == 0
    ensures AnswerAfter(c, m, requests, "statistics-ttl", "use-period", GetTtl)
         == AnswerAfter(c, m, requests, "statistics-ttl", "use-period", GetPeriod)
    ensures value != "off" && value != "use-period" ==>
              (AnswerAfter(c, m, requests, "statistics-ttl", value, GetTtl)
               == match c.duration(value)
                  case None => 604800
                  case Some(v) => if v < 0 then 604800 else if v < 3600 then 3600 else v)
  {
    NamesAreKnown();
    assert |"off"| != |"use-period"|;
    AfterLast(m, requests, Update(Ttl, "off"));
    AfterLast(m, requests, Update(Ttl, "use-period"));
    AfterLast(m, requests, Update(Ttl, value));
  }

  lemma SettleTimeIsAnswered(c: Converters, m: Moment, requests: seq<Request>, value: string)
    ensures AnswerAfter(c, m, requests, "error-report-settle-time", value, GetSettleTime)
         == match c.duration(value)
            case None => -1
            case Some(v) => if v < 0 then 300 else if v < 60 then 60 else v
  {
    NamesAreKnown();
    AfterLast(m, requests, Update(SettleTime, value));
  }

  /** The part of an option that is read for the span. */
  function SecondPart(c: Converters, value: string): Option<string> {
    if value != "" && |c.split(value).others| > 0 && |c.split(value).others[0]| > 0 then Some(c.split(value).others[0])
    else None
  }

  /** The low priority and span an option stands for, */
  lemma LowReport(c: Converters, value: string)
    ensures ReportOf(c, LOW, value).priority
         == (if value == "" then 10
             else match c.integer(c.split(value).first)
                  case None => 10
                  case Some(p) => if p < 1 then 1 else if p > 50 then 50 else p)
    ensures ReportOf(c, LOW, value).span
         == match SecondPart(c, value)
            case None => 604800
            case Some(text) =>
              match c.duration(text)
              case None => 604800
              case Some(v) => if v <= 0 then 604800 else if v < 86400 then 86400 else v
  {
  }

  /** the medium ones, */
  lemma MediumReport(c: Converters, value: string)
    ensures ReportOf(c, MEDIUM, value).priority
         == (if value == "" then 50
             else match c.integer(c.split(value).first)
                  case None => 50
                  case Some(p) => if p < 10 then 10 else if p > 90 then 90 else p)
    ensures ReportOf(c, MEDIUM, value).span
         == match SecondPart(c, value)
            case None => 259200
            case Some(text) =>
              match c.duration(text)
              case None => 259200
              case Some(v) => if v < 0 then 259200 else if v < 3600 then 3600 else v
  {
  }

  /** and the critical ones, unless it has too many parts. */
  lemma CriticalReport(c: Converters, value: string)
    requires value == "" || |c.split(value).others| <= 1
    ensures CriticalOf(c, value).priority
         == (if value == "" then 90
             else match c.integer(c.split(value).first)
                  case None => 90
                  case Some(p) => if p < 1 || p > 100 then 90 else p)
    ensures CriticalOf(c, value).span
         == match SecondPart(c, value)
            case None => 86400
            case Some(text) =>
              match c.duration(text)
              case None => 86400
              case Some(v) => if v < 0 then 86400 else if v < 300 then 300 else v
  {
  }

  /**
    Right after an update each class answers with what its option says; a critical
    option with too many parts answers 0, and stands for the defaults.
  */
  lemma ReportsAreAnswered(c: Converters, m: Moment, requests: seq<Request>, value: string)
    ensures AnswerAfter(c, m, requests, "error-report-low-priority", value, GetLowPriority)
         == ReportOf(c, LOW, value).priority
    ensures AnswerAfter(c, m, requests, "error-report-low-priority", value, GetLowSpan)
         == ReportOf(c, LOW, value).span
    ensures AnswerAfter(c, m, requests, "error-report-medium-priority", value, GetMediumPriority)
         == ReportOf(c, MEDIUM, value).priority
    ensures AnswerAfter(c, m, requests, "error-report-medium-priority", value, GetMediumSpan)
         == ReportOf(c, MEDIUM, value).span
    ensures AnswerAfter(c, m, requests, "error-report-critical-priority", value, GetCriticalPriority)
         == if value != "" && |c.split(value).others| > 1 then 0 else CriticalOf(c, value).priority
    ensures AnswerAfter(c, m, requests, "error-report-critical-priority", value, GetCriticalSpan)
         == if value != "" && |c.split(value).others| > 1 then 86400 else CriticalOf(c, value).span
  {
    NamesAreKnown();
    AfterLast(m, requests, Update(Low, value));
    AfterLast(m, requests, Update(Medium, value));
    AfterLast(m, requests, Update(Critical, value));
  }

  /** An update changes no answer but those of its own setting, and the TTL when that follows the period. */
  lemma OthersAreKept(c: Converters, o: Options, name: Name, value: string, g: Getter)
    requires match g
             case GetFrequency => name != Frequency
             case GetPeriod => name != Period
             case GetTtl => name != Ttl && (name != Period || o.ttl != UsePeriod)
             case GetSettleTime => name != SettleTime
             case GetLowPriority => name != Low
             case GetLowSpan => name != Low
             case GetMediumPriority => name != Medium
             case GetMediumSpan => name != Medium
             case GetCriticalPriority => name != Critical
             case GetCriticalSpan => name != Critical
    ensures Fresh(c, With(o, name, value), g) == Fresh(c, o, g)
  {
  }

  /** The critical class is remembered exactly when it was read since its option last changed. */
  lemma {:induction false} KnownExactly(m: Moment, requests: seq<Request>)
    ensures AfterAll(m, requests).known
       <==> || (m.known && forall i :: 0 <= i < |requests| ==>
                  !(requests[i].Update? && requests[i].name == Critical))
            || exists i :: 0 <= i < |requests|
                 && (requests[i] == Get(GetCriticalPriority) || requests[i] == Get(GetCriticalSpan))
                 && forall j :: i < j < |requests| ==> !(requests[j].Update? && requests[j].name == Critical)
  {
    if requests != [] {
      var last := |requests| - 1;
      var before := requests[..last];
      KnownExactly(m, before);
      assert forall i :: 0 <= i < last ==> before[i] == requests[i];
      assert AfterAll(m, requests) == After(AfterAll(m, before), requests[last]);
    }
  }

  // ----- Sample options -----

  /** Converters for a few options. */
  function Samples(): Converters {
    Converters(
      s => if s == "1w" then Some(604800)
           else if s == "1d" then Some(86400)
           else if s == "1h" then Some(3600)
           else None,
      s => if s == "10" then Some(10) else if s == "50" then Some(50) else if s == "90" then Some(90) else None,
      s => if s == "10,1w" then Parts("10", ["1w"])
           else if s == "50,1h" then Parts("50", ["1h"])
           else if s == "90,1d" then Parts("90", ["1d"])
           else if s == "90,1d,x" then Parts("90", ["1d", "x"])
           else Parts(s, []))
  }

  lemma SamplesAreRead()
    ensures ReportOf(Samples(), LOW, "10,1w") == Report(10, 604800)
    ensures ReportOf(Samples(), MEDIUM, "50,1h") == Report(50, 3600)
    ensures CriticalOf(Samples(), "90,1d") == Report(90, 86400)
    ensures TooManyParts(Samples(), "90,1d,x")
  {
    assert "1d"[1] != "1w"[1] && "1h"[1] != "1w"[1] && "1h"[1] != "1d"[1];
    assert "50"[0] != "10"[0] && "90"[0] != "10"[0] && "90"[0] != "50"[0];
    assert "50,1h"[0] != "10,1w"[0] && "90,1d"[0] != "10,1w"[0] && "90,1d"[0] != "50,1h"[0];
    assert |"90,1d,x"| != |"10,1w"| && |"90,1d,x"| != |"50,1h"| && |"90,1d,x"| != |"90,1d"|;
  }

  // ----- The server's memory -----

  class Server {
    const c: Converters
    var options: Options
    var statisticsFrequency: int
    var statisticsPeriod: int
    var statisticsTtl: int
    var settleTime: int
    var lowPriority: int
    var lowSpan: int
    var mediumPriority: int
    var mediumSpan: int
    var criticalPriority: int
    var criticalSpan: int

    /** Every field is its sentinel or the value the current options give. */
    ghost predicate Coherent()
      reads this
    {
      && (statisticsFrequency == -1 || statisticsFrequency == FrequencyOf(c, options))
      && (statisticsPeriod == -1 || statisticsPeriod == PeriodOf(c, options))
      && (statisticsTtl == -1 || statisticsTtl == TtlOf(c, options))
      && (settleTime == -1 || settleTime == SettleTimeOf(c, options))
      && (lowPriority == lowSpan == -1 || Report(lowPriority, lowSpan) == ReportOf(c, LOW, options.low))
      && (mediumPriority == mediumSpan == -1
          || Report(mediumPriority, mediumSpan) == ReportOf(c, MEDIUM, options.medium))
      && (criticalPriority == criticalSpan == -1
          || Report(criticalPriority, criticalSpan) == CriticalOf(c, options.critical))
    }

    /** What is remembered of the setting a getter answers; -1 for nothing. */
    ghost function Memory(g: Getter): int
      reads this
    {
      match g
      case GetFrequency => statisticsFrequency
      case GetPeriod => statisticsPeriod
      case GetTtl => statisticsTtl
      case GetSettleTime => settleTime
      case GetLowPriority => lowPriority
      case GetLowSpan => lowSpan
      case GetMediumPriority => mediumPriority
      case GetMediumSpan => mediumSpan
      case GetCriticalPriority => criticalPriority
      case GetCriticalSpan => criticalSpan
    }

    /** The priority and the span of a class are remembered together. */
    ghost predicate Paired()
      reads this
    {
      && (lowPriority == -1 <==> lowSpan == -1)
      && (mediumPriority == -1 <==> mediumSpan == -1)
      && (criticalPriority == -1 <==> criticalSpan == -1)
    }

    /** Coherence, setting by setting. */
    lemma CoherentExactly()
      ensures Coherent() <==> Paired() && forall g :: Memory(g) == -1 || Memory(g) == Fresh(c, options, g)
    {
      ReportsAreClamped(c, options);
      if Paired() && forall g :: Memory(g) == -1 || Memory(g) == Fresh(c, options, g) {
        assert Memory(GetFrequency) == -1 || Memory(GetFrequency) == Fresh(c, options, GetFrequency);
        assert Memory(GetPeriod) == -1 || Memory(GetPeriod) == Fresh(c, options, GetPeriod);
        assert Memory(GetTtl) == -1 || Memory(GetTtl) == Fresh(c, options, GetTtl);
        assert Memory(GetSettleTime) == -1 || Memory(GetSettleTime) == Fresh(c, options, GetSettleTime);
        assert Memory(GetLowPriority) == -1 || Memory(GetLowPriority) == Fresh(c, options, GetLowPriority);
        assert Memory(GetLowSpan) == -1 || Memory(GetLowSpan) == Fresh(c, options, GetLowSpan);
        assert Memory(GetMediumPriority) == -1 || Memory(GetMediumPriority) == Fresh(c, options, GetMediumPriority);
        assert Memory(GetMediumSpan) == -1 || Memory(GetMediumSpan) == Fresh(c, options, GetMediumSpan);
        assert Memory(GetCriticalPriority) == -1
               || Memory(GetCriticalPriority) == Fresh(c, options, GetCriticalPriority);
        assert Memory(GetCriticalSpan) == -1 || Memory(GetCriticalSpan) == Fresh(c, options, GetCriticalSpan);
      }
    }

    constructor (c: Converters, options: Options)
      ensures Coherent() && this.c == c && this.options == options && criticalPriority == -1
    {
      this.c, this.options := c, options;
      statisticsFrequency, statisticsPeriod, statisticsTtl, settleTime := -1, -1, -1, -1;
      lowPriority, lowSpan, mediumPriority, mediumSpan, criticalPriority, criticalSpan := -1, -1, -1, -1, -1, -1;
    }

    method GetStatisticsFrequency() returns (r: int)
      requires Coherent()
      modifies this`statisticsFrequency
      ensures Coherent() && r == FrequencyOf(c, options)
    {
      if statisticsFrequency <= 0 {
        var frequency := DEFAULT_STATISTICS_FREQUENCY;
        var duration := c.duration(options.frequency);
        if duration.Some? {
          frequency := duration.value;
          if frequency < 0 { frequency := DEFAULT_STATISTICS_FREQUENCY; }
        }
        statisticsFrequency := Max(MINIMUM_STATISTICS_FREQUENCY, frequency);
      }
      return statisticsFrequency;
    }

    method GetStatisticsPeriod() returns (r: int)
      requires Coherent()
      modifies this`statisticsPeriod
      ensures Coherent() && r == PeriodOf(c, options) == statisticsPeriod
    {
      PeriodIsLeastCoveringHours(c, options);
      if statisticsPeriod <= 0 {
        var period := DEFAULT_STATISTICS_PERIOD;
        var duration := c.duration(options.period);
        if duration.Some? {
          period := duration.value;
          if period < 0 { period := DEFAULT_STATISTICS_PERIOD; }
        }
        period := Max(MINIMUM_STATISTICS_PERIOD, period);
        statisticsPeriod :=
          (period + (ROUND_STATISTICS_PERIOD - 1)) / ROUND_STATISTICS_PERIOD * ROUND_STATISTICS_PERIOD;
      }
      return statisticsPeriod;
    }

    /** May fill the period as well. */
    method GetStatisticsTtl() returns (r: int)
      requires Coherent()
      modifies this`statisticsTtl, this`statisticsPeriod
      ensures Coherent() && r == TtlOf(c, options)
    {
      if statisticsTtl < 0 {
        match options.ttl
        case Off => statisticsTtl := 0;
        case UsePeriod =>
          var period := GetStatisticsPeriod();
          statisticsTtl := period;
        case Lasting(text) =>
          var ttl := DEFAULT_STATISTICS_TTL;
          var duration := c.duration(text);
          if duration.Some? {
            ttl := duration.value;
            if ttl < 0 { ttl := DEFAULT_STATISTICS_TTL; }
          }
          statisticsTtl := Max(MINIMUM_STATISTICS_TTL, ttl);
      }
      return statisticsTtl;
    }

    method GetErrorReportSettleTime() returns (r: int)
      requires Coherent()
      modifies this`settleTime
      ensures Coherent() && r == SettleTimeOf(c, options)
    {
      if settleTime < 0 {
        var duration := c.duration(options.settleTime);
        if duration.Some? {
          var seconds := duration.value;
          if seconds < 0 { seconds := DEFAULT_SETTLE_TIME; }
          settleTime := Max(MINIMUM_SETTLE_TIME, seconds);
        }
      }
      return settleTime;
    }

    /** Reads the priority and the span of one class out of its option. */
    method ReadReport(k: Class, text: string) returns (priority: int, span: int)
      ensures Report(priority, span) == ReportOf(c, k, text)
    {
      priority, span := k.defaultPriority, k.defaultSpan;
      if |text| > 0 {
        var parts := c.split(text);
        var number := c.integer(parts.first);
        if number.Some? {
          priority := number.value;
          if priority < k.minimumPriority {
            priority := k.belowPriority;
          } else if priority > k.maximumPriority {
            priority := k.abovePriority;
          }
        }
        if |parts.others| > 0 && |parts.others[0]| > 0 {
          var duration := c.duration(parts.others[0]);
          if duration.Some? {
            span := duration.value;
            if span < 0 || (span == 0 && k.zeroIsDefault) {
              span := k.defaultSpan;
            } else if span < k.minimumSpan {
              span := k.minimumSpan;
            }
          }
        }
      }
    }

    method GetErrorReportLowPriority() returns (r: int)
      requires Coherent()
      modifies this`lowPriority, this`lowSpan
      ensures Coherent() && r == lowPriority && Report(lowPriority, lowSpan) == ReportOf(c, LOW, options.low)
    {
      if lowPriority < 0 {
        lowPriority, lowSpan := ReadReport(LOW, options.low);
      }
      return lowPriority;
    }

    method GetErrorReportMediumPriority() returns (r: int)
      requires Coherent()
      modifies this`mediumPriority, this`mediumSpan
      ensures Coherent() && r == mediumPriority
      ensures Report(mediumPriority, mediumSpan) == ReportOf(c, MEDIUM, options.medium)
    {
      if mediumPriority < 0 {
        mediumPriority, mediumSpan := ReadReport(MEDIUM, options.medium);
      }
      return mediumPriority;
    }

    /**
      Right in every case but one: the call that first meets an option with too
      many parts answers 0, although it remembers the default.
    */
    method GetErrorReportCriticalPriority() returns (r: int)
      requires Coherent()
      modifies this`criticalPriority, this`criticalSpan
      ensures Coherent()
      ensures Report(criticalPriority, criticalSpan) == CriticalOf(c, options.critical)
      ensures r == if old(criticalPriority) == -1 && TooManyParts(c, options.critical) then 0 else criticalPriority
    {
      ReportsAreClamped(c, options);
      if criticalPriority < 0 {
        criticalPriority, criticalSpan := CRITICAL.defaultPriority, CRITICAL.defaultSpan;
        if |options.critical| > 0 && |c.split(options.critical).others| > 1 { return 0; }
        criticalPriority, criticalSpan := ReadReport(CRITICAL, options.critical);
      }
      return criticalPriority;
    }

    /** What the requests see of the memory. */
    ghost function Now(): Moment
      reads this
    {
      Moment(options, criticalPriority != -1)
    }

    method ClearCache(name: Name)
      modifies this`statisticsFrequency, this`statisticsPeriod, this`statisticsTtl, this`settleTime,
               this`lowPriority, this`lowSpan, this`mediumPriority, this`mediumSpan,
               this`criticalPriority, this`criticalSpan
      ensures statisticsFrequency == if name == Frequency then -1 else old(statisticsFrequency)
      ensures statisticsPeriod == if name == Period then -1 else old(statisticsPeriod)
      ensures statisticsTtl == if name == Period || name == Ttl then -1 else old(statisticsTtl)
      ensures settleTime == if name == SettleTime then -1 else old(settleTime)
      ensures (lowPriority, lowSpan) == if name == Low then (-1, -1) else old((lowPriority, lowSpan))
      ensures (mediumPriority, mediumSpan) == if name == Medium then (-1, -1) else old((mediumPriority, mediumSpan))
      ensures (criticalPriority, criticalSpan)
           == if name == Critical then (-1, -1) else old((criticalPriority, criticalSpan))
    {
      match name
      case Frequency => statisticsFrequency := -1;
      case Period => statisticsPeriod, statisticsTtl := -1, -1;
      case Ttl => statisticsTtl := -1;
      case SettleTime => settleTime := -1;
      case Low => lowPriority, lowSpan := -1, -1;
      case Medium => mediumPriority, mediumSpan := -1, -1;
      case Critical => criticalPriority, criticalSpan := -1, -1;
      case Unknown =>
    }

    /** The option changes, then its memory is cleared. */
    method Change(name: Name, value: string)
      requires Coherent()
      modifies this
      ensures Coherent() && options == With(old(options), name, value)
      ensures criticalPriority == if name == Critical then -1 else old(criticalPriority)
    {
      options := With(options, name, value);
      ClearCache(name);
    }

    /**
      The option changes and its memory is not cleared: what is remembered stays
      right exactly when no setting remembered has changed its value.
    */
    method ChangeSilently(name: Name, value: string)
      requires Coherent()
      modifies this`options
      ensures options == With(old(options), name, value)
      ensures forall g :: Memory(g) == old(Memory(g))
      ensures Coherent()
         <==> forall g :: old(Memory(g)) == -1 || Fresh(c, options, g) == Fresh(c, old(options), g)
    {
      CoherentExactly();
      options := With(options, name, value);
      assert forall g :: Memory(g) == old(Memory(g));
      CoherentExactly();
    }

    /**
      A message of fluid-settings about an option; `applied` says whether the
      library took the value over. Only a new value clears the memory.
    */
    method Told(status: Status, name: Name, value: string, applied: bool)
      requires Coherent()
      modifies this
      ensures options == if applied then With(old(options), name, value) else old(options)
      ensures Coherent()
         <==> status == NewValue
              || forall g :: old(Memory(g)) == -1 || Fresh(c, options, g) == Fresh(c, old(options), g)
      ensures status != NewValue ==> forall g :: Memory(g) == old(Memory(g))
    {
      if status == NewValue {
        if applied { Change(name, value); } else { ClearCache(name); }
      } else if applied {
        ChangeSilently(name, value);
      }
    }

    /** The same under the name the option has there. */
    method FluidSettingsChanged(status: Status, text: string, value: string, applied: bool)
      requires Coherent()
      modifies this
      ensures options == if applied then With(old(options), NameOf(text), value) else old(options)
      ensures Coherent()
         <==> status == NewValue
              || forall g :: old(Memory(g)) == -1 || Fresh(c, options, g) == Fresh(c, old(options), g)
      ensures status != NewValue ==> forall g :: Memory(g) == old(Memory(g))
    {
      Told(status, NameOf(text), value, applied);
    }

    method Call(g: Getter) returns (r: int)
      requires Coherent()
      modifies this
      ensures Coherent()
      ensures r == Answer(c, old(Now()), Get(g)) && Now() == After(old(Now()), Get(g))
    {
      match g
      case GetFrequency => r := GetStatisticsFrequency();
      case GetPeriod => r := GetStatisticsPeriod();
      case GetTtl => r := GetStatisticsTtl();
      case GetSettleTime => r := GetErrorReportSettleTime();
      case GetLowPriority => r := GetErrorReportLowPriority();
      case GetLowSpan => var _ := GetErrorReportLowPriority(); r := lowSpan;
      case GetMediumPriority => r := GetErrorReportMediumPriority();
      case GetMediumSpan => var _ := GetErrorReportMediumPriority(); r := mediumSpan;
      case GetCriticalPriority =>
        ReportsAreClamped(c, options);
        r := GetErrorReportCriticalPriority();
      case GetCriticalSpan =>
        ReportsAreClamped(c, options);
        var _ := GetErrorReportCriticalPriority();
        r := criticalSpan;
    }

    method Handle(request: Request) returns (answer: int)
      requires Coherent()
      modifies this
      ensures Coherent()
      ensures answer == Answer(c, old(Now()), request) && Now() == After(old(Now()), request)
    {
      answer := 0;
      match request
      case Get(g) => answer := Call(g);
      case Update(name, value) => Change(name, value);
    }

    /** Any interleaving of calls and updates. */
    method Serve(requests: seq<Request>) returns (answers: seq<int>)
      requires Coherent()
      modifies this
      ensures Coherent()
      ensures answers == Answers(c, old(Now()), requests) && Now() == AfterAll(old(Now()), requests)
    {
      answers := [];
      for i := 0 to |requests|
        invariant Coherent()
        invariant answers == Answers(c, old(Now()), requests[..i])
        invariant Now() == AfterAll(old(Now()), requests[..i])
      {
        assert requests[..i + 1][..i] == requests[..i];
        var answer := Handle(requests[i]);
        answers := answers + [answer];
      }
      assert requests[..|requests|] == requests;
    }
  }
}
