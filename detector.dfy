/**
 * The detector's per-record state machine, as values: what one log line does to the
 * active pool, the error window and the two cooldown timestamps, and which alerts it
 * emits; and what any sequence of lines does.
 */
module Detection {
  import opened Wrappers
  import opened PyText
  import opened StatusExtraction
  import opened ErrorWindows

  /** The fields of a decoded log record that the detector reads. */
  datatype Record = Record(pool: Field, upstreamStatus: Field, status: Field)

  /** A line of the log as the main loop classifies it after stripping and `json.loads`. */
  datatype Line =
    | Blank            // empty after `strip()`
    | NotJson          // `json.loads` raised `JSONDecodeError`
    | Undecodable      // `json.loads` raised another exception: nesting too deep for the
                       // recursion limit, or an integer literal past the digit limit
    | NotObject        // valid JSON, but a number, string, array, `true`, `false` or `null`
    | Object(rec: Record)

  /** The settings read once at start-up (`ERROR_RATE_THRESHOLD` etc.). */
  datatype Config = Config(windowSize: nat, threshold: real, cooldown: int, maintenance: bool)

  /** `last_pool`, the contents of `window`, and the two last-fired timestamps. */
  datatype DetectorState = DetectorState(
    lastPool: string,
    window: seq<bool>,
    lastErrorRateAlertTs: real,
    lastFailoverAlertTs: real)

  /** An alert handed to the sink: the rate as `errors` of `total`, or the pool transition. */
  datatype Alert = ErrorRateAlert(errors: nat, total: nat) | FailoverAlert(from: string, to: string)

  datatype AlertKind = ErrorRate | Failover

  function KindOf(a: Alert): AlertKind {
    if a.ErrorRateAlert? then ErrorRate else Failover
  }

  /** The last-fired timestamp that gates alerts of `kind`. */
  function LastTs(s: DetectorState, kind: AlertKind): real {
    match kind
    case ErrorRate => s.lastErrorRateAlertTs
    case Failover => s.lastFailoverAlertTs
  }

  datatype StepResult = StepResult(state: DetectorState, alerts: seq<Alert>)

  /** The state at start-up: `ACTIVE_POOL.strip().lower()`, an empty window, timestamps 0.0. */
  function Initial(activePool: string): (s: DetectorState)
    ensures s.window == [] && s.lastErrorRateAlertTs == 0.0 && s.lastFailoverAlertTs == 0.0
  {
    DetectorState(Normalize(activePool), [], 0.0, 0.0)
  }

  /** The start state is valid for any settings: its pool is already in normal form. */
  lemma InitialIsValid(cfg: Config, activePool: string)
    ensures Valid(cfg, Initial(activePool))
  {
    NormalizeIdempotent(activePool);
  }

  /** The invariant every reachable state keeps. */
  predicate Valid(cfg: Config, s: DetectorState) {
    |s.window| <= cfg.windowSize && Normalize(s.lastPool) == s.lastPool
  }

  /** `str(rec.get("pool") or "").strip().lower()` */
  function PoolOf(rec: Record): string {
    Normalize(if Truthy(rec.pool) then PyStr(rec.pool) else "")
  }

  /** A record's pool is already in normal form. */
  lemma PoolOfIsNormal(rec: Record)
    ensures Normalize(PoolOf(rec)) == PoolOf(rec)
  {
    NormalizeIdempotent(if Truthy(rec.pool) then PyStr(rec.pool) else "");
  }

  /** `parse_status_code(rec.get("upstream_status"), rec.get("status"))` */
  function CodeOf(rec: Record): int {
    ParseStatusCode(rec.upstreamStatus, rec.status)
  }

  /** `cooldown_ok(last_ts)` with the clock reading `now`. */
  predicate CooldownOk(now: real, lastTs: real, cooldown: int) {
    now - lastTs >= cooldown as real
  }

  /** `pool and pool != last_pool` and `200 <= code <= 399`: a confirmed cut-over. */
  predicate SwitchesPool(lastPool: string, pool: string, code: int) {
    pool != [] && pool != lastPool && 200 <= code <= 399
  }

  /** The window is full enough and its error rate is above the threshold. */
  predicate RateAlarm(cfg: Config, w: seq<bool>) {
    |w| >= MinFill(cfg.windowSize) && ErrorRatePercent(CountTrue(w), |w|) > cfg.threshold
  }

  /** What the error-rate half of a step produces. */
  datatype RateOutcome = RateOutcome(window: seq<bool>, lastTs: real, alerts: seq<Alert>)

  /**
   * `window.append(is_error(code))`, then, once the window holds the minimum sample, the
   * rate check and `alert_error_rate` with its cooldown.
   */
  function ErrorRateStep(cfg: Config, window: seq<bool>, lastTs: real, code: int, now: real): RateOutcome {
    var w := Appended(window, IsError(code), cfg.windowSize);
    if RateAlarm(cfg, w) && CooldownOk(now, lastTs, cfg.cooldown) then
      RateOutcome(w, now, [ErrorRateAlert(CountTrue(w), |w|)])
    else
      RateOutcome(w, lastTs, [])
  }

  /** What the failover half of a step produces. */
  datatype PoolOutcome = PoolOutcome(lastPool: string, lastTs: real, alerts: seq<Alert>)

  /**
   * The failover check: a confirmed cut-over always moves `last_pool`; the alert is
   * attempted only outside maintenance mode, through `alert_failover` and its cooldown.
   */
  function FailoverStep(cfg: Config, lastPool: string, lastTs: real, pool: string, code: int, now: real): PoolOutcome {
    if !SwitchesPool(lastPool, pool, code) then PoolOutcome(lastPool, lastTs, [])
    else if !cfg.maintenance && CooldownOk(now, lastTs, cfg.cooldown) then
      PoolOutcome(pool, now, [FailoverAlert(lastPool, pool)])
    else
      PoolOutcome(pool, lastTs, [])
  }

  /**
   * The body of the loop in `main` for a record whose normalised pool is `pool` and whose
   * status code is `code`, at clock `now`: the error-rate half, then the failover half.
   */
  function Observe(cfg: Config, s: DetectorState, pool: string, code: int, now: real): StepResult {
    var r := ErrorRateStep(cfg, s.window, s.lastErrorRateAlertTs, code, now);
    var f := FailoverStep(cfg, s.lastPool, s.lastFailoverAlertTs, pool, code, now);
    StepResult(DetectorState(f.lastPool, r.window, r.lastTs, f.lastTs), r.alerts + f.alerts)
  }

  /** The effect of one decoded record at clock `now`. */
  function Next(cfg: Config, s: DetectorState, rec: Record, now: real): StepResult {
    Observe(cfg, s, PoolOf(rec), CodeOf(rec), now)
  }

  /** What the main loop does with a line. */
  datatype Disposition = Skip | Detect(rec: Record) | Fatal(exitCode: int)

  /**
   * The main loop as written: blank and non-JSON lines are skipped, but a JSON value that
   * is not an object reaches `rec.get`, whose `AttributeError` ends the process with exit
   * code 2, and so does any exception of `json.loads` other than `JSONDecodeError`.
   */
  function DispositionAsWritten(line: Line): Disposition {
    match line
    case Blank => Skip
    case NotJson => Skip
    case Undecodable => Fatal(2)
    case NotObject => Fatal(2)
    case Object(rec) => Detect(rec)
  }

  /** The lines that end the loop as written: those the outer `except Exception` catches. */
  predicate FatalAsWritten(line: Line) {
    line.Undecodable? || line.NotObject?
  }

  /** The main loop as intended: every line that is not a record object is skipped. */
  function DispositionOf(line: Line): (d: Disposition)
    ensures !d.Fatal?
    ensures d.Detect? <==> line.Object?
    ensures line.Object? ==> d == Detect(line.rec)
  {
    if line.Object? then Detect(line.rec) else Skip
  }

  /**
   * As written, exactly the JSON scalars and the lines `json.loads` fails on with another
   * exception end the watcher, always with exit code 2; the corrected loop skips them.
   */
  lemma FatalLinesAsWritten(line: Line)
    ensures DispositionAsWritten(line).Fatal? <==> FatalAsWritten(line)
    ensures FatalAsWritten(line) ==> DispositionAsWritten(line) == Fatal(2)
    ensures FatalAsWritten(line) ==> DispositionOf(line) == Skip
  {
  }

  /** On every other line the written and the corrected loop agree. */
  lemma DispositionAgreesOnOtherLines(line: Line)
    requires !FatalAsWritten(line)
    ensures DispositionAsWritten(line) == DispositionOf(line)
  {
  }

  /** What the detector takes from a record: its normalised pool and its status code. */
  datatype Observation = Observation(pool: string, code: int)

  /** The observation a line yields, if the loop does not skip it. */
  function Perceive(line: Line): (o: Option<Observation>)
    ensures o.Some? <==> line.Object?
  {
    match DispositionOf(line)
    case Detect(rec) => Some(Observation(PoolOf(rec), CodeOf(rec)))
    case _ => None
  }

  /** An input of the stream as the detector sees it, with the clock reading `now`. */
  datatype Event = Event(obs: Option<Observation>, now: real)

  /** The effect of one event: a skipped line changes nothing. */
  function React(cfg: Config, s: DetectorState, e: Event): StepResult {
    match e.obs
    case None => StepResult(s, [])
    case Some(o) => Observe(cfg, s, o.pool, o.code, e.now)
  }

  /** The effect of a record is the effect of its observation. */
  lemma ReactToRecord(cfg: Config, s: DetectorState, rec: Record, now: real)
    ensures React(cfg, s, Event(Perceive(Object(rec)), now)) == Next(cfg, s, rec, now)
  {
  }

  /** Whatever line arrives, the detector's invariant survives it. */
  lemma LineKeepsValid(cfg: Config, s: DetectorState, line: Line, now: real)
    requires Valid(cfg, s)
    ensures Valid(cfg, React(cfg, s, Event(Perceive(line), now)).state)
  {
    if line.Object? {
      var rec := line.rec;
      assert Perceive(line) == Some(Observation(PoolOf(rec), CodeOf(rec)));
      PoolOfIsNormal(rec);
      ObserveKeepsValid(cfg, s, PoolOf(rec), CodeOf(rec), now);
    } else {
      assert Perceive(line) == None;
    }
  }

  /**
   * A record from the newly active pool that failed (500) is no evidence of a cut-over;
   * the next successful (200) record from that pool is, even in maintenance mode, and
   * it raises a failover alert only outside maintenance mode and past the cooldown.
   */
  lemma CutOverNeedsSuccess(cfg: Config, s: DetectorState, pool: string, now: real, later: real)
    requires pool != [] && pool != s.lastPool
    ensures var r1 := Observe(cfg, s, pool, 500, now);
      var r2 := Observe(cfg, r1.state, pool, 200, later);
      && r1.state.lastPool == s.lastPool
      && (forall k :: 0 <= k < |r1.alerts| ==> !r1.alerts[k].FailoverAlert?)
      && r2.state.lastPool == pool
      && (FailoverAlert(s.lastPool, pool) in r2.alerts
          <==> !cfg.maintenance && later - s.lastFailoverAlertTs >= cfg.cooldown as real)
  {
    var r1 := Observe(cfg, s, pool, 500, now);
    FailoverAlertIff(cfg, s, pool, 500, now);
    FailoverAlertIff(cfg, r1.state, pool, 200, later);
  }

  /**
   * `cooldown_ok`: a positive cooldown blocks at the moment of firing, lets through again
   * once the full interval has passed and from then on; at start-up, with the timestamp
   * 0.0, it lets through any clock reading of at least the cooldown.
   */
  lemma CooldownExpires(last: real, cooldown: int, now: real, later: real)
    ensures cooldown > 0 ==> !CooldownOk(last, last, cooldown)
    ensures CooldownOk(last + cooldown as real, last, cooldown)
    ensures CooldownOk(now, last, cooldown) && now <= later ==> CooldownOk(later, last, cooldown)
    ensures CooldownOk(now, 0.0, cooldown) <==> now >= cooldown as real
  {
  }

  /**
   * A record without a pool (missing, null, empty or 0) has the empty pool, which never
   * moves the active pool and never raises a failover alert.
   */
  lemma MissingPoolNeverSwitches(cfg: Config, s: DetectorState, rec: Record, now: real)
    requires !Truthy(rec.pool)
    ensures PoolOf(rec) == []
    ensures Next(cfg, s, rec, now).state.lastPool == s.lastPool
    ensures forall k :: 0 <= k < |Next(cfg, s, rec, now).alerts| ==>
      Next(cfg, s, rec, now).alerts[k].ErrorRateAlert?
  {
    assert Strip("") == [];
  }

  /** A skipped line changes no detector state and emits nothing. */
  lemma SkippedLineChangesNothing(cfg: Config, s: DetectorState, line: Line, now: real)
    requires !line.Object?
    ensures React(cfg, s, Event(Perceive(line), now)) == StepResult(s, [])
  {
  }

  /** After a record the active pool is either the old one or the record's pool. */
  lemma ObservePoolOldOrNew(cfg: Config, s: DetectorState, pool: string, code: int, now: real)
    ensures var p := Observe(cfg, s, pool, code, now).state.lastPool;
      p == s.lastPool || p == pool
  {
  }

  /** Every step keeps the window within capacity and the active pool normalised. */
  lemma ObserveKeepsValid(cfg: Config, s: DetectorState, pool: string, code: int, now: real)
    requires Valid(cfg, s) && Normalize(pool) == pool
    ensures Valid(cfg, Observe(cfg, s, pool, code, now).state)
  {
    AppendKeepsNewest(s.window, IsError(code), cfg.windowSize);
    ObservePoolOldOrNew(cfg, s, pool, code, now);
    var t := Observe(cfg, s, pool, code, now).state;
    if t.lastPool == pool {
      assert Normalize(t.lastPool) == t.lastPool;
    } else {
      assert t.lastPool == s.lastPool;
    }
  }

  /**
   * The window gains the record's outcome as its newest entry (an error exactly when the
   * code is in 500..599, so the unknown code 0 is a success) and loses its oldest entry
   * only when it was full.
   */
  lemma WindowRecordsOutcome(cfg: Config, s: DetectorState, pool: string, code: int, now: real)
    requires |s.window| <= cfg.windowSize
    ensures var w := Observe(cfg, s, pool, code, now).state.window;
      && |w| <= cfg.windowSize
      && (|s.window| < cfg.windowSize ==> w == s.window + [500 <= code <= 599])
      && (0 < |s.window| == cfg.windowSize ==> w == s.window[1..] + [500 <= code <= 599])
      && (code == 0 && cfg.windowSize > 0 ==> !w[|w| - 1])
  {
    AppendKeepsNewest(s.window, IsError(code), cfg.windowSize);
  }

  /**
   * An error-rate alert is emitted exactly when the window holds at least
   * `max(50, floor(WINDOW_SIZE / 4))` entries, `errors * 100 > threshold * len`, and the
   * error-rate cooldown has elapsed; it reports the window's error count and length, and
   * only then is the error-rate timestamp moved to `now`.
   */
  lemma ErrorRateAlertIff(cfg: Config, s: DetectorState, pool: string, code: int, now: real)
    ensures var r := Observe(cfg, s, pool, code, now);
      var w := r.state.window;
      var fires := |w| >= MinFill(cfg.windowSize) && RateAbove(CountTrue(w), |w|, cfg.threshold)
        && now - s.lastErrorRateAlertTs >= cfg.cooldown as real;
      && (fires <==> |r.alerts| > 0 && r.alerts[0].ErrorRateAlert?)
      && (fires ==> r.alerts[0] == ErrorRateAlert(CountTrue(w), |w|))
      && r.state.lastErrorRateAlertTs == (if fires then now else s.lastErrorRateAlertTs)
  {
    var w := Appended(s.window, IsError(code), cfg.windowSize);
    assert Observe(cfg, s, pool, code, now).state.window == w;
    if |w| >= MinFill(cfg.windowSize) {
      RateAboveIff(CountTrue(w), |w|, cfg.threshold);
    }
  }

  /**
   * The active pool becomes the record's pool exactly when that pool is non-empty and the
   * code is a success (2xx or 3xx); otherwise it stays. Neither maintenance mode nor the
   * cooldown has any say in this.
   */
  lemma ActivePoolFollowsSuccess(cfg: Config, s: DetectorState, pool: string, code: int, now: real)
    ensures var p := Observe(cfg, s, pool, code, now).state.lastPool;
      && p == (if pool != [] && 200 <= code <= 399 then pool else s.lastPool)
      && (p != s.lastPool ==> pool != [] && 200 <= code <= 399 && p == pool)
      && p == Observe(cfg.(maintenance := !cfg.maintenance, cooldown := 0), s, pool, code, now).state.lastPool
  {
  }

  /**
   * A failover alert is emitted exactly when the active pool changed, maintenance mode is
   * off and the failover cooldown has elapsed; it names the old and the new pool, which
   * differ, and at most one is emitted per record, after any error-rate alert.
   */
  lemma FailoverAlertIff(cfg: Config, s: DetectorState, pool: string, code: int, now: real)
    ensures var r := Observe(cfg, s, pool, code, now);
      var fires := r.state.lastPool != s.lastPool && !cfg.maintenance
        && now - s.lastFailoverAlertTs >= cfg.cooldown as real;
      && |r.alerts| <= 2
      && (fires <==> |r.alerts| > 0 && r.alerts[|r.alerts| - 1].FailoverAlert?)
      && (fires ==> r.alerts[|r.alerts| - 1] == FailoverAlert(s.lastPool, r.state.lastPool))
      && (|r.alerts| == 2 ==> r.alerts[0].ErrorRateAlert? && r.alerts[1].FailoverAlert?)
      && r.state.lastFailoverAlertTs == (if fires then now else s.lastFailoverAlertTs)
  {
  }

  /** With a window smaller than 50 the minimum sample is never reached: no rate alert, ever. */
  lemma SmallWindowNeverAlerts(cfg: Config, s: DetectorState, pool: string, code: int, now: real)
    requires |s.window| <= cfg.windowSize < 50
    ensures forall k :: 0 <= k < |Observe(cfg, s, pool, code, now).alerts| ==>
      Observe(cfg, s, pool, code, now).alerts[k].FailoverAlert?
  {
    AppendKeepsNewest(s.window, IsError(code), cfg.windowSize);
  }

  /** An input of the stream: a line and the clock reading when it is processed. */
  datatype Input = Input(line: Line, now: real)

  /** The stream of inputs as the detector sees it. */
  function Events(ins: seq<Input>): (es: seq<Event>)
    ensures |es| == |ins|
  {
    seq(|ins|, k requires 0 <= k < |ins| => Event(Perceive(ins[k].line), ins[k].now))
  }

  /** An emitted alert with the clock reading at which it was decided. */
  datatype Stamped = Stamped(at: real, alert: Alert)

  datatype Trace = Trace(state: DetectorState, log: seq<Stamped>)

  function Stamp(alerts: seq<Alert>, at: real): (r: seq<Stamped>)
    ensures |r| == |alerts|
    ensures forall k :: 0 <= k < |r| ==> r[k] == Stamped(at, alerts[k])
  {
    if alerts == [] then [] else [Stamped(at, alerts[0])] + Stamp(alerts[1..], at)
  }

  /** The state after, and the alerts emitted along, a stream of events. */
  function Run(cfg: Config, s: DetectorState, es: seq<Event>): Trace {
    if es == [] then Trace(s, [])
    else
      var t := Run(cfg, s, es[..|es| - 1]);
      var e := es[|es| - 1];
      var r := React(cfg, t.state, e);
      Trace(r.state, t.log + Stamp(r.alerts, e.now))
  }

  /** Running one event further extends the trace by that event's reaction. */
  lemma RunOneMore(cfg: Config, s: DetectorState, es: seq<Event>, k: nat)
    requires k < |es|
    ensures var t := Run(cfg, s, es[..k]);
      var r := React(cfg, t.state, es[k]);
      Run(cfg, s, es[..k + 1]) == Trace(r.state, t.log + Stamp(r.alerts, es[k].now))
  {
    assert es[..k + 1][..k] == es[..k];
  }

  /** A trace together with the exit code the process ended with, if it ended. */
  datatype Halted = Halted(trace: Trace, exitCode: Option<int>)

  /**
   * The main loop as written, over a stretch of the log: once a line is fatal, the process
   * has exited and the rest of the stretch is never read.
   */
  function RunAsWritten(cfg: Config, s: DetectorState, ins: seq<Input>): Halted {
    if ins == [] then Halted(Trace(s, []), None)
    else StepAsWritten(cfg, RunAsWritten(cfg, s, ins[..|ins| - 1]), ins[|ins| - 1])
  }

  /** One line read by the loop as written, unless the process has already exited. */
  function StepAsWritten(cfg: Config, h: Halted, input: Input): Halted {
    if h.exitCode.Some? then h
    else
      match DispositionAsWritten(input.line)
      case Fatal(c) => Halted(h.trace, Some(c))
      case Skip => h
      case Detect(rec) =>
        var r := Next(cfg, h.trace.state, rec, input.now);
        Halted(Trace(r.state, h.trace.log + Stamp(r.alerts, input.now)), None)
  }

  /** On any line that is not fatal as written, a step of the loop as written is a step of the detector. */
  lemma StepAsWrittenAgrees(cfg: Config, t: Trace, input: Input)
    requires !FatalAsWritten(input.line)
    ensures var r := React(cfg, t.state, Event(Perceive(input.line), input.now));
      StepAsWritten(cfg, Halted(t, None), input)
        == Halted(Trace(r.state, t.log + Stamp(r.alerts, input.now)), None)
  {
    if input.line.Object? {
      ReactToRecord(cfg, t.state, input.line.rec, input.now);
    } else {
      assert Perceive(input.line) == None;
      assert t.log + Stamp([], input.now) == t.log;
    }
  }

  /** As written, a fatal line ends the process with exit code 2 and leaves the trace as it was. */
  lemma StepAsWrittenOnFatal(cfg: Config, t: Trace, input: Input)
    requires FatalAsWritten(input.line)
    ensures StepAsWritten(cfg, Halted(t, None), input) == Halted(t, Some(2))
  {
  }

  /** Once the process has exited, no further line has any effect. */
  lemma StepAsWrittenAfterExit(cfg: Config, h: Halted, input: Input)
    requires h.exitCode.Some?
    ensures StepAsWritten(cfg, h, input) == h
  {
  }

  /**
   * On a stretch of the log without a fatal line, the loop as written and the corrected
   * loop go through the same states and emit the same alerts, and neither exits.
   */
  lemma {:induction false} AsWrittenAgreesWithoutFatalLines(cfg: Config, s: DetectorState, ins: seq<Input>)
    requires forall i :: 0 <= i < |ins| ==> !FatalAsWritten(ins[i].line)
    ensures RunAsWritten(cfg, s, ins) == Halted(Run(cfg, s, Events(ins)), None)
  {
    if ins != [] {
      var n := |ins|;
      var init := ins[..n - 1];
      var last := ins[n - 1];
      AsWrittenAgreesWithoutFatalLines(cfg, s, init);
      RunEventsOneMore(cfg, s, ins);
      StepAsWrittenAgrees(cfg, Run(cfg, s, Events(init)), last);
    }
  }

  /** The corrected loop over a stretch of the log, one line further. */
  lemma RunEventsOneMore(cfg: Config, s: DetectorState, ins: seq<Input>)
    requires ins != []
    ensures var t := Run(cfg, s, Events(ins[..|ins| - 1]));
      var last := ins[|ins| - 1];
      var r := React(cfg, t.state, Event(Perceive(last.line), last.now));
      Run(cfg, s, Events(ins)) == Trace(r.state, t.log + Stamp(r.alerts, last.now))
  {
    var n := |ins|;
    var es := Events(ins);
    RunOneMore(cfg, s, es, n - 1);
    assert es[..n - 1] == Events(ins[..n - 1]);
    assert es[..n] == es;
  }

  /**
   * The loop as written stops at the first fatal line with exit code 2, in the state the
   * lines before it left, having emitted exactly their alerts.
   */
  lemma {:induction false} AsWrittenStopsAtFirstFatalLine(cfg: Config, s: DetectorState, ins: seq<Input>, j: nat)
    requires j < |ins| && FatalAsWritten(ins[j].line)
    requires forall i :: 0 <= i < j ==> !FatalAsWritten(ins[i].line)
    ensures RunAsWritten(cfg, s, ins) == Halted(Run(cfg, s, Events(ins[..j])), Some(2))
  {
    var n := |ins|;
    if j == n - 1 {
      AsWrittenStopsAtLastLine(cfg, s, ins);
    } else {
      var init := ins[..n - 1];
      assert init[..j] == ins[..j] && init[j] == ins[j];
      AsWrittenStopsAtFirstFatalLine(cfg, s, init, j);
      StepAsWrittenAfterExit(cfg, RunAsWritten(cfg, s, init), ins[n - 1]);
    }
  }

  /** The loop as written, on a stretch whose only fatal line is its last one. */
  lemma AsWrittenStopsAtLastLine(cfg: Config, s: DetectorState, ins: seq<Input>)
    requires ins != [] && FatalAsWritten(ins[|ins| - 1].line)
    requires forall i :: 0 <= i < |ins| - 1 ==> !FatalAsWritten(ins[i].line)
    ensures RunAsWritten(cfg, s, ins) == Halted(Run(cfg, s, Events(ins[..|ins| - 1])), Some(2))
  {
    var init := ins[..|ins| - 1];
    AsWrittenAgreesWithoutFatalLines(cfg, s, init);
    StepAsWrittenOnFatal(cfg, Run(cfg, s, Events(init)), ins[|ins| - 1]);
  }

  /** The clock readings of a stream of events, in stream order. */
  function Clock(es: seq<Event>): (r: seq<real>)
    ensures |r| == |es|
    ensures forall i :: 0 <= i < |es| ==> r[i] == es[i].now
  {
    if es == [] then [] else Clock(es[..|es| - 1]) + [es[|es| - 1].now]
  }

  /** Every entry of `log` carries one of the clock readings `times`. */
  predicate StampedFrom(log: seq<Stamped>, times: seq<real>) {
    forall k :: 0 <= k < |log| ==> log[k].at in times
  }

  /** Every alert in the log of a stream is stamped with the clock reading of one of its events. */
  lemma {:induction false} StampsAreEventTimes(cfg: Config, s: DetectorState, es: seq<Event>)
    ensures StampedFrom(Run(cfg, s, es).log, Clock(es))
  {
    if es != [] {
      var n := |es|;
      var prev := Run(cfg, s, es[..n - 1]);
      var now := es[n - 1].now;
      var r := React(cfg, prev.state, es[n - 1]);
      StampsAreEventTimes(cfg, s, es[..n - 1]);
      var log := prev.log + Stamp(r.alerts, now);
      assert Run(cfg, s, es).log == log;
      var before := Clock(es[..n - 1]);
      assert Clock(es) == before + [now];
      assert StampedFrom(prev.log, before);
      forall k | 0 <= k < |log|
        ensures log[k].at in Clock(es)
      {
        if k < |prev.log| {
          assert log[k] == prev.log[k];
          assert prev.log[k].at in before;
        } else {
          assert log[k].at == now;
        }
      }
    }
  }

  /** The clock readings of the events never go backwards. */
  predicate InClockOrder(es: seq<Event>) {
    forall i, j :: 0 <= i <= j < |es| ==> es[i].now <= es[j].now
  }

  /** The stamps of a log never go backwards and none is later than `bound`. */
  predicate StampedInOrder(log: seq<Stamped>, bound: real) {
    && (forall k, l :: 0 <= k <= l < |log| ==> log[k].at <= log[l].at)
    && (forall k :: 0 <= k < |log| ==> log[k].at <= bound)
  }

  lemma StampedInOrderAppend(a: seq<Stamped>, b: seq<Stamped>, before: real, now: real)
    requires StampedInOrder(a, before) && before <= now
    requires forall k :: 0 <= k < |b| ==> b[k].at == now
    ensures StampedInOrder(a + b, now)
  {
    var log := a + b;
    forall k, l | 0 <= k <= l < |log|
      ensures log[k].at <= log[l].at
    {
      if l < |a| {
        assert log[k] == a[k] && log[l] == a[l];
      } else if k < |a| {
        assert log[k] == a[k] && log[l] == b[l - |a|];
      } else {
        assert log[k] == b[k - |a|] && log[l] == b[l - |a|];
      }
    }
  }

  /**
   * With a clock that never goes backwards, the log lists the alerts in the order they were
   * decided, each stamped no later than the latest event.
   */
  lemma {:induction false} StampsInOrder(cfg: Config, s: DetectorState, es: seq<Event>)
    requires es != [] && InClockOrder(es)
    ensures StampedInOrder(Run(cfg, s, es).log, es[|es| - 1].now)
  {
    var n := |es|;
    var prev := Run(cfg, s, es[..n - 1]);
    var now := es[n - 1].now;
    var r := React(cfg, prev.state, es[n - 1]);
    assert Run(cfg, s, es).log == prev.log + Stamp(r.alerts, now);
    if n > 1 {
      var init := es[..n - 1];
      assert InClockOrder(init) by {
        forall i, j | 0 <= i <= j < |init|
          ensures init[i].now <= init[j].now
        {
          assert init[i] == es[i] && init[j] == es[j];
        }
      }
      StampsInOrder(cfg, s, init);
      assert init[n - 2] == es[n - 2];
      StampedInOrderAppend(prev.log, Stamp(r.alerts, now), es[n - 2].now, now);
    } else {
      assert prev.log == [];
      StampedInOrderAppend(prev.log, Stamp(r.alerts, now), now, now);
    }
  }

  /** Starting from a valid state, the invariant holds after any stretch of the log. */
  lemma {:induction false} StreamKeepsValid(cfg: Config, s: DetectorState, ins: seq<Input>)
    requires Valid(cfg, s)
    ensures Valid(cfg, Run(cfg, s, Events(ins)).state)
  {
    if ins != [] {
      var init := ins[..|ins| - 1];
      assert Events(ins)[..|ins| - 1] == Events(init);
      StreamKeepsValid(cfg, s, init);
      LineKeepsValid(cfg, Run(cfg, s, Events(init)).state, ins[|ins| - 1].line, ins[|ins| - 1].now);
    }
  }

  /** The decision times of the alerts of one kind, in order. */
  function Times(log: seq<Stamped>, kind: AlertKind): seq<real> {
    if log == [] then []
    else
      var last := log[|log| - 1];
      Times(log[..|log| - 1], kind) + (if KindOf(last.alert) == kind then [last.at] else [])
  }

  lemma {:induction false} TimesAppend(a: seq<Stamped>, b: seq<Stamped>, kind: AlertKind)
    ensures Times(a + b, kind) == Times(a, kind) + Times(b, kind)
  {
    if b != [] {
      TimesAppend(a, b[..|b| - 1], kind);
      assert (a + b)[..|a + b| - 1] == a + b[..|b| - 1];
    } else {
      assert a + b == a;
    }
  }

  /**
   * Per kind, one record emits at most one alert, only when its cooldown has elapsed, and
   * the kind's timestamp moves to `now` exactly when it does; otherwise it is untouched.
   */
  lemma CooldownGate(cfg: Config, s: DetectorState, pool: string, code: int, now: real, kind: AlertKind)
    ensures var r := Observe(cfg, s, pool, code, now);
      var ts := Times(Stamp(r.alerts, now), kind);
      && (ts == [] || (ts == [now] && now - LastTs(s, kind) >= cfg.cooldown as real))
      && LastTs(r.state, kind) == (if ts == [] then LastTs(s, kind) else now)
  {
    var rs := ErrorRateStep(cfg, s.window, s.lastErrorRateAlertTs, code, now);
    var fs := FailoverStep(cfg, s.lastPool, s.lastFailoverAlertTs, pool, code, now);
    RateStepGate(cfg, s.window, s.lastErrorRateAlertTs, code, now);
    FailoverStepGate(cfg, s.lastPool, s.lastFailoverAlertTs, pool, code, now);
    var r := Observe(cfg, s, pool, code, now);
    assert r.alerts == rs.alerts + fs.alerts;
    assert r.state.lastErrorRateAlertTs == rs.lastTs && r.state.lastFailoverAlertTs == fs.lastTs;
    var ra := Stamp(rs.alerts, now);
    var fa := Stamp(fs.alerts, now);
    StampAppend(rs.alerts, fs.alerts, now);
    TimesAppend(ra, fa, kind);
    TimesOfOne(ra, kind);
    TimesOfOne(fa, kind);
  }

  /** The error-rate half emits at most one alert, of its own kind, and only past the cooldown. */
  lemma RateStepGate(cfg: Config, window: seq<bool>, lastTs: real, code: int, now: real)
    ensures var o := ErrorRateStep(cfg, window, lastTs, code, now);
      || (o.alerts == [] && o.lastTs == lastTs)
      || (|o.alerts| == 1 && o.alerts[0].ErrorRateAlert? && o.lastTs == now
          && now - lastTs >= cfg.cooldown as real)
  {
  }

  /** The failover half emits at most one alert, of its own kind, and only past the cooldown. */
  lemma FailoverStepGate(cfg: Config, lastPool: string, lastTs: real, pool: string, code: int, now: real)
    ensures var o := FailoverStep(cfg, lastPool, lastTs, pool, code, now);
      || (o.alerts == [] && o.lastTs == lastTs)
      || (|o.alerts| == 1 && o.alerts[0].FailoverAlert? && o.lastTs == now
          && now - lastTs >= cfg.cooldown as real)
  {
  }

  /** Stamping distributes over concatenation. */
  lemma {:induction false} StampAppend(a: seq<Alert>, b: seq<Alert>, at: real)
    ensures Stamp(a + b, at) == Stamp(a, at) + Stamp(b, at)
  {
    if a != [] {
      assert (a + b)[1..] == a[1..] + b;
      StampAppend(a[1..], b, at);
    } else {
      assert a + b == b;
    }
  }

  /** The times of a log of at most one alert. */
  lemma TimesOfOne(log: seq<Stamped>, kind: AlertKind)
    requires |log| <= 1
    ensures Times(log, kind) == (if log != [] && KindOf(log[0].alert) == kind then [log[0].at] else [])
  {
    if log != [] {
      assert log[..0] == [];
    }
  }

  /** The same gate for any event: a skipped line emits nothing and keeps both timestamps. */
  lemma CooldownGateEvent(cfg: Config, s: DetectorState, e: Event, kind: AlertKind)
    ensures var r := React(cfg, s, e);
      var ts := Times(Stamp(r.alerts, e.now), kind);
      && (ts == [] || (ts == [e.now] && e.now - LastTs(s, kind) >= cfg.cooldown as real))
      && LastTs(r.state, kind) == (if ts == [] then LastTs(s, kind) else e.now)
  {
    if e.obs.Some? {
      CooldownGate(cfg, s, e.obs.value.pool, e.obs.value.code, e.now, kind);
    } else {
      assert Stamp([], e.now) == [];
    }
  }

  /**
   * The decision times `ts` of one kind are at least `gap` apart, the first at least `gap`
   * after `init`.
   */
  predicate Spaced(ts: seq<real>, init: real, gap: real) {
    (ts != [] ==> ts[0] - init >= gap)
    && forall k :: 0 <= k < |ts| - 1 ==> ts[k + 1] - ts[k] >= gap
  }

  /** The latest of the times `ts`, or `init` when there are none. */
  function Latest(ts: seq<real>, init: real): real {
    if ts == [] then init else ts[|ts| - 1]
  }

  lemma SpacedExtend(ts: seq<real>, init: real, gap: real, now: real)
    requires Spaced(ts, init, gap) && now - Latest(ts, init) >= gap
    ensures Spaced(ts + [now], init, gap)
  {
    var ts' := ts + [now];
    forall k | 0 <= k < |ts'| - 1
      ensures ts'[k + 1] - ts'[k] >= gap
    {
      if k < |ts| - 1 {
        assert ts'[k] == ts[k] && ts'[k + 1] == ts[k + 1];
      }
    }
  }

  /**
   * Along any stream, two consecutive alerts of one kind are decided at least the cooldown
   * apart (the first one at least the cooldown after the initial timestamp), and the
   * kind's timestamp is the decision time of its latest alert.
   */
  lemma {:induction false} AlertsRespectCooldown(cfg: Config, s: DetectorState, es: seq<Event>, kind: AlertKind)
    ensures var t := Run(cfg, s, es);
      var ts := Times(t.log, kind);
      && Spaced(ts, LastTs(s, kind), cfg.cooldown as real)
      && LastTs(t.state, kind) == Latest(ts, LastTs(s, kind))
  {
    if es != [] {
      var prev := Run(cfg, s, es[..|es| - 1]);
      var e := es[|es| - 1];
      var r := React(cfg, prev.state, e);
      assert Run(cfg, s, es) == Trace(r.state, prev.log + Stamp(r.alerts, e.now));
      AlertsRespectCooldown(cfg, s, es[..|es| - 1], kind);
      CooldownGateEvent(cfg, prev.state, e, kind);
      TimesAppend(prev.log, Stamp(r.alerts, e.now), kind);
      var before := Times(prev.log, kind);
      var added := Times(Stamp(r.alerts, e.now), kind);
      if added != [] {
        SpacedExtend(before, LastTs(s, kind), cfg.cooldown as real, e.now);
      } else {
        assert before + added == before;
      }
    }
  }

  /** In maintenance mode no failover alert is ever emitted, whatever the stream. */
  lemma {:induction false} MaintenanceSilencesFailover(cfg: Config, s: DetectorState, es: seq<Event>)
    requires cfg.maintenance
    ensures Times(Run(cfg, s, es).log, Failover) == []
  {
    if es != [] {
      var prev := Run(cfg, s, es[..|es| - 1]);
      var i := es[|es| - 1];
      var r := React(cfg, prev.state, i);
      MaintenanceSilencesFailover(cfg, s, es[..|es| - 1]);
      CooldownGateEvent(cfg, prev.state, i, Failover);
      TimesAppend(prev.log, Stamp(r.alerts, i.now), Failover);
    }
  }

  /**
   * The pool of the latest record in the stream that carries a non-empty pool and a
   * success code, or `initial` when there is none.
   */
  function LatestSuccessfulPool(es: seq<Event>, initial: string): string {
    if es == [] then initial
    else
      var obs := es[|es| - 1].obs;
      if obs.Some? && obs.value.pool != [] && 200 <= obs.value.code <= 399 then
        obs.value.pool
      else
        LatestSuccessfulPool(es[..|es| - 1], initial)
  }

  /**
   * After any stream the active pool is the pool of the latest successful record, whether
   * or not alerts fired or were suppressed.
   */
  lemma {:induction false} ActivePoolIsLatestSuccessfulPool(cfg: Config, s: DetectorState, es: seq<Event>)
    ensures Run(cfg, s, es).state.lastPool == LatestSuccessfulPool(es, s.lastPool)
  {
    if es != [] {
      ActivePoolIsLatestSuccessfulPool(cfg, s, es[..|es| - 1]);
      var prev := Run(cfg, s, es[..|es| - 1]);
      var e := es[|es| - 1];
      if e.obs.Some? {
        ActivePoolFollowsSuccess(cfg, prev.state, e.obs.value.pool, e.obs.value.code, e.now);
      }
    }
  }

  /** The error flags of the records of a stream, in order. */
  function Outcomes(es: seq<Event>): seq<bool> {
    if es == [] then []
    else
      var obs := es[|es| - 1].obs;
      Outcomes(es[..|es| - 1]) + (if obs.Some? then [IsError(obs.value.code)] else [])
  }

  lemma LastNOfLastN(a: seq<bool>, x: bool, n: nat)
    ensures LastN(LastN(a, n) + [x], n) == LastN(a + [x], n)
  {
    if |a| > n && n > 0 {
      assert LastN(a, n) + [x] == a[|a| - n..] + [x];
      assert (a[|a| - n..] + [x])[1..] == (a + [x])[|a| + 1 - n..];
    }
  }

  /**
   * After any stream the window is the latest `WINDOW_SIZE` outcomes: the earlier
   * contents followed by the stream's records, cut to capacity from the old end.
   */
  lemma {:induction false} WindowIsLatestOutcomes(cfg: Config, s: DetectorState, es: seq<Event>)
    requires |s.window| <= cfg.windowSize
    ensures Run(cfg, s, es).state.window == LastN(s.window + Outcomes(es), cfg.windowSize)
  {
    if es == [] {
      assert s.window + [] == s.window;
    } else {
      var init := es[..|es| - 1];
      var e := es[|es| - 1];
      var t := Run(cfg, s, init).state;
      WindowIsLatestOutcomes(cfg, s, init);
      ReactWindow(cfg, t, e);
      assert Run(cfg, s, es).state == React(cfg, t, e).state;
      if e.obs.Some? {
        var x := IsError(e.obs.value.code);
        LastNOfLastN(s.window + Outcomes(init), x, cfg.windowSize);
        assert Outcomes(es) == Outcomes(init) + [x];
        assert s.window + Outcomes(es) == s.window + Outcomes(init) + [x];
      } else {
        assert Outcomes(es) == Outcomes(init);
      }
    }
  }

  /** An event changes the window only by appending its record's outcome. */
  lemma ReactWindow(cfg: Config, s: DetectorState, e: Event)
    ensures React(cfg, s, e).state.window
      == (if e.obs.Some? then Appended(s.window, IsError(e.obs.value.code), cfg.windowSize) else s.window)
  {
  }
}
