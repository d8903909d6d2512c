/**
 * The watcher's process-wide state as an object: `last_pool`, the `window` deque and the
 * two last-fired timestamps, updated in place record by record. Each method is proved to
 * do what the corresponding function of `Detection` says.
 */
module Watching {
  import opened PyText
  import opened StatusExtraction
  import opened ErrorWindows
  import opened Detection

  class Watcher {
    const cfg: Config
    var lastPool: string
    const window: ErrorWindow
    var lastErrorRateAlertTs: real
    var lastFailoverAlertTs: real

    ghost predicate Valid()
      reads this, window, window.data
    {
      window.Valid() && window.capacity == cfg.windowSize
    }

    /** The detector state this object holds. */
    ghost function State(): DetectorState
      reads this, window
    {
      DetectorState(lastPool, window.Contents, lastErrorRateAlertTs, lastFailoverAlertTs)
    }

    /** Start-up: the configured active pool, normalised; an empty window; timestamps 0.0. */
    constructor (activePool: string, windowSize: nat, threshold: real, cooldown: int, maintenance: bool)
      ensures Valid() && fresh(window) && fresh(window.data)
      ensures cfg == Config(windowSize, threshold, cooldown, maintenance)
      ensures State() == Initial(activePool)
    {
      var pool := Normalize(activePool);
      var w := new ErrorWindow(windowSize);
      cfg := Config(windowSize, threshold, cooldown, maintenance);
      lastPool := pool;
      window := w;
      lastErrorRateAlertTs := 0.0;
      lastFailoverAlertTs := 0.0;
      new;
      assert State() == DetectorState(pool, [], 0.0, 0.0);
    }

    /**
     * `alert_error_rate`: consumes the error-rate cooldown at decision time and hands the
     * alert to the sink, or does nothing while the cooldown runs.
     */
    method AlertErrorRate(errors: nat, total: nat, now: real) returns (sent: seq<Alert>)
      modifies this`lastErrorRateAlertTs
      ensures CooldownOk(now, old(lastErrorRateAlertTs), cfg.cooldown) ==>
        sent == [ErrorRateAlert(errors, total)] && lastErrorRateAlertTs == now
      ensures !CooldownOk(now, old(lastErrorRateAlertTs), cfg.cooldown) ==>
        sent == [] && lastErrorRateAlertTs == old(lastErrorRateAlertTs)
    {
      if !CooldownOk(now, lastErrorRateAlertTs, cfg.cooldown) {
        return [];
      }
      lastErrorRateAlertTs := now;
      sent := [ErrorRateAlert(errors, total)];
    }

    /**
     * `alert_failover`: consumes the failover cooldown at decision time and hands the
     * alert to the sink, or does nothing while the cooldown runs.
     */
    method AlertFailover(prev: string, newPool: string, now: real) returns (sent: seq<Alert>)
      modifies this`lastFailoverAlertTs
      ensures CooldownOk(now, old(lastFailoverAlertTs), cfg.cooldown) ==>
        sent == [FailoverAlert(prev, newPool)] && lastFailoverAlertTs == now
      ensures !CooldownOk(now, old(lastFailoverAlertTs), cfg.cooldown) ==>
        sent == [] && lastFailoverAlertTs == old(lastFailoverAlertTs)
    {
      if !CooldownOk(now, lastFailoverAlertTs, cfg.cooldown) {
        return [];
      }
      lastFailoverAlertTs := now;
      sent := [FailoverAlert(prev, newPool)];
    }

    /** The error-rate part of the loop body: record the outcome, then check the error rate. */
    method TrackErrorRate(code: int, now: real) returns (alerts: seq<Alert>)
      requires Valid()
      modifies this`lastErrorRateAlertTs, window, window.data
      ensures Valid()
      ensures RateOutcome(window.Contents, lastErrorRateAlertTs, alerts)
        == ErrorRateStep(cfg, old(window.Contents), old(lastErrorRateAlertTs), code, now)
    {
      window.Append(IsError(code));
      alerts := [];
      var n := window.Length();
      if n >= MinFill(cfg.windowSize) {
        var errors := window.CountErrors();
        if ErrorRatePercent(errors, n) > cfg.threshold {
          alerts := AlertErrorRate(errors, n, now);
        }
      }
    }

    /** The failover part of the loop body: detect a cut-over and alert on it. */
    method DetectFailover(pool: string, code: int, now: real) returns (alerts: seq<Alert>)
      requires Valid()
      modifies this`lastPool, this`lastFailoverAlertTs
      ensures Valid()
      ensures PoolOutcome(lastPool, lastFailoverAlertTs, alerts)
        == FailoverStep(cfg, old(lastPool), old(lastFailoverAlertTs), pool, code, now)
    {
      alerts := [];
      if pool != [] && pool != lastPool {
        if 200 <= code <= 399 {
          if !cfg.maintenance {
            var prev := lastPool;
            lastPool := pool;
            alerts := AlertFailover(prev, pool, now);
          } else {
            lastPool := pool;
          }
        }
      }
    }

    /**
     * The detection part of the loop body in `main`, for a record whose normalised pool
     * is `pool` and whose status code is `code`.
     */
    method Observe(pool: string, code: int, now: real) returns (alerts: seq<Alert>)
      requires Valid()
      modifies this, window, window.data
      ensures Valid()
      ensures StepResult(State(), alerts) == Detection.Observe(cfg, old(State()), pool, code, now)
    {
      ghost var s := State();
      ghost var r := ErrorRateStep(cfg, s.window, s.lastErrorRateAlertTs, code, now);
      ghost var f := FailoverStep(cfg, s.lastPool, s.lastFailoverAlertTs, pool, code, now);
      var rateAlerts := TrackErrorRate(code, now);
      assert lastPool == s.lastPool && lastFailoverAlertTs == s.lastFailoverAlertTs;
      ghost var w := window.Contents;
      var failoverAlerts := DetectFailover(pool, code, now);
      assert window.Contents == w;
      alerts := rateAlerts + failoverAlerts;
      assert State() == DetectorState(f.lastPool, r.window, r.lastTs, f.lastTs);
    }

    /** The body of the loop in `main` for one decoded record, at clock `now`. */
    method Step(rec: Record, now: real) returns (alerts: seq<Alert>)
      requires Valid()
      modifies this, window, window.data
      ensures Valid()
      ensures StepResult(State(), alerts) == Next(cfg, old(State()), rec, now)
    {
      var pool := PoolOf(rec);
      var code := ParseStatusCode(rec.upstreamStatus, rec.status);
      alerts := Observe(pool, code, now);
    }

    /** One line of the log: records go through `Step`, every other line is skipped. */
    method ProcessLine(line: Line, now: real) returns (alerts: seq<Alert>)
      requires Valid()
      modifies this, window, window.data
      ensures Valid()
      ensures StepResult(State(), alerts) == React(cfg, old(State()), Event(Perceive(line), now))
    {
      match DispositionOf(line)
      case Detect(rec) =>
        ReactToRecord(cfg, State(), rec, now);
        alerts := Step(rec, now);
      case _ =>
        alerts := [];
    }

    /** The main loop over a finite stretch of the log, collecting the alerts it emits. */
    method Watch(ins: seq<Input>) returns (log: seq<Stamped>)
      requires Valid()
      modifies this, window, window.data
      ensures Valid()
      ensures Trace(State(), log) == Run(cfg, old(State()), Events(ins))
    {
      ghost var s0 := State();
      log := [];
      for k := 0 to |ins|
        invariant Valid()
        invariant Trace(State(), log) == Run(cfg, s0, Events(ins)[..k])
      {
        RunOneMore(cfg, s0, Events(ins), k);
        assert Events(ins)[k] == Event(Perceive(ins[k].line), ins[k].now);
        var alerts := ProcessLine(ins[k].line, ins[k].now);
        log := log + Stamp(alerts, ins[k].now);
      }
      assert Events(ins)[..|ins|] == Events(ins);
    }
  }
}
