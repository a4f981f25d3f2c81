/**
 * From a capture file to alerts, along both paths the program has: the command line tool reads the file in Rust
 * (`cli/src/main.rs`), the application replays it in C and shares one engine with its pollers (`core-ffi/src/core.rs`).
 */
module Captures {
  import opened Ints
  import opened Wrappers
  import opened PacketTypes
  import opened FlowSpec
  import opened Parser
  import opened RuleSpec
  import opened EngineSpec
  import opened Engines
  import opened SharedCore
  import opened FlowTables
  import opened AlertQueue
  import PcapSpec
  import PcapFiles
  import PcapReplay

  function FrameOf(r: PcapSpec.Record): Frame {
    Frame(r.ts, r.wireLen, r.data)
  }

  function FramesOf(records: seq<PcapSpec.Record>): (frames: seq<Frame>)
    ensures |frames| == |records| && forall i :: 0 <= i < |records| ==>
              frames[i] == Frame(records[i].ts, records[i].wireLen, records[i].data)
  {
    seq(|records|, i requires 0 <= i < |records| => FrameOf(records[i]))
  }

  // ---------------------------------------------------------------- draining early or late

  /** The engine never looks at the alerts it holds: draining them between frames changes nothing else. */
  lemma DrainingCommutes(cfg: Config, st: EngineState, frame: Frame)
    requires cfg.limits.capacity > 0
    ensures var late, early := Process(cfg, st, frame).0, Process(cfg, st.(alerts := []), frame).0;
            late.alerts == st.alerts + early.alerts && late.(alerts := []) == early.(alerts := [])
  {
    hide Decode, EvaluateAll, Expire, TrackFlow, Count;
  }

  ghost predicate Drained(cfg: Config, specs: seq<Rule>, frames: seq<Frame>, st: EngineState, alerts: seq<Alert>)
    requires cfg.limits.capacity > 0
  {
    var all := RunEngine(cfg, Fresh(specs), frames);
    st == all.(alerts := []) && alerts == all.alerts
  }

  lemma {:induction false} DrainedSnoc(cfg: Config, specs: seq<Rule>, frames: seq<Frame>, st: EngineState,
                                       alerts: seq<Alert>, frame: Frame)
    requires cfg.limits.capacity > 0 && Drained(cfg, specs, frames, st, alerts)
    ensures var after := Process(cfg, st, frame).0;
            Drained(cfg, specs, frames + [frame], after.(alerts := []), alerts + after.alerts)
  {
    hide Process;
    assert (frames + [frame])[..|frames|] == frames;
    DrainingCommutes(cfg, RunEngine(cfg, Fresh(specs), frames), frame);
  }

  lemma {:induction false} DrainedStart(cfg: Config, specs: seq<Rule>)
    requires cfg.limits.capacity > 0
    ensures Drained(cfg, specs, [], Initial(Fresh(specs)), [])
  {
  }

  // ---------------------------------------------------------------- what a replay reports

  /** The snapshot is that of the engine after all these frames. */
  ghost predicate Summarises(cfg: Config, specs: seq<Rule>, frames: seq<Frame>, topN: nat, s: Snapshot)
    requires cfg.limits.capacity > 0
  {
    var st := RunEngine(cfg, Fresh(specs), frames);
    && s.counters == st.counters && s.lastTs == st.lastTs
    && s.activeFlows == |st.flows.flows| && s.evictedFlows == st.flows.evicted && s.expiredFlows == st.flows.expired
    && IsTop(st.flows.flows, topN, s.topFlows)
  }

  function AlertsOf(cfg: Config, specs: seq<Rule>, frames: seq<Frame>): seq<Alert>
    requires cfg.limits.capacity > 0
  {
    RunEngine(cfg, Fresh(specs), frames).alerts
  }

  /** Reports a drained engine; the run it has made is known from `Drained`. */
  method Summarise(engine: Engine, specs: seq<Rule>, ghost frames: seq<Frame>, ghost alerts: seq<Alert>)
    returns (s: Snapshot)
    requires engine.Valid() && engine.config.limits.capacity > 0
    requires Drained(engine.config, specs, frames, engine.State(), alerts)
    ensures Summarises(engine.config, specs, frames, engine.topN, s) && alerts == AlertsOf(engine.config, specs, frames)
  {
    hide RunEngine, IsTop;
    s := engine.TakeSnapshot();
  }

  // ---------------------------------------------------------------- the command line tool

  datatype Report = Report(snapshot: Snapshot, alerts: seq<Alert>)

  /** Reads, processes and drains record by record; a file that cannot be read to its end gives no report. */
  method CommandLineReplay(data: bytes, splits: seq<nat>, limits: Limits, topN: nat, specs: seq<Rule>)
    returns (report: Option<Report>)
    requires limits.capacity > 0
    ensures match PcapFiles.ReadFile(data)
            case Err(_) => report.None?
            case Ok((link, records, stop)) =>
              if !stop.CleanEnd? then report.None?
              else && report.Some?
                   && Summarises(Config(link, limits), specs, FramesOf(records), topN, report.value.snapshot)
                   && report.value.alerts == AlertsOf(Config(link, limits), specs, FramesOf(records))
  {
    hide PcapSpec.LayoutOf, PcapSpec.Word, LinkFromRaw, PcapSpec.Contents, Summarises, AlertsOf;
    var source := new PcapFiles.Source(data, false, splits);
    var opening := PcapFiles.PcapReader.Open(source);
    if opening.Err? {
      return None;
    }
    report := ReplayRecords(opening.value, limits, topN, specs);
  }

  method ReplayRecords(reader: PcapFiles.PcapReader, limits: Limits, topN: nat, specs: seq<Rule>)
    returns (report: Option<Report>)
    requires limits.capacity > 0 && reader.inner.Valid() && !reader.inner.broken
    modifies reader.inner
    ensures var (records, stop) := PcapSpec.Contents(reader.Layout(), old(reader.inner.Rest()));
            if !stop.CleanEnd? then report.None?
            else && report.Some?
                 && Summarises(Config(reader.link, limits), specs, FramesOf(records), topN, report.value.snapshot)
                 && report.value.alerts == AlertsOf(Config(reader.link, limits), specs, FramesOf(records))
  {
    hide PcapSpec.Contents, PcapSpec.NextRecord, Process, Drained, Summarises, AlertsOf, Engine.Valid;
    var cfg := Config(reader.link, limits);
    var engine := new Engine(cfg, topN, specs);
    var alerts: seq<Alert> := [];
    var done: seq<PcapSpec.Record> := [];
    ghost var (all, stop) := PcapSpec.Contents(reader.Layout(), reader.inner.Rest());
    assert engine.rules.View == Fresh(specs);
    DrainedStart(cfg, specs);
    assert FramesOf(done) == [];
    while true
      invariant reader.inner.Valid() && fresh(engine.Repr) && engine.Valid() && engine.config == cfg && engine.topN == topN
      invariant all == done + PcapSpec.Contents(reader.Layout(), reader.inner.Rest()).0
      invariant stop == PcapSpec.Contents(reader.Layout(), reader.inner.Rest()).1
      invariant Drained(cfg, specs, FramesOf(done), engine.State(), alerts)
      decreases |reader.inner.Rest()|
    {
      PcapSpec.ContentsUnfold(reader.Layout(), reader.inner.Rest());
      assert done + [] == done;
      var next := reader.NextRecord();
      if next.Err? {
        return None;
      }
      if next.value.None? {
        break;
      }
      var record := next.value.value;
      assert done + ([record] + PcapSpec.Contents(reader.Layout(), reader.inner.Rest()).0)
             == done + [record] + PcapSpec.Contents(reader.Layout(), reader.inner.Rest()).0;
      DrainedSnoc(cfg, specs, FramesOf(done), engine.State(), alerts, FrameOf(record));
      assert FramesOf(done + [record]) == FramesOf(done) + [FrameOf(record)];
      var decoded := engine.Process(FrameOf(record));
      var raised := engine.DrainAlerts();
      done, alerts := done + [record], alerts + raised;
    }
    var snapshot := Summarise(engine, specs, FramesOf(done), alerts);
    report := Some(Report(snapshot, alerts));
  }

  // ---------------------------------------------------------------- the application

  /** What the application shows: the engine's snapshot, the alerts still queued, and the two alert counters. */
  datatype View = View(snapshot: Snapshot, queued: seq<Alert>, total: nat, dropped: nat)

  lemma NothingOverflows()
    ensures Newest<Alert>([]) == [] && Overflow(0) == 0
  {
  }

  /** Replays in C and ingests every delivered frame, while nobody polls; even a damaged file shows what it held. */
  method ApplicationReplay(data: bytes, limits: Limits, topN: nat, specs: seq<Rule>) returns (view: Option<View>)
    requires limits.capacity > 0
    ensures match PcapFiles.ReadFile(data)
            case Err(_) => view.None?
            case Ok((link, records, stop)) =>
              var alerts := AlertsOf(Config(link, limits), specs, FramesOf(records));
              && view.Some?
              && Summarises(Config(link, limits), specs, FramesOf(records), topN, view.value.snapshot)
              && view.value.queued == Newest(alerts) && view.value.total == |alerts|
              && view.value.dropped == Overflow(|alerts|)
  {
    hide Summarises, AlertsOf, PcapFiles.ReadFile, Newest;
    var replay := PcapReplay.ReplayInC(data, false);
    if replay.Rejected? {
      return None;
    }
    var v := IngestAll(Config(replay.link, limits), topN, specs, FramesOf(replay.records));
    view := Some(v);
  }

  method IngestAll(cfg: Config, topN: nat, specs: seq<Rule>, frames: seq<Frame>) returns (view: View)
    requires cfg.limits.capacity > 0
    ensures var alerts := AlertsOf(cfg, specs, frames);
            && Summarises(cfg, specs, frames, topN, view.snapshot)
            && view.queued == Newest(alerts) && view.total == |alerts| && view.dropped == Overflow(|alerts|)
  {
    hide Process, Drained, Summarises, AlertsOf, Engine.Valid, Newest, Overflow;
    var shared := new Shared(cfg, topN, specs);
    ghost var alerts: seq<Alert> := [];
    assert shared.engine.rules.View == Fresh(specs);
    DrainedStart(cfg, specs);
    NothingOverflows();
    for i := 0 to |frames|
      invariant fresh(shared.Repr) && shared.Valid() && shared.engine.config == cfg && shared.engine.topN == topN
      invariant Drained(cfg, specs, frames[..i], shared.engine.State(), alerts)
      invariant shared.alerts == Newest(alerts) && shared.alertsTotal == |alerts| && shared.alertsDropped == Overflow(|alerts|)
    {
      assert frames[..i + 1] == frames[..i] + [frames[i]];
      DrainedSnoc(cfg, specs, frames[..i], shared.engine.State(), alerts, frames[i]);
      ghost var raised := Process(cfg, shared.engine.State(), frames[i]).0.alerts;
      NewestOfMore(alerts, raised);
      shared.Ingest(frames[i]);
      alerts := alerts + raised;
    }
    assert frames[..|frames|] == frames;
    var snapshot := Summarise(shared.engine, specs, frames, alerts);
    view := View(snapshot, shared.alerts, shared.alertsTotal, shared.alertsDropped);
  }

  // ---------------------------------------------------------------- the same detections

  /**
   * On a complete capture file both paths report the same snapshot and raise the same alerts, of which the
   * application still queues the newest 1,024. On a damaged one only the application shows anything.
   */
  method SameDetections(data: bytes, splits: seq<nat>, limits: Limits, topN: nat, specs: seq<Rule>)
    returns (report: Option<Report>, view: Option<View>)
    requires limits.capacity > 0
    ensures report.Some? ==>
              && view.Some? && report.value.snapshot == view.value.snapshot
              && view.value.queued == Newest(report.value.alerts)
              && view.value.total == |report.value.alerts| && view.value.dropped == Overflow(|report.value.alerts|)
    ensures report.None? && view.Some? <==>
              PcapFiles.ReadFile(data).Ok? && !PcapFiles.ReadFile(data).value.2.CleanEnd?
  {
    hide PcapFiles.ReadFile, RunEngine, AlertsOf, Newest, Overflow, IsTop;
    report := CommandLineReplay(data, splits, limits, topN, specs);
    view := ApplicationReplay(data, limits, topN, specs);
    if report.Some? {
      ghost var (link, records, stop) := PcapFiles.ReadFile(data).value;
      TopIsUnique(RunEngine(Config(link, limits), Fresh(specs), FramesOf(records)).flows.flows, topN,
                  report.value.snapshot.topFlows, view.value.snapshot.topFlows);
    }
  }
}
