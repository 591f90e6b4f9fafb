/** The sweep over (sharding bits, adapter) combinations: for each one the keyspace is
    flushed, the population loaded, memory sampled and both phases measured, and one
    result row is emitted, unless the load failed, in which case the sweep moves on. */
module Sweep {
  import opened Wrappers
  import opened Radix
  import opened Codec
  import opened Store
  import opened Adapters
  import opened Loader
  import opened Median

  /** The sharding widths the sweep runs over: 24 to 26 inclusive. */
  const FirstBits: nat := 24
  const LastBits: nat := 26

  /** The adapters in the order each width tries them. */
  const AdapterOrder: seq<Adapter> := [ZsetAdapter, SetAdapter, HashAdapter, FlatAdapter]

  datatype Combination = Combination(bits: nat, adapter: Adapter)

  /** The results of one phase's timed trials, one per run. */
  type Trials = s: seq<int> | |s| == Runs witness [0, 0, 0, 0, 0]

  /** What the timed phases of one combination did: the values each phase passed to
      `cas`, in order (hits are sampled from the population, misses drawn at random),
      and the figures each phase's trials measured. */
  datatype Measurement = Measurement(hitValues: seq<nat>, missValues: seq<nat>, hits: Trials, misses: Trials)

  /** One result row: `[name, 1 << bits, used_memory, read_ips, write_ips]`. */
  datatype Row = Row(kind: string, shards: nat, memory: nat, readIps: int, writeIps: int)

  /** What one combination does to the sweep: emits a row, is skipped because its load
      raised (the rescue around the load), or aborts the whole run because a timed `cas`
      raised (nothing rescues the timed phases). */
  datatype Verdict = Emit(row: Row) | Skip | Abort(error: Error)

  /** The rows written so far and, when the run ended early, the error that ended it. */
  datatype Report = Report(rows: seq<Row>, aborted: Option<Error>)

  /** Every width from `lo` to `hi`, each with the four adapters in order. */
  function Combinations(lo: nat, hi: nat): (cs: seq<Combination>)
    ensures |cs| == if lo <= hi then 4 * (hi - lo + 1) else 0
    ensures forall i :: 0 <= i < |cs| ==> cs[i] == Combination(lo + i / 4, AdapterOrder[i % 4])
    decreases if lo <= hi then hi - lo + 1 else 0
  {
    if lo > hi then []
    else
      var head := [Combination(lo, ZsetAdapter), Combination(lo, SetAdapter),
                   Combination(lo, HashAdapter), Combination(lo, FlatAdapter)];
      var rest := Combinations(lo + 1, hi);
      var cs := head + rest;
      assert forall i :: 4 <= i < |cs| ==> cs[i] == Combination(lo + i / 4, AdapterOrder[i % 4]) by {
        forall i | 4 <= i < |cs|
          ensures cs[i] == Combination(lo + i / 4, AdapterOrder[i % 4])
        {
          NextQuotient(i);
        }
      }
      cs
  }

  lemma NextQuotient(i: int)
    requires i >= 4
    ensures (i - 4) / 4 == i / 4 - 1 && (i - 4) % 4 == i % 4
  {
  }

  /** One timed phase: `cas` of each value in turn against the live keyspace. The first
      error reply raises out of the phase. */
  function TimedPhase(s: Store, a: Adapter, bits: nat, vs: seq<nat>): (r: Result<Store, Error>)
    ensures r.Ok? ==> r.value.limit == s.limit
    decreases |vs|
  {
    if |vs| == 0 then Ok(s)
    else
      match Cas(s, a, bits, vs[0])
      case Err(e) => Err(e)
      case Ok((t, _)) =>
        CasIsCoercedWrite(s, a, bits, vs[0]);
        TimedPhase(t, a, bits, vs[1..])
  }

  /** One combination: flush, load, sample memory, run the hit phase and then the miss
      phase, and emit the row. A load that raised skips the combination; a timed phase
      that raised aborts. The keyspace handed on is the one the step left; after an
      abort it is the one before the failing phase, which matters to no one, since
      nothing after an abort runs. */
  function Step(s: Store, c: Combination, pop: Population, memory: Store -> nat, m: Measurement): (r: (Store, Verdict)) {
    var loaded := Load(Flush(s), c.adapter, c.bits, pop);
    if loaded.failure.Some? then (loaded.store, Skip)
    else
      var used := memory(loaded.store);
      match TimedPhase(loaded.store, c.adapter, c.bits, m.hitValues)
      case Err(e) => (loaded.store, Abort(e))
      case Ok(afterHits) =>
        match TimedPhase(afterHits, c.adapter, c.bits, m.missValues)
        case Err(e) => (afterHits, Abort(e))
        case Ok(afterMisses) =>
          (afterMisses, Emit(Row(c.adapter.Name(), Pow2(c.bits), used, MiddleOf(m.hits), MiddleOf(m.misses))))
  }

  /** How one verdict extends the report of the combinations after it: an abort ends
      the report there, a skip adds nothing, an emitted row goes first. */
  function Then(v: Verdict, rest: Report): (r: Report) {
    match v
    case Abort(e) => Report([], Some(e))
    case Skip => rest
    case Emit(row) => Report([row] + rest.rows, rest.aborted)
  }

  /** The sweep, threading the keyspace from one combination to the next; an abort ends
      it, and nothing after it is reported. */
  function Run(s: Store, cs: seq<Combination>, pop: Population, memory: Store -> nat,
               measure: Combination -> Measurement): (r: Report)
    decreases |cs|
  {
    if |cs| == 0 then Report([], None)
    else
      var (t, verdict) := Step(s, cs[0], pop, memory, measure(cs[0]));
      Then(verdict, Run(t, cs[1..], pop, memory, measure))
  }

  /** The report a sequence of verdicts yields: the emitted rows in order, up to the
      first abort. */
  function Collect(vs: seq<Verdict>): (r: Report)
    ensures |r.rows| <= |vs|
  {
    if |vs| == 0 then Report([], None) else Then(vs[0], Collect(vs[1..]))
  }

  /** Each combination's verdict, every one evaluated against the same server. */
  function Verdicts(s: Store, cs: seq<Combination>, pop: Population, memory: Store -> nat,
                    measure: Combination -> Measurement): (vs: seq<Verdict>)
    ensures |vs| == |cs|
  {
    seq(|cs|, i requires 0 <= i < |cs| => Step(s, cs[i], pop, memory, measure(cs[i])).1)
  }

  /** Reference: the combinations evaluated each on its own against the same server,
      collected up to the first that aborts. */
  function Isolated(s: Store, cs: seq<Combination>, pop: Population, memory: Store -> nat,
                    measure: Combination -> Measurement): (r: Report)
  {
    Collect(Verdicts(s, cs, pop, memory, measure))
  }

  lemma {:induction false} LoadKeepsLimit(s: Store, a: Adapter, bits: nat, pop: Population)
    ensures Load(s, a, bits, pop).store.limit == s.limit
    decreases |pop|
  {
    if |pop| > 0 {
      LoadKeepsLimit(RunBatch(s, a, bits, pop[0]).store, a, bits, pop[1..]);
    }
  }

  /** A step hands on a keyspace under the same server configuration. */
  lemma StepKeepsLimit(s: Store, c: Combination, pop: Population, memory: Store -> nat, m: Measurement)
    ensures Step(s, c, pop, memory, m).0.limit == s.limit
  {
    LoadKeepsLimit(Flush(s), c.adapter, c.bits, pop);
  }

  /** What a step does depends only on the server's configuration, never on the keys
      an earlier combination left behind. */
  lemma StepIgnoresPriorKeys(s1: Store, s2: Store, c: Combination, pop: Population, memory: Store -> nat, m: Measurement)
    requires s1.limit == s2.limit
    ensures Step(s1, c, pop, memory, m) == Step(s2, c, pop, memory, m)
  {
    assert Flush(s1) == Flush(s2);
  }

  /** The sweep emits exactly the rows the combinations produce in isolation, up to the
      first combination that aborts: a skipped combination emits nothing and changes
      nothing about the rows of the others. */
  lemma {:induction false} RunIsIsolated(s: Store, cs: seq<Combination>, pop: Population, memory: Store -> nat,
                                         measure: Combination -> Measurement)
    ensures Run(s, cs, pop, memory, measure) == Isolated(s, cs, pop, memory, measure)
    decreases |cs|
  {
    if |cs| > 0 {
      var t := Step(s, cs[0], pop, memory, measure(cs[0])).0;
      StepKeepsLimit(s, cs[0], pop, memory, measure(cs[0]));
      RunIsIsolated(t, cs[1..], pop, memory, measure);
      VerdictsDependOnLimit(s, t, cs[1..], pop, memory, measure);
      var vs := Verdicts(s, cs, pop, memory, measure);
      assert vs[1..] == Verdicts(s, cs[1..], pop, memory, measure);
      assert Run(s, cs, pop, memory, measure) == Then(vs[0], Run(t, cs[1..], pop, memory, measure));
    }
  }

  lemma VerdictsDependOnLimit(s1: Store, s2: Store, cs: seq<Combination>, pop: Population,
                               memory: Store -> nat, measure: Combination -> Measurement)
    requires s1.limit == s2.limit
    ensures Verdicts(s1, cs, pop, memory, measure) == Verdicts(s2, cs, pop, memory, measure)
  {
    forall i | 0 <= i < |cs|
      ensures Step(s1, cs[i], pop, memory, measure(cs[i])) == Step(s2, cs[i], pop, memory, measure(cs[i]))
    {
      StepIgnoresPriorKeys(s1, s2, cs[i], pop, memory, measure(cs[i]));
    }
  }

  /** The rows of the verdicts that emitted one, in order. */
  function Emitted(vs: seq<Verdict>): (rows: seq<Row>)
    ensures |rows| <= |vs|
  {
    if |vs| == 0 then [] else (if vs[0].Emit? then [vs[0].row] else []) + Emitted(vs[1..])
  }

  /** A combination that aborts ends the sweep: no more rows than the combinations
      before it, and the sweep reports an error. When it is the first to abort, the
      sweep reports exactly the rows emitted before it and the error it raised. */
  lemma AbortEndsSweep(s: Store, cs: seq<Combination>, pop: Population, memory: Store -> nat,
                       measure: Combination -> Measurement, i: nat)
    requires i < |cs| && Step(s, cs[i], pop, memory, measure(cs[i])).1.Abort?
    ensures |Run(s, cs, pop, memory, measure).rows| <= i
    ensures Run(s, cs, pop, memory, measure).aborted.Some?
    ensures (forall j :: 0 <= j < i ==> !Step(s, cs[j], pop, memory, measure(cs[j])).1.Abort?) ==>
              Run(s, cs, pop, memory, measure) ==
                Report(Emitted(Verdicts(s, cs, pop, memory, measure)[..i]),
                       Some(Step(s, cs[i], pop, memory, measure(cs[i])).1.error))
  {
    RunIsIsolated(s, cs, pop, memory, measure);
    CollectAbort(Verdicts(s, cs, pop, memory, measure), i);
  }

  /** An abort at position `i` leaves at most `i` rows and is reported; when it is the
      first abort, the report is exactly the rows emitted before it and its error. */
  lemma {:induction false} CollectAbort(vs: seq<Verdict>, i: nat)
    requires i < |vs| && vs[i].Abort?
    ensures |Collect(vs).rows| <= i
    ensures Collect(vs).aborted.Some?
    ensures (forall j :: 0 <= j < i ==> !vs[j].Abort?) ==>
              Collect(vs) == Report(Emitted(vs[..i]), Some(vs[i].error))
  {
    if i > 0 && !vs[0].Abort? {
      assert vs[1..][i - 1] == vs[i];
      assert vs[1..][..i - 1] == vs[..i][1..];
      CollectAbort(vs[1..], i - 1);
    }
  }

  /** With no abort the report is every emitted row, and no error. */
  lemma {:induction false} CollectClean(vs: seq<Verdict>)
    requires forall j :: 0 <= j < |vs| ==> !vs[j].Abort?
    ensures Collect(vs) == Report(Emitted(vs), None)
  {
    if |vs| > 0 {
      CollectClean(vs[1..]);
    }
  }

  /** When no combination aborts, the sweep reports the row of every combination that
      emitted one, in order, and no error. */
  lemma RunWithoutAbort(s: Store, cs: seq<Combination>, pop: Population, memory: Store -> nat,
                        measure: Combination -> Measurement)
    requires forall j :: 0 <= j < |cs| ==> !Step(s, cs[j], pop, memory, measure(cs[j])).1.Abort?
    ensures Run(s, cs, pop, memory, measure) == Report(Emitted(Verdicts(s, cs, pop, memory, measure)), None)
  {
    RunIsIsolated(s, cs, pop, memory, measure);
    CollectClean(Verdicts(s, cs, pop, memory, measure));
  }

  /** In a keyspace holding only the adapter's values, a timed phase keeps it so and
      within the ceiling, and can raise only because the ceiling is reached. */
  lemma {:induction false} TimedPhaseHomogeneous(s: Store, a: Adapter, bits: nat, vs: seq<nat>)
    requires Homogeneous(s, a) && WithinLimit(s)
    ensures var r := TimedPhase(s, a, bits, vs);
            (r.Ok? ==> Homogeneous(r.value, a) && WithinLimit(r.value)) &&
            (r.Err? ==> r.error == OutOfMemory && s.limit.AtMostKeys?)
    decreases |vs|
  {
    if |vs| > 0 {
      WriteKeepsHomogeneous(s, a, bits, vs[0]);
      CasIsCoercedWrite(s, a, bits, vs[0]);
      if Cas(s, a, bits, vs[0]).Ok? {
        TimedPhaseHomogeneous(Cas(s, a, bits, vs[0]).value.0, a, bits, vs[1..]);
      }
    }
  }

  /** After a clean load, a hit phase whose values all come from the population raises
      nothing and leaves the keyspace exactly as loaded. */
  lemma {:induction false} HitPhaseChangesNothing(s: Store, a: Adapter, bits: nat, pop: Population, vs: seq<nat>)
    requires Load(Flush(s), a, bits, pop).failure.None?
    requires forall i :: 0 <= i < |vs| ==> vs[i] in Flatten(pop)
    ensures var t := Load(Flush(s), a, bits, pop).store;
            TimedPhase(t, a, bits, vs) == Ok(t)
    decreases |vs|
  {
    if |vs| > 0 {
      CasAfterLoad(s, a, bits, pop, vs[0]);
      HitPhaseChangesNothing(s, a, bits, pop, vs[1..]);
    }
  }

  /** A step emits a row exactly when its load and both timed phases raised nothing;
      it is skipped exactly when the load raised, and aborts exactly when the load was
      clean but a timed `cas` raised. Either failure needs a server with a memory
      ceiling, and an abort is always that ceiling. The row names the adapter, counts
      `1 << bits` shards (one per possible prefix) and reports the medians of both phases. */
  lemma StepRow(s: Store, c: Combination, pop: Population, memory: Store -> nat, m: Measurement)
    ensures var loaded := Load(Flush(s), c.adapter, c.bits, pop);
            var verdict := Step(s, c, pop, memory, m).1;
            (verdict.Skip? <==> loaded.failure.Some?) &&
            (verdict.Emit? <==>
               loaded.failure.None? &&
               TimedPhase(loaded.store, c.adapter, c.bits, m.hitValues).Ok? &&
               TimedPhase(TimedPhase(loaded.store, c.adapter, c.bits, m.hitValues).value,
                          c.adapter, c.bits, m.missValues).Ok?) &&
            (verdict.Abort? ==> verdict.error == OutOfMemory) &&
            (!verdict.Emit? ==> s.limit.AtMostKeys?)
    ensures var verdict := Step(s, c, pop, memory, m).1;
            verdict.Emit? ==>
              verdict.row.kind == c.adapter.Name() &&
              verdict.row.memory == memory(Load(Flush(s), c.adapter, c.bits, pop).store) &&
              (forall v: nat :: Split(c.bits, v).prefix < verdict.row.shards) &&
              (forall p: nat :: p < verdict.row.shards ==> Split(c.bits, p).prefix == p) &&
              CountBelow(m.hits, verdict.row.readIps) <= 2 && CountAbove(m.hits, verdict.row.readIps) <= 2 &&
              CountBelow(m.misses, verdict.row.writeIps) <= 2 && CountAbove(m.misses, verdict.row.writeIps) <= 2
  {
    var loaded := Load(Flush(s), c.adapter, c.bits, pop);
    LoadAfterFlush(s, c.adapter, c.bits, pop);
    LoadHomogeneous(Flush(s), c.adapter, c.bits, pop);
    if loaded.failure.None? {
      TimedPhaseHomogeneous(loaded.store, c.adapter, c.bits, m.hitValues);
      LoadKeepsLimit(Flush(s), c.adapter, c.bits, pop);
      var hit := TimedPhase(loaded.store, c.adapter, c.bits, m.hitValues);
      if hit.Ok? {
        TimedPhaseHomogeneous(hit.value, c.adapter, c.bits, m.missValues);
      }
    }
    ReportedFigure(m.hits);
    ReportedFigure(m.misses);
    var p := Pow2(c.bits);
    forall v: nat | v < p
      ensures Split(c.bits, v).prefix == v
    {
      SplitCombine(c.bits, Shard(v, 0));
    }
  }

  /** Against a server with no memory ceiling the sweep never aborts and emits one row
      per combination. */
  lemma {:induction false} UnlimitedSweepEmitsEveryRow(s: Store, cs: seq<Combination>, pop: Population,
                                                       memory: Store -> nat, measure: Combination -> Measurement)
    requires s.limit.Unlimited?
    ensures Run(s, cs, pop, memory, measure).aborted.None?
    ensures |Run(s, cs, pop, memory, measure).rows| == |cs|
    decreases |cs|
  {
    if |cs| > 0 {
      StepRow(s, cs[0], pop, memory, measure(cs[0]));
      StepKeepsLimit(s, cs[0], pop, memory, measure(cs[0]));
      UnlimitedSweepEmitsEveryRow(Step(s, cs[0], pop, memory, measure(cs[0])).0, cs[1..], pop, memory, measure);
    }
  }

  /** The CSV header as written: four columns. */
  const Header: seq<string> := ["type", "shards", "memory", "ips"]

  /** The header the five-field rows call for. */
  const CorrectedHeader: seq<string> := ["type", "shards", "memory", "read_ips", "write_ips"]

  /** `to_s` of an integer. */
  function IntText(x: int): (t: string) {
    if x < 0 then "-" + Render(-x, 10) else Render(x, 10)
  }

  /** The fields of a row as CSV cells. */
  function Cells(r: Row): (cells: seq<string>) {
    [r.kind, Render(r.shards, 10), Render(r.memory, 10), IntText(r.readIps), IntText(r.writeIps)]
  }

  /** The data lines of the CSV file. */
  function Lines(rows: seq<Row>): (ls: seq<seq<string>>)
    ensures |ls| == |rows|
  {
    if |rows| == 0 then [] else [Cells(rows[0])] + Lines(rows[1..])
  }

  /** The CSV file as written: the four-column header, then the rows. */
  function AsWrittenCsv(rows: seq<Row>): (csv: seq<seq<string>>) {
    [Header] + Lines(rows)
  }

  /** The CSV file with a header naming all five fields. */
  function Csv(rows: seq<Row>): (csv: seq<seq<string>>) {
    [CorrectedHeader] + Lines(rows)
  }

  lemma {:induction false} LinesHaveFiveCells(rows: seq<Row>)
    ensures forall i :: 0 <= i < |Lines(rows)| ==> |Lines(rows)[i]| == 5
    decreases |rows|
  {
    if |rows| > 0 {
      LinesHaveFiveCells(rows[1..]);
      assert forall i :: 1 <= i < |Lines(rows)| ==> Lines(rows)[i] == Lines(rows[1..])[i - 1];
    }
  }

  /** As written, every data line has one cell more than the header has columns. */
  lemma HeaderArityMismatch(rows: seq<Row>)
    ensures var csv := AsWrittenCsv(rows);
            forall i :: 1 <= i < |csv| ==> |csv[i]| == |csv[0]| + 1
  {
    LinesHaveFiveCells(rows);
  }

  /** With the corrected header every line of the file has the same number of cells. */
  lemma CsvIsRectangular(rows: seq<Row>)
    ensures var csv := Csv(rows);
            forall i :: 0 <= i < |csv| ==> |csv[i]| == |csv[0]|
  {
    LinesHaveFiveCells(rows);
  }
}
