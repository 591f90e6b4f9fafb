/** Loading the population for one (adapter, bits) combination: one pipelined round
    trip per batch, stopping at the first batch that drew an error reply. */
module Loader {
  import opened Wrappers
  import opened Store
  import opened Adapters

  /** The population: batches of values. */
  type Population = seq<seq<nat>>

  /** Every value of the population, batch after batch. */
  function Flatten(pop: Population): (vs: seq<nat>)
    ensures forall i :: 0 <= i < |pop| ==> forall v :: v in pop[i] ==> v in vs
    ensures forall v :: v in vs ==> exists i :: 0 <= i < |pop| && v in pop[i]
  {
    if |pop| == 0 then [] else pop[0] + Flatten(pop[1..])
  }

  /** The keyspace after some writes, and the first error reply they drew, if any. */
  datatype Outcome = Outcome(store: Store, failure: Option<Error>)

  /** One `pipelined` block. The server runs every command of the batch; a refused
      command changes nothing, and the client raises the first error once the batch is done. */
  function RunBatch(s: Store, a: Adapter, bits: nat, batch: seq<nat>): (r: Outcome)
    ensures r.store.limit == s.limit
    decreases |batch|
  {
    if |batch| == 0 then Outcome(s, None)
    else
      match Write(s, a, bits, batch[0])
      case Ok((t, _)) =>
        RunBatch(t, a, bits, batch[1..])
      case Err(e) => Outcome(RunBatch(s, a, bits, batch[1..]).store, Some(e))
  }

  /** Loads the batches in order; the first failed batch ends the load. */
  function Load(s: Store, a: Adapter, bits: nat, pop: Population): (r: Outcome)
    decreases |pop|
  {
    if |pop| == 0 then Outcome(s, None)
    else
      var b := RunBatch(s, a, bits, pop[0]);
      if b.failure.Some? then b else Load(b.store, a, bits, pop[1..])
  }

  /** After a clean batch, exactly the batch's values have been added to what `read` sees. */
  lemma {:induction false} RunBatchRead(s: Store, a: Adapter, bits: nat, batch: seq<nat>, v: nat)
    requires RunBatch(s, a, bits, batch).failure.None?
    ensures Read(RunBatch(s, a, bits, batch).store, a, bits, v) ==
            if v in batch then Ok(true) else Read(s, a, bits, v)
    decreases |batch|
  {
    if |batch| > 0 {
      var t := Write(s, a, bits, batch[0]).value.0;
      RunBatchRead(t, a, bits, batch[1..], v);
      if v == batch[0] {
        ReadAfterWrite(s, a, bits, v);
      } else {
        WriteFrame(s, a, bits, batch[0], a, bits, v);
        assert v in batch <==> v in batch[1..];
      }
    }
  }

  /** After a clean load, exactly the population's values have been added to what `read` sees. */
  lemma {:induction false} LoadRead(s: Store, a: Adapter, bits: nat, pop: Population, v: nat)
    requires Load(s, a, bits, pop).failure.None?
    ensures Read(Load(s, a, bits, pop).store, a, bits, v) ==
            if v in Flatten(pop) then Ok(true) else Read(s, a, bits, v)
    decreases |pop|
  {
    if |pop| > 0 {
      var b := RunBatch(s, a, bits, pop[0]);
      LoadRead(b.store, a, bits, pop[1..], v);
      RunBatchRead(s, a, bits, pop[0], v);
    }
  }

  /** In a flushed keyspace nothing is present. */
  lemma ReadFlushed(s: Store, a: Adapter, bits: nat, v: nat)
    ensures Read(Flush(s), a, bits, v) == Ok(false)
  {
  }

  /** Loading into a flushed keyspace: when the load succeeds, `read` answers true exactly
      for the loaded values, so a value never written reads false. */
  lemma LoadedMembership(s: Store, a: Adapter, bits: nat, pop: Population, v: nat)
    requires Load(Flush(s), a, bits, pop).failure.None?
    ensures Read(Load(Flush(s), a, bits, pop).store, a, bits, v) == Ok(v in Flatten(pop))
  {
    LoadRead(Flush(s), a, bits, pop, v);
    ReadFlushed(s, a, bits, v);
  }

  /** A batch keeps a homogeneous keyspace homogeneous and within the server's ceiling,
      and can only be refused for lack of room. */
  lemma {:induction false} RunBatchHomogeneous(s: Store, a: Adapter, bits: nat, batch: seq<nat>)
    requires Homogeneous(s, a) && WithinLimit(s)
    ensures var r := RunBatch(s, a, bits, batch);
            Homogeneous(r.store, a) && WithinLimit(r.store) && r.store.limit == s.limit &&
            (r.failure.Some? ==> r.failure == Some(OutOfMemory) && s.limit.AtMostKeys?)
    decreases |batch|
  {
    if |batch| > 0 {
      WriteKeepsHomogeneous(s, a, bits, batch[0]);
      match Write(s, a, bits, batch[0])
      case Ok((t, _)) =>
        RunBatchHomogeneous(t, a, bits, batch[1..]);
      case Err(_) =>
        RunBatchHomogeneous(s, a, bits, batch[1..]);
    }
  }

  lemma {:induction false} LoadHomogeneous(s: Store, a: Adapter, bits: nat, pop: Population)
    requires Homogeneous(s, a) && WithinLimit(s)
    ensures var r := Load(s, a, bits, pop);
            Homogeneous(r.store, a) && WithinLimit(r.store) &&
            (r.failure.Some? ==> r.failure == Some(OutOfMemory) && s.limit.AtMostKeys?)
    decreases |pop|
  {
    if |pop| > 0 {
      RunBatchHomogeneous(s, a, bits, pop[0]);
      LoadHomogeneous(RunBatch(s, a, bits, pop[0]).store, a, bits, pop[1..]);
    }
  }

  /** A load after a flush never meets a key of the wrong kind, never exceeds the
      server's ceiling, and can fail only because that ceiling was reached. */
  lemma LoadAfterFlush(s: Store, a: Adapter, bits: nat, pop: Population)
    ensures var r := Load(Flush(s), a, bits, pop);
            WithinLimit(r.store) &&
            (r.failure.Some? ==> r.failure == Some(OutOfMemory) && s.limit.AtMostKeys?)
  {
    LoadHomogeneous(Flush(s), a, bits, pop);
  }

  /** What the measurement phases do to a loaded keyspace: `cas` of a loaded value (a hit)
      answers false and changes nothing; `cas` of any other value (a miss) answers true
      whenever it is accepted. */
  lemma CasAfterLoad(s: Store, a: Adapter, bits: nat, pop: Population, v: nat)
    requires Load(Flush(s), a, bits, pop).failure.None?
    ensures var t := Load(Flush(s), a, bits, pop).store;
            (v in Flatten(pop) ==> Cas(t, a, bits, v) == Ok((t, false))) &&
            (v !in Flatten(pop) && Cas(t, a, bits, v).Ok? ==> Cas(t, a, bits, v).value.1)
  {
    var t := Load(Flush(s), a, bits, pop).store;
    LoadedMembership(s, a, bits, pop, v);
    CasIsCoercedWrite(t, a, bits, v);
    LoadHomogeneous(Flush(s), a, bits, pop);
    if v in Flatten(pop) {
      WriteWhenPresent(t, a, bits, v);
    }
  }
}
