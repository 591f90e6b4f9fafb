/** Concrete instances of the key formats and of a small load. */
module Scenarios {
  import opened Wrappers
  import opened Radix
  import opened Codec
  import opened Keys
  import opened Store
  import opened Adapters
  import opened Loader
  import opened Sweep

  /** Width 4, value 200: prefix 200 % 16 = 8, member 200 >> 4 = 12, one flat key. */
  lemma FlatKeyOf200()
    ensures Split(4, 200) == Shard(8, 12)
    ensures Locate(FlatAdapter, 4, 200) == Standalone("bench:flat:04:8:c")
  {
    assert Pow2(4) == 16 && 200 % 16 == 8 && 200 / 16 == 12;
    assert Split(4, 200) == Shard(8, 12);
    assert Hex(8) == "8" && Hex(12) == "c" && Pad2(4) == "04";
    var fields := ["bench", "flat", "04", "8", "c"];
    assert Join(fields[3..]) == "8:c";
    assert Join(fields[2..]) == "04:8:c";
    assert Join(fields[1..]) == "flat:04:8:c";
    assert FlatKey(4, 8, 12) == Join(fields) == "bench:flat:04:8:c";
  }

  /** Width 0, value 42: the single shard `0` holds member `2a`. */
  lemma SetKeyOf42()
    ensures Locate(SetAdapter, 0, 42) == InShard("bench:set_:00:0", "2a")
  {
    SplitZeroBits(42);
    assert Hex(0) == "0" && Pad2(0) == "00";
    assert 42 / 16 == 2 && 42 % 16 == 10;
    assert Hex(42) == Hex(2) + [DigitChar(10)];
  }

  /** Loading the single value 42 with the set adapter at width 0: 42 reads true, 7 false. */
  lemma LoadFortyTwo(s: Store)
    requires s.limit.Unlimited?
    ensures Load(Flush(s), SetAdapter, 0, [[42]]).failure.None?
    ensures Read(Load(Flush(s), SetAdapter, 0, [[42]]).store, SetAdapter, 0, 42) == Ok(true)
    ensures Read(Load(Flush(s), SetAdapter, 0, [[42]]).store, SetAdapter, 0, 7) == Ok(false)
  {
    LoadAfterFlush(s, SetAdapter, 0, [[42]]);
    LoadedMembership(s, SetAdapter, 0, [[42]], 42);
    LoadedMembership(s, SetAdapter, 0, [[42]], 7);
    assert Flatten([[42]]) == [42];
  }

  /** The sweep as configured: twelve combinations, widths 24 to 26, four adapters each. */
  lemma ConfiguredSweep()
    ensures |Combinations(FirstBits, LastBits)| == 12
    ensures Combinations(FirstBits, LastBits)[0] == Combination(24, ZsetAdapter)
    ensures Combinations(FirstBits, LastBits)[11] == Combination(26, FlatAdapter)
  {
  }

  /** A server that fits one key: loading the single value 5 with the flat adapter at
      width 0 succeeds, but the miss phase's `cas` of 6 needs a second key, is refused,
      and aborts the sweep before its row is written. */
  lemma MissAbortsSweep(hits: Trials, misses: Trials, memory: Store -> nat)
    ensures var s := Store(map[], AtMostKeys(1));
            var c := Combination(0, FlatAdapter);
            Load(Flush(s), FlatAdapter, 0, [[5]]).failure.None? &&
            Step(s, c, [[5]], memory, Measurement([5], [6], hits, misses)).1 == Abort(OutOfMemory) &&
            Run(s, [c], [[5]], memory, (_: Combination) => Measurement([5], [6], hits, misses)) ==
              Report([], Some(OutOfMemory))
  {
    var s := Store(map[], AtMostKeys(1));
    var k5, k6 := Locate(FlatAdapter, 0, 5).key, Locate(FlatAdapter, 0, 6).key;
    SplitZeroBits(5);
    SplitZeroBits(6);
    assert Hex(5) == "5" && Hex(6) == "6" && Hex(0) == "0" && Pad2(0) == "00";
    assert k5 != k6 by {
      assert k5[|k5| - 1] == '5';
      assert k6[|k6| - 1] == '6';
    }
    var loaded := Load(Flush(s), FlatAdapter, 0, [[5]]);
    assert loaded.store.data == map[k5 := StringValue("1")];
    assert k6 !in loaded.store.data;
    var c := Combination(0, FlatAdapter);
    var m := Measurement([5], [6], hits, misses);
    assert Step(s, c, [[5]], memory, m).1 == Abort(OutOfMemory);
    assert Run(s, [c], [[5]], memory, (_: Combination) => m) ==
      Then(Abort(OutOfMemory), Run(Step(s, c, [[5]], memory, m).0, [], [[5]], memory, (_: Combination) => m));
  }
}
