# Membership-query benchmark: a Dafny model

This project models the core of the membership-query benchmark. The benchmark stores
a large population of random integers in a key-value server under four key layouts.
For each layout and sharding width it measures memory and `cas` throughput.

The model covers:

- **The sharding codec.** A value splits into `prefix = value % (1 << bits)` and
  `member = value >> bits`. Both halves are rendered in lower-case hex with no padding.
  They go into a colon-separated key under the `bench` namespace, with the width
  written `%02d`.
- **The four adapters** (`zset`, `set_`, `hash`, `flat`). Each one's
  `key`/`write`/`read`/`cas` runs against an in-memory keyspace of typed values.
  Only the commands the benchmark issues are modelled: `zadd`/`zscore`,
  `sadd`/`sismember`, `hset`/`hexists`, `setnx`/`exists` and `flushall`. The model
  includes two error replies: a key of the wrong kind, and a write refused because
  the memory ceiling is reached. The server has other error replies, which are not
  modelled (see Left out).
- **The pipelined load.** Every command of a batch runs. The client raises the
  batch's first error reply once the batch is done, and that ends the load.
- **Median selection.** The figure reported per phase is `sort[RUNS/2]` with `RUNS = 5`.
- **The sweep.** For each combination: flush, load, sample memory, then a hit phase
  and a miss phase of `cas` calls, then one result row. A load that raised is rescued
  and skips the combination. The timed phases have no rescue, so an error reply there
  ends the whole sweep. Rows are shaped as CSV lines.

Files:

| file | module | what it holds |
|---|---|---|
| `wrappers.dfy` | `Wrappers` | `Option`, `Result` |
| `radix.dfy` | `Radix` | `to_s(16)`, `%02d`, and a reference parser |
| `codec.dfy` | `Codec` | `1 << bits`, the split into prefix and member, and recombination |
| `keys.dfy` | `Keys` | colon-joined keys and their injectivity |
| `store.dfy` | `Store` | the keyspace, commands, replies and error replies |
| `adapters.dfy` | `Adapters` | the four adapters, their addresses and commands, and their laws |
| `loader.dfy` | `Loader` | batches, the pipelined load, membership after loading |
| `median.dfy` | `Median` | insertion sort, the middle element, the median characterisation |
| `sweep.dfy` | `Sweep` | combinations, the per-combination step, the sweep, CSV lines |
| `scenarios.dfy` | `Scenarios` | concrete keys and a one-value load |

Notes on the code:

- **Sweep order.** The sweep tries `zset`, `set`, `hash`, `flat` in that order
  (bench.rb:142-148).
- **Header.** The code writes a four-column CSV header; see Findings.
- **What `cas` returns.** `!! write` is false exactly when the value was already
  present (`Adapters.CasIsCoercedWrite`). This relies on the client's boolean replies
  to single-member `sadd`/`hset`/`zadd`/`setnx`. `cas` makes no separate existence check.
- **Timed phases can abort.** The `cas` calls of both timed phases (bench.rb:177 and
  bench.rb:192) sit outside the rescue of bench.rb:153-165. A miss needs a new key
  under the flat adapter, or a new key for a new shard, so a server at its memory
  ceiling refuses it and the script ends. `Scenarios.MissAbortsSweep` shows this with
  a one-key ceiling.
- **Keyspace after the timed phases.** The miss phase's `cas` inserts values, and the
  step hands on the keyspace the miss phase left. The next combination's flush erases
  those changes; `Sweep.StepIgnoresPriorKeys` shows that nothing depends on them.

## Model

| member | source | states |
|---|---|---|
| `Radix.Render` | images/posts/optimising-membership-queries/bench.rb:27-28 | `to_s(16)` (and the digits of `%d`) is non-empty and uses only digits of the base |
| `Radix.RenderHasNoLeadingZero` | images/posts/optimising-membership-queries/bench.rb:27-28 | `to_s(16)` has no leading zero: a rendering starting with `0` is the one-digit numeral for 0 |
| `Radix.ParseHex` | images/posts/optimising-membership-queries/bench.rb:27-28 | hex rendering parses back to the same number |
| `Radix.HexInjective` | images/posts/optimising-membership-queries/bench.rb:27-28 | distinct naturals render to distinct hex strings |
| `Radix.HexAlphabet` | images/posts/optimising-membership-queries/bench.rb:27-29 | hex uses only `0-9a-f`, so it never contains the `:` separator |
| `Radix.ParsePad2` | images/posts/optimising-membership-queries/bench.rb:29 | `%02d` zero padding parses back to the width itself |
| `Radix.Pad2Injective` | images/posts/optimising-membership-queries/bench.rb:29 | distinct widths give distinct `%02d` fields |
| `Radix.Pad2Shape` | images/posts/optimising-membership-queries/bench.rb:29 | the width field has at least two characters and no `:` |
| `Codec.Pow2` | images/posts/optimising-membership-queries/bench.rb:202 | `1 << bits` is at least 1 |
| `Codec.Split` | images/posts/optimising-membership-queries/bench.rb:27-28 | the prefix is below `2^bits`, the member is at most the value, and `prefix + member * 2^bits == value` |
| `Codec.CombineSplit` | images/posts/optimising-membership-queries/bench.rb:27-28 | recombining the two halves of a value gives the value back |
| `Codec.SplitCombine` | images/posts/optimising-membership-queries/bench.rb:27-28 | splitting a recombined in-range pair gives the pair back, so the codec is a bijection for fixed bits |
| `Codec.SplitInjective` | images/posts/optimising-membership-queries/bench.rb:27-28 | distinct values have distinct (prefix, member) pairs |
| `Codec.SplitZeroBits` | images/posts/optimising-membership-queries/bench.rb:27-28 | with zero bits the prefix is 0 and the member is the whole value |
| `Keys.JoinInjective` | images/posts/optimising-membership-queries/bench.rb:29 | colon-joined colon-free fields determine the fields and how many there are |
| `Keys.ShardKeyInjective` | images/posts/optimising-membership-queries/bench.rb:26-30 | a shard key determines the tag, the width and the prefix |
| `Keys.FlatKeyInjective` | images/posts/optimising-membership-queries/bench.rb:108-112 | a flat key determines the width, the prefix and the member |
| `Keys.ShardKeyIsNotFlatKey` | images/posts/optimising-membership-queries/bench.rb:108-112 | a four-field shard key never equals a five-field flat key |
| `Adapters.Adapter.Tag` | images/posts/optimising-membership-queries/bench.rb:29 | every namespace tag has four characters and no `:` |
| `Adapters.Locate` | images/posts/optimising-membership-queries/bench.rb:103-112 | only the flat adapter keeps a value in a key of its own |
| `Adapters.WriteAt` | images/posts/optimising-membership-queries/bench.rb:33-36 | `write` sends one write command, on the key of the value's address |
| `Adapters.ReadAt` | images/posts/optimising-membership-queries/bench.rb:38-41 | `read` sends one read-only command, on the key of the value's address |
| `Adapters.TagsDistinct` | images/posts/optimising-membership-queries/bench.rb:29-111 | the tags `zset`, `set_`, `hash`, `flat` are pairwise distinct |
| `Adapters.KeyDeterminesCombination` | images/posts/optimising-membership-queries/bench.rb:29-111 | equal keys imply the same adapter, width and prefix, so keys of different adapters or widths never collide |
| `Adapters.LocateInjective` | images/posts/optimising-membership-queries/bench.rb:26-31 | distinct (adapter, width, value) triples have distinct (key, member) addresses |
| `Adapters.ProbeAfterPut` | images/posts/optimising-membership-queries/bench.rb:88-96 | after a successful write at an address, the read there is true |
| `Adapters.ReadAfterWrite` | images/posts/optimising-membership-queries/bench.rb:33-41 | after a successful `write`, `read` of the same value and width is true |
| `Adapters.PutFrameOtherKey` | images/posts/optimising-membership-queries/bench.rb:114-122 | a write at one key leaves the read at every other key unchanged |
| `Adapters.WriteFrameOtherKey` | images/posts/optimising-membership-queries/bench.rb:114-122 | a `write` leaves every `read` on another key unchanged |
| `Adapters.PutFrameSameKey` | images/posts/optimising-membership-queries/bench.rb:60-68 | a write of one member of a shard key leaves the read of every other member unchanged |
| `Adapters.WriteFrameSameShard` | images/posts/optimising-membership-queries/bench.rb:60-68 | a `write` leaves `read` of the other members of its shard unchanged |
| `Adapters.WriteFrame` | images/posts/optimising-membership-queries/bench.rb:33-41 | a `write` of v changes no `read` of any other (adapter, width, value), so a false `read(v')` stays false |
| `Adapters.PutWhenPresent` | images/posts/optimising-membership-queries/bench.rb:88-91 | in a homogeneous keyspace, a write at an address whose read is true changes nothing and replies false |
| `Adapters.WriteWhenPresent` | images/posts/optimising-membership-queries/bench.rb:88-91 | writing a value already present leaves the keyspace as it was and replies false |
| `Adapters.PutIdempotent` | images/posts/optimising-membership-queries/bench.rb:60-63 | a second identical write at an address leaves the store as the first left it and replies false |
| `Adapters.WriteIdempotent` | images/posts/optimising-membership-queries/bench.rb:60-63 | a second identical `write` leaves the store as the first left it |
| `Adapters.WriteFailure` | images/posts/optimising-membership-queries/bench.rb:114-117 | `write` fails exactly on a key of another kind (never for `setnx`) or a new key with no room |
| `Adapters.PutKeepsHomogeneous` | images/posts/optimising-membership-queries/bench.rb:155-159 | a write at an address keeps the keyspace homogeneous; neither write nor read there meets a wrong kind |
| `Adapters.WriteKeepsHomogeneous` | images/posts/optimising-membership-queries/bench.rb:155-159 | writes keep a keyspace holding only the adapter's values, and in it never meet a wrong kind |
| `Adapters.PutReplyIsAbsence` | images/posts/optimising-membership-queries/bench.rb:43-45 | the coerced reply of a successful write is true exactly when the read there was false before |
| `Adapters.CasIsCoercedWrite` | images/posts/optimising-membership-queries/bench.rb:43-45 | `cas` fails exactly when `write` does, leaves the same store, and is true exactly when the value was absent |
| `Store.Flush` | images/posts/optimising-membership-queries/bench.rb:149 | `flushall` empties the keyspace and keeps the server's ceiling |
| `Store.Exec` | images/posts/optimising-membership-queries/bench.rb:33-41 | commands fail exactly on a wrong kind or a new key past the ceiling; reads change nothing; only the command's key changes; the ceiling is kept |
| `Store.ReadSeesOnlyItsKey` | images/posts/optimising-membership-queries/bench.rb:38-41 | a read command's reply depends on its own key only |
| `Store.SAddKeepsOtherMembers` | images/posts/optimising-membership-queries/bench.rb:33-41 | `sadd` of one member leaves `sismember` of every other member unchanged |
| `Store.HSetKeepsOtherFields` | images/posts/optimising-membership-queries/bench.rb:60-68 | `hset` of one field leaves `hexists` of every other field unchanged |
| `Store.ZAddKeepsOtherMembers` | images/posts/optimising-membership-queries/bench.rb:88-96 | `zadd` of one member leaves `zscore` of every other member unchanged |
| `Loader.Flatten` | images/posts/optimising-membership-queries/bench.rb:155-158 | the flattened population holds exactly the values of its batches |
| `Loader.RunBatch` | images/posts/optimising-membership-queries/bench.rb:156-160 | a pipelined batch keeps the server's ceiling |
| `Loader.RunBatchRead` | images/posts/optimising-membership-queries/bench.rb:156-160 | after a clean batch, exactly the batch's values are added to what `read` sees |
| `Loader.LoadRead` | images/posts/optimising-membership-queries/bench.rb:153-161 | after a clean load, exactly the population's values are added to what `read` sees |
| `Loader.ReadFlushed` | images/posts/optimising-membership-queries/bench.rb:149 | in a flushed keyspace every `read` is false |
| `Loader.LoadedMembership` | images/posts/optimising-membership-queries/bench.rb:149-161 | after flush and a clean load, `read(v)` is true if and only if v was loaded |
| `Loader.RunBatchHomogeneous` | images/posts/optimising-membership-queries/bench.rb:156-160 | a batch keeps the keyspace homogeneous and within the ceiling; its only possible error is the ceiling |
| `Loader.LoadHomogeneous` | images/posts/optimising-membership-queries/bench.rb:153-165 | the same for a whole load |
| `Loader.LoadAfterFlush` | images/posts/optimising-membership-queries/bench.rb:149-165 | a load after a flush stays within the ceiling and can fail only by reaching it |
| `Loader.CasAfterLoad` | images/posts/optimising-membership-queries/bench.rb:174-195 | after loading, a hit's `cas` is false and changes nothing; an accepted miss's `cas` is true |
| `Median.Insert` | images/posts/optimising-membership-queries/bench.rb:183 | insertion keeps the sequence sorted and adds exactly one element |
| `Median.Sort` | images/posts/optimising-membership-queries/bench.rb:183 | the sort is a sorted permutation of the trials |
| `Median.CountsSort` | images/posts/optimising-membership-queries/bench.rb:183 | sorting keeps how many trials lie below or above any bound |
| `Median.MiddleOfBounds` | images/posts/optimising-membership-queries/bench.rb:183 | the middle element is a trial with at most half the trials strictly below and at most half strictly above |
| `Median.MiddleIsMedian` | images/posts/optimising-membership-queries/bench.rb:198 | for odd counts the middle element is the unique value with at most half below and half above |
| `Median.ReportedFigure` | images/posts/optimising-membership-queries/bench.rb:11-183 | with five runs the figure is sorted index 2, with at most two trials below and two above |
| `Sweep.Combinations` | images/posts/optimising-membership-queries/bench.rb:142-148 | the sweep visits width `lo + i/4` with adapter `i % 4` of the order zset, set, hash, flat |
| `Sweep.TimedPhase` | images/posts/optimising-membership-queries/bench.rb:170-196 | a timed phase's `cas` calls keep the server's ceiling |
| `Sweep.TimedPhaseHomogeneous` | images/posts/optimising-membership-queries/bench.rb:170-196 | in a keyspace of the adapter's own values a timed phase keeps it so and can raise only because the ceiling is reached |
| `Sweep.HitPhaseChangesNothing` | images/posts/optimising-membership-queries/bench.rb:170-181 | after a clean load, a hit phase drawing from the population raises nothing and leaves the keyspace as loaded |
| `Sweep.StepKeepsLimit` | images/posts/optimising-membership-queries/bench.rb:149-206 | a combination hands on a keyspace under the same server configuration |
| `Sweep.StepIgnoresPriorKeys` | images/posts/optimising-membership-queries/bench.rb:149 | a combination's result does not depend on the keys an earlier combination left |
| `Sweep.RunIsIsolated` | images/posts/optimising-membership-queries/bench.rb:142-209 | up to the first abort, the sweep's rows equal each combination's rows computed in isolation, so a skipped load emits nothing and disturbs no other row |
| `Sweep.AbortEndsSweep` | images/posts/optimising-membership-queries/bench.rb:170-209 | a combination whose timed phase raises ends the sweep: at most as many rows as combinations before it, an error reported, and when it is the first to abort, exactly the rows emitted before it and the error it raised |
| `Sweep.CollectAbort` | images/posts/optimising-membership-queries/bench.rb:170-209 | an abort at position i leaves at most i rows and is reported; when it is the first abort, the report is exactly the rows emitted before it and its error |
| `Sweep.CollectClean` | images/posts/optimising-membership-queries/bench.rb:162-209 | with no abort, the report is every emitted row in order, and no error |
| `Sweep.RunWithoutAbort` | images/posts/optimising-membership-queries/bench.rb:142-209 | when no combination aborts, the sweep writes the row of every combination that emitted one, in order, and ends without error |
| `Sweep.StepRow` | images/posts/optimising-membership-queries/bench.rb:149-206 | a row is emitted exactly when the load and both timed phases raised nothing, a skip happens exactly when the load raised, an abort is always the memory ceiling, and neither happens without a ceiling; the row names the adapter, counts one shard per possible prefix, reports the memory sampled right after the load, and reports both medians |
| `Sweep.UnlimitedSweepEmitsEveryRow` | images/posts/optimising-membership-queries/bench.rb:142-209 | with no memory ceiling the sweep never aborts and emits one row per combination |
| `Sweep.Lines` | images/posts/optimising-membership-queries/bench.rb:208 | one CSV line per row |
| `Sweep.HeaderArityMismatch` | images/posts/optimising-membership-queries/bench.rb:139 | as written, every data line has one cell more than the header |
| `Sweep.CsvIsRectangular` | images/posts/optimising-membership-queries/bench.rb:200-208 | with a five-column header every line has the header's width |
| `Scenarios.FlatKeyOf200` | images/posts/optimising-membership-queries/bench.rb:108-112 | value 200 at width 4 is prefix 8, member 12, key `bench:flat:04:8:c` |
| `Scenarios.SetKeyOf42` | images/posts/optimising-membership-queries/bench.rb:26-30 | value 42 at width 0 is member `2a` of key `bench:set_:00:0` |
| `Scenarios.LoadFortyTwo` | images/posts/optimising-membership-queries/bench.rb:149-161 | loading 42 with the set adapter at width 0 makes `read(42)` true and `read(7)` false |
| `Scenarios.MissAbortsSweep` | images/posts/optimising-membership-queries/bench.rb:186-196 | with a one-key ceiling, loading 5 with the flat adapter at width 0 succeeds, but the miss `cas` of 6 is refused and aborts the sweep with no row |
| `Scenarios.ConfiguredSweep` | images/posts/optimising-membership-queries/bench.rb:142-148 | widths 24 to 26 with four adapters give twelve combinations, from (24, zset) to (26, flat) |

## Left out

- Server connection, `pipelined` transport and timeouts: the keyspace is an
  in-memory value passed in and returned, with no network.
- The `INFO used_memory` query: memory is a function of the loaded keyspace, given as
  a parameter of the sweep.
- `SecureRandom` population and `DATA.sample.sample`: the population is an arbitrary
  sequence of batches of naturals. The 128-bit range is not enforced, because every
  law here holds for all naturals.
- `Benchmark.ips` timing, warm-up and its floating-point results, and the `Time.now`
  load timing. Each phase's trial results are given as five integers. The values the
  phase passed to `cas` are given as one sequence, warm-up included, because how many
  calls run depends on the clock.
- What happens to the CSV file when the script ends on an unrescued error: the report
  holds the rows emitted before the abort, and file buffering is not modelled.
- CSV file writing and `$stderr` logging: only the shape of the CSV lines is modelled.
- Store.Exec: the memory ceiling is counted in keys, and only a command that would
  create a new key is refused. The server's out-of-memory check compares used bytes
  with a limit and can refuse any write.
- Store.Exec: error replies other than a wrong kind and the memory ceiling are not
  modelled, such as `MISCONF` when snapshotting fails or `READONLY` on a replica. The
  rescue around the load would catch them, and nothing catches them in the timed
  phases. So "an abort is always the memory ceiling" (`Sweep.StepRow`) and "a load
  can fail only by reaching the ceiling" (`Loader.LoadAfterFlush`) hold of the
  modelled server only.
- Sweep.HitPhaseChangesNothing: a hit raises nothing because the key-count ceiling
  never refuses a write to an existing key (see the first Store.Exec line). Against
  the byte-based limit, a hit's `sadd` could be refused once the last loaded write
  pushed memory past the limit.
- Adapters.Read: replies follow the client's boolean forms for the single-member
  commands. A client that answers these commands with integers would make `!!` true
  for every reply; that variant is not modelled.
- Scores are integers rather than floats.
- The commented-out sweep over widths 0 to `MAX_SHARD_BITS`: only the configured
  sweep over 24 to 26 is modelled.
- `javascript/careers.js` and `javascript/application.js`: page presentation code,
  not part of the benchmark.

## Findings

| source | as written | input that shows it | evidently intended | confidence | as-written member | corrected member |
|---|---|---|---|---|---|---|
| images/posts/optimising-membership-queries/bench.rb:139 | the CSV header names four columns (`type shards memory ips`), but every row at lines 200-206 has five fields | any combination that loads, e.g. the row `set,16777216,<memory>,<read ips>,<write ips>` under a four-column header | a header naming both throughput columns (`type shards memory read_ips write_ips`) | high; not executed | `Sweep.HeaderArityMismatch` | `Sweep.CsvIsRectangular` |
