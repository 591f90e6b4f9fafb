/** The four storage adapters. Each turns a value into a place in the keyspace through
    the sharding codec and writes or reads it with one store command. */
module Adapters {
  import opened Wrappers
  import opened Radix
  import opened Codec
  import opened Keys
  import opened Store

  datatype Adapter = ZsetAdapter | SetAdapter | HashAdapter | FlatAdapter {

    /** The `type` column of the result row. */
    function Name(): (n: string) {
      match this
      case ZsetAdapter => "zset"
      case SetAdapter => "set"
      case HashAdapter => "hash"
      case FlatAdapter => "flat"
    }

    /** The namespace field of the adapter's keys. */
    function Tag(): (t: string)
      ensures |t| == 4 && ':' !in t
    {
      match this
      case ZsetAdapter => "zset"
      case SetAdapter => "set_"
      case HashAdapter => "hash"
      case FlatAdapter => "flat"
    }

    /** Whether a stored value is of the kind this adapter's commands work on. */
    predicate OfKind(v: Value) {
      match this
      case ZsetAdapter => v.ZsetValue?
      case SetAdapter => v.SetValue?
      case HashAdapter => v.HashValue?
      case FlatAdapter => v.StringValue?
    }

    /** Whether a stored value is one this adapter's writes produce: its kind, with every
        score, field value or string equal to the `1` the adapter writes. */
    predicate Holds(v: Value) {
      match this
      case ZsetAdapter => v.ZsetValue? && forall m :: m in v.scores ==> v.scores[m] == 1
      case SetAdapter => v.SetValue?
      case HashAdapter => v.HashValue? && forall f :: f in v.fields ==> v.fields[f] == "1"
      case FlatAdapter => v == StringValue("1")
    }
  }

  /** Where a value lives: a member inside a shard key, or a key of its own. */
  datatype Address = InShard(key: string, member: string) | Standalone(key: string)

  /** The adapters' `key(sharding_bits, value)`. */
  function Locate(a: Adapter, bits: nat, value: nat): (addr: Address)
    ensures addr.Standalone? <==> a == FlatAdapter
  {
    var sh := Split(bits, value);
    if a == FlatAdapter then Standalone(FlatKey(bits, sh.prefix, sh.member))
    else InShard(ShardKey(a.Tag(), bits, sh.prefix), Hex(sh.member))
  }

  /** Whether an address has the shape adapter `a` gives its values: a key of its own
      for the flat adapter, a member of a shard key for the others. */
  predicate Fits(a: Adapter, addr: Address) {
    addr.Standalone? <==> a == FlatAdapter
  }

  /** The command `write` sends to an address: `zadd key 1 member`, `sadd key member`,
      `hset key member 1` or `setnx key 1`. */
  function WriteAt(a: Adapter, addr: Address): (c: Command)
    requires Fits(a, addr)
    ensures c.key == addr.key && !c.IsRead()
  {
    match a
    case ZsetAdapter => ZAdd(addr.key, 1, addr.member)
    case SetAdapter => SAdd(addr.key, addr.member)
    case HashAdapter => HSet(addr.key, addr.member, "1")
    case FlatAdapter => SetNx(addr.key, "1")
  }

  /** The command `read` sends to an address: `zscore`, `sismember`, `hexists` or `exists`. */
  function ReadAt(a: Adapter, addr: Address): (c: Command)
    requires Fits(a, addr)
    ensures c.key == addr.key && c.IsRead()
  {
    match a
    case ZsetAdapter => ZScore(addr.key, addr.member)
    case SetAdapter => SIsMember(addr.key, addr.member)
    case HashAdapter => HExists(addr.key, addr.member)
    case FlatAdapter => Exists(addr.key)
  }

  /** The write command at an address, run against the store. */
  function Put(s: Store, a: Adapter, addr: Address): (r: Result<(Store, Reply), Error>)
    requires Fits(a, addr)
  {
    Exec(s, WriteAt(a, addr))
  }

  /** The read command at an address, its reply coerced with `!!`. */
  function Probe(s: Store, a: Adapter, addr: Address): (r: Result<bool, Error>)
    requires Fits(a, addr)
  {
    match Exec(s, ReadAt(a, addr))
    case Ok((_, reply)) => Ok(Truthy(reply))
    case Err(e) => Err(e)
  }

  /** `write`: the store after the command and the client's reply. */
  function Write(s: Store, a: Adapter, bits: nat, value: nat): (r: Result<(Store, Reply), Error>) {
    Put(s, a, Locate(a, bits, value))
  }

  /** `read`: the reply coerced with `!!`. */
  function Read(s: Store, a: Adapter, bits: nat, value: nat): (r: Result<bool, Error>) {
    Probe(s, a, Locate(a, bits, value))
  }

  /** `cas`: `!! write(...)`, with no read of its own. */
  function Cas(s: Store, a: Adapter, bits: nat, value: nat): (r: Result<(Store, bool), Error>) {
    match Write(s, a, bits, value)
    case Ok((t, reply)) => Ok((t, Truthy(reply)))
    case Err(e) => Err(e)
  }

  /** Every key holds a value adapter `a` could have written. */
  predicate Homogeneous(s: Store, a: Adapter) {
    forall k :: k in s.data ==> a.Holds(s.data[k])
  }

  /** The four namespace tags are pairwise distinct. */
  lemma TagsDistinct(a1: Adapter, a2: Adapter)
    ensures a1.Tag() == a2.Tag() <==> a1 == a2
  {
  }

  /** A key names its adapter and its sharding bits: keys of different adapters or of
      different `bits` never collide. */
  lemma KeyDeterminesCombination(a1: Adapter, bits1: nat, v1: nat, a2: Adapter, bits2: nat, v2: nat)
    requires Locate(a1, bits1, v1).key == Locate(a2, bits2, v2).key
    ensures a1 == a2 && bits1 == bits2
    ensures Split(bits1, v1).prefix == Split(bits2, v2).prefix
  {
    var sh1, sh2 := Split(bits1, v1), Split(bits2, v2);
    if a1 == FlatAdapter && a2 == FlatAdapter {
      FlatKeyInjective(bits1, sh1.prefix, sh1.member, bits2, sh2.prefix, sh2.member);
    } else if a1 == FlatAdapter {
      ShardKeyIsNotFlatKey(a2.Tag(), bits2, sh2.prefix, bits1, sh1.prefix, sh1.member);
    } else if a2 == FlatAdapter {
      ShardKeyIsNotFlatKey(a1.Tag(), bits1, sh1.prefix, bits2, sh2.prefix, sh2.member);
    } else {
      ShardKeyInjective(a1.Tag(), bits1, sh1.prefix, a2.Tag(), bits2, sh2.prefix);
      TagsDistinct(a1, a2);
    }
  }

  /** Distinct (adapter, bits, value) triples are stored at distinct addresses. */
  lemma LocateInjective(a1: Adapter, bits1: nat, v1: nat, a2: Adapter, bits2: nat, v2: nat)
    requires Locate(a1, bits1, v1) == Locate(a2, bits2, v2)
    ensures a1 == a2 && bits1 == bits2 && v1 == v2
  {
    KeyDeterminesCombination(a1, bits1, v1, a2, bits2, v2);
    var sh1, sh2 := Split(bits1, v1), Split(bits2, v2);
    if a1 == FlatAdapter {
      FlatKeyInjective(bits1, sh1.prefix, sh1.member, bits2, sh2.prefix, sh2.member);
    } else {
      HexInjective(sh1.member, sh2.member);
    }
    assert sh1 == sh2;
    SplitInjective(bits1, v1, v2);
  }

  /** After a successful write at an address, the read there answers true. */
  lemma ProbeAfterPut(s: Store, a: Adapter, addr: Address)
    requires Fits(a, addr) && Put(s, a, addr).Ok?
    ensures Probe(Put(s, a, addr).value.0, a, addr) == Ok(true)
  {
  }

  /** After a successful `write`, `read` of the same value with the same bits is true. */
  lemma ReadAfterWrite(s: Store, a: Adapter, bits: nat, value: nat)
    requires Write(s, a, bits, value).Ok?
    ensures Read(Write(s, a, bits, value).value.0, a, bits, value) == Ok(true)
  {
    ProbeAfterPut(s, a, Locate(a, bits, value));
  }

  /** A successful write leaves the read at any address on another key as it was. */
  lemma PutFrameOtherKey(s: Store, a: Adapter, addr: Address, a': Adapter, addr': Address)
    requires Fits(a, addr) && Fits(a', addr') && Put(s, a, addr).Ok?
    requires addr'.key != addr.key
    ensures Probe(Put(s, a, addr).value.0, a', addr') == Probe(s, a', addr')
  {
    var t := Put(s, a, addr).value.0;
    assert t.data - {addr.key} == s.data - {addr.key};
    assert addr'.key in t.data <==> addr'.key in s.data;
    ReadSeesOnlyItsKey(s, t, ReadAt(a', addr'));
  }

  /** A successful `write` leaves every other key as it was. */
  lemma WriteFrameOtherKey(s: Store, a: Adapter, bits: nat, value: nat, a': Adapter, bits': nat, value': nat)
    requires Write(s, a, bits, value).Ok?
    requires Locate(a', bits', value').key != Locate(a, bits, value).key
    ensures Read(Write(s, a, bits, value).value.0, a', bits', value') == Read(s, a', bits', value')
  {
    PutFrameOtherKey(s, a, Locate(a, bits, value), a', Locate(a', bits', value'));
  }

  /** A successful write of one member of a shard leaves the read of every other member
      of that shard as it was. */
  lemma PutFrameSameKey(s: Store, a: Adapter, addr: Address, addr': Address)
    requires a != FlatAdapter && Fits(a, addr) && Fits(a, addr') && Put(s, a, addr).Ok?
    requires addr'.key == addr.key && addr'.member != addr.member
    ensures Probe(Put(s, a, addr).value.0, a, addr') == Probe(s, a, addr')
  {
    match a
    case ZsetAdapter => ZAddKeepsOtherMembers(s, addr.key, 1, addr.member, addr'.member);
    case SetAdapter => SAddKeepsOtherMembers(s, addr.key, addr.member, addr'.member);
    case HashAdapter => HSetKeepsOtherFields(s, addr.key, addr.member, "1", addr'.member);
  }

  /** A successful `write` leaves the other members of its own shard as they were. */
  lemma WriteFrameSameShard(s: Store, a: Adapter, bits: nat, value: nat, value': nat)
    requires Write(s, a, bits, value).Ok?
    requires a != FlatAdapter
    requires Locate(a, bits, value').key == Locate(a, bits, value).key
    requires Locate(a, bits, value').member != Locate(a, bits, value).member
    ensures Read(Write(s, a, bits, value).value.0, a, bits, value') == Read(s, a, bits, value')
  {
    PutFrameSameKey(s, a, Locate(a, bits, value), Locate(a, bits, value'));
  }

  /** A successful `write` changes nothing that any other (adapter, bits, value) `read` sees. */
  lemma WriteFrame(s: Store, a: Adapter, bits: nat, value: nat, a': Adapter, bits': nat, value': nat)
    requires Write(s, a, bits, value).Ok?
    requires (a', bits', value') != (a, bits, value)
    ensures Read(Write(s, a, bits, value).value.0, a', bits', value') == Read(s, a', bits', value')
  {
    var addr, addr' := Locate(a, bits, value), Locate(a', bits', value');
    if addr'.key == addr.key {
      KeyDeterminesCombination(a, bits, value, a', bits', value');
      if addr == addr' {
        LocateInjective(a, bits, value, a', bits', value');
      }
      WriteFrameSameShard(s, a, bits, value, value');
    } else {
      WriteFrameOtherKey(s, a, bits, value, a', bits', value');
    }
  }

  /** In a keyspace holding only the adapter's own values, a write at an address whose
      read is true changes nothing and replies that nothing was added. */
  lemma PutWhenPresent(s: Store, a: Adapter, addr: Address)
    requires Fits(a, addr) && Homogeneous(s, a)
    requires Probe(s, a, addr) == Ok(true)
    ensures Put(s, a, addr) == Ok((s, Flag(false)))
  {
    var k := addr.key;
    match a
    case ZsetAdapter =>
      var scores := s.data[k].scores;
      assert scores[addr.member := 1] == scores;
      assert s.data[k := ZsetValue(scores)] == s.data;
    case SetAdapter =>
      var members := s.data[k].members;
      assert members + {addr.member} == members;
      assert s.data[k := SetValue(members)] == s.data;
    case HashAdapter =>
      var fields := s.data[k].fields;
      assert fields[addr.member := "1"] == fields;
      assert s.data[k := HashValue(fields)] == s.data;
    case FlatAdapter =>
  }

  /** Writing a value `read` already finds changes nothing and reports nothing added:
      this is what a hit does to the keyspace. */
  lemma WriteWhenPresent(s: Store, a: Adapter, bits: nat, value: nat)
    requires Homogeneous(s, a)
    requires Read(s, a, bits, value) == Ok(true)
    ensures Write(s, a, bits, value) == Ok((s, Flag(false)))
  {
    PutWhenPresent(s, a, Locate(a, bits, value));
  }

  /** A second identical write at an address leaves the store as the first left it. */
  lemma PutIdempotent(s: Store, a: Adapter, addr: Address)
    requires Fits(a, addr) && Put(s, a, addr).Ok?
    ensures var t := Put(s, a, addr).value.0;
            Put(t, a, addr) == Ok((t, Flag(false)))
  {
    var t := Put(s, a, addr).value.0;
    var k := addr.key;
    match a
    case ZsetAdapter =>
      var scores := t.data[k].scores;
      assert scores[addr.member := 1] == scores;
      assert t.data[k := ZsetValue(scores)] == t.data;
    case SetAdapter =>
      var members := t.data[k].members;
      assert members + {addr.member} == members;
      assert t.data[k := SetValue(members)] == t.data;
    case HashAdapter =>
      var fields := t.data[k].fields;
      assert fields[addr.member := "1"] == fields;
      assert t.data[k := HashValue(fields)] == t.data;
    case FlatAdapter =>
  }

  /** `write` is idempotent: repeating it leaves the store as it was and reports nothing added. */
  lemma WriteIdempotent(s: Store, a: Adapter, bits: nat, value: nat)
    requires Write(s, a, bits, value).Ok?
    ensures var t := Write(s, a, bits, value).value.0;
            Write(t, a, bits, value) == Ok((t, Flag(false)))
  {
    PutIdempotent(s, a, Locate(a, bits, value));
  }

  /** `write` fails exactly when the key holds another kind of value, or when it would
      need a new key and the store has no room. */
  lemma WriteFailure(s: Store, a: Adapter, bits: nat, value: nat)
    ensures var k := Locate(a, bits, value).key;
            Write(s, a, bits, value).Err? <==>
              (k in s.data && !a.OfKind(s.data[k]) && a != FlatAdapter) || (k !in s.data && !HasRoom(s))
  {
  }

  /** A write keeps a homogeneous keyspace homogeneous, and in such a keyspace neither the
      write nor the read at an address meets a key of the wrong kind. */
  lemma PutKeepsHomogeneous(s: Store, a: Adapter, addr: Address)
    requires Fits(a, addr) && Homogeneous(s, a)
    ensures Put(s, a, addr).Ok? ==> Homogeneous(Put(s, a, addr).value.0, a)
    ensures Put(s, a, addr) != Err(WrongType)
    ensures Probe(s, a, addr).Ok?
  {
    if Put(s, a, addr).Ok? {
      var t := Put(s, a, addr).value.0;
      forall k | k in t.data
        ensures a.Holds(t.data[k])
      {
        if k != addr.key {
          assert k in s.data - {addr.key};
        }
      }
    }
  }

  /** A `write` keeps a homogeneous keyspace homogeneous, and in such a keyspace it can
      only fail for lack of room. */
  lemma WriteKeepsHomogeneous(s: Store, a: Adapter, bits: nat, value: nat)
    requires Homogeneous(s, a)
    ensures Write(s, a, bits, value).Ok? ==> Homogeneous(Write(s, a, bits, value).value.0, a)
    ensures Write(s, a, bits, value) != Err(WrongType)
    ensures Read(s, a, bits, value).Ok?
  {
    PutKeepsHomogeneous(s, a, Locate(a, bits, value));
  }

  /** At an address, the coerced reply of a successful write is true exactly when the
      read there was false before. */
  lemma PutReplyIsAbsence(s: Store, a: Adapter, addr: Address)
    requires Fits(a, addr) && Put(s, a, addr).Ok?
    ensures Truthy(Put(s, a, addr).value.1) <==> Probe(s, a, addr) == Ok(false)
  {
  }

  /** `cas` is `write` coerced to a boolean: it fails when `write` does, leaves the store
      exactly as `write` does, and answers true exactly when the value was absent before,
      so a hit answers false and a miss answers true. */
  lemma CasIsCoercedWrite(s: Store, a: Adapter, bits: nat, value: nat)
    ensures Cas(s, a, bits, value).Err? <==> Write(s, a, bits, value).Err?
    ensures Cas(s, a, bits, value).Ok? ==>
              Cas(s, a, bits, value).value.0 == Write(s, a, bits, value).value.0 &&
              (Cas(s, a, bits, value).value.1 <==> Read(s, a, bits, value) == Ok(false))
  {
    if Write(s, a, bits, value).Ok? {
      PutReplyIsAbsence(s, a, Locate(a, bits, value));
    }
  }
}
