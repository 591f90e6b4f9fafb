/** An in-memory stand-in for the key-value server the adapters talk to: a keyspace of
    typed values and the handful of commands the benchmark issues, with the error
    replies the client turns into a command error. */
module Store {
  import opened Wrappers

  /** What a key holds: a set, a hash, a sorted set or a plain string. */
  datatype Value =
    | SetValue(members: set<string>)
    | HashValue(fields: map<string, string>)
    | ZsetValue(scores: map<string, int>)
    | StringValue(text: string)

  /** The server's memory ceiling, counted here in keys. */
  datatype Limit = Unlimited | AtMostKeys(keys: nat)

  datatype Store = Store(data: map<string, Value>, limit: Limit)

  /** Error replies: a key of the wrong kind, or a write refused for lack of memory. */
  datatype Error = WrongType | OutOfMemory

  /** Replies as the client hands them back: a boolean, a score, or `nil`. */
  datatype Reply = Flag(flag: bool) | Score(score: int) | Nil

  datatype Command =
    | SAdd(key: string, member: string)
    | SIsMember(key: string, member: string)
    | HSet(key: string, field: string, text: string)
    | HExists(key: string, field: string)
    | ZAdd(key: string, score: int, member: string)
    | ZScore(key: string, member: string)
    | SetNx(key: string, text: string)
    | Exists(key: string)
  {
    /** Commands that only look at the keyspace. */
    predicate IsRead() {
      SIsMember? || HExists? || ZScore? || Exists?
    }
  }

  /** Ruby truthiness, which `!!` applies: only `nil` and `false` are false. */
  function Truthy(r: Reply): (b: bool) {
    match r
    case Flag(b) => b
    case Score(_) => true
    case Nil => false
  }

  /** The keyspace respects the server's ceiling. */
  predicate WithinLimit(s: Store) {
    s.limit.AtMostKeys? ==> |s.data| <= s.limit.keys
  }

  /** Whether one more key fits under the ceiling. */
  predicate HasRoom(s: Store) {
    s.limit.Unlimited? || |s.data| < s.limit.keys
  }

  /** `FLUSHALL`: every key is dropped; the server's configuration stays. */
  function Flush(s: Store): (t: Store)
    ensures |t.data| == 0 && t.limit == s.limit
    ensures WithinLimit(t)
  {
    Store(map[], s.limit)
  }

  /** Whether `k` holds a value of a kind other than the one `cmd` works on. */
  predicate WrongKind(s: Store, cmd: Command) {
    cmd.key in s.data &&
    match cmd
    case SAdd(_, _) => !s.data[cmd.key].SetValue?
    case SIsMember(_, _) => !s.data[cmd.key].SetValue?
    case HSet(_, _, _) => !s.data[cmd.key].HashValue?
    case HExists(_, _) => !s.data[cmd.key].HashValue?
    case ZAdd(_, _, _) => !s.data[cmd.key].ZsetValue?
    case ZScore(_, _) => !s.data[cmd.key].ZsetValue?
    case SetNx(_, _) => false
    case Exists(_) => false
  }

  /** Runs one command. Writes that would create a key past the ceiling are refused;
      a write to an existing key, or a read, never is. */
  function Exec(s: Store, cmd: Command): (r: Result<(Store, Reply), Error>)
    ensures r.Err? <==> WrongKind(s, cmd) || (!cmd.IsRead() && cmd.key !in s.data && !HasRoom(s))
    ensures r == Err(OutOfMemory) ==> !cmd.IsRead() && cmd.key !in s.data && !HasRoom(s)
    ensures r.Ok? && cmd.IsRead() ==> r.value.0 == s
    ensures r.Ok? ==> r.value.0.limit == s.limit
    ensures r.Ok? ==> r.value.0.data - {cmd.key} == s.data - {cmd.key}
    ensures r.Ok? ==> cmd.key in r.value.0.data || cmd.IsRead()
    ensures r.Ok? && WithinLimit(s) ==> WithinLimit(r.value.0)
  {
    if WrongKind(s, cmd) then Err(WrongType)
    else
      var k := cmd.key;
      match cmd
      case SAdd(_, m) =>
        if k !in s.data && !HasRoom(s) then Err(OutOfMemory)
        else
          var members := if k in s.data then s.data[k].members else {};
          Ok((s.(data := s.data[k := SetValue(members + {m})]), Flag(m !in members)))
      case SIsMember(_, m) =>
        Ok((s, Flag(k in s.data && m in s.data[k].members)))
      case HSet(_, f, v) =>
        if k !in s.data && !HasRoom(s) then Err(OutOfMemory)
        else
          var fields := if k in s.data then s.data[k].fields else map[];
          Ok((s.(data := s.data[k := HashValue(fields[f := v])]), Flag(f !in fields)))
      case HExists(_, f) =>
        Ok((s, Flag(k in s.data && f in s.data[k].fields)))
      case ZAdd(_, score, m) =>
        if k !in s.data && !HasRoom(s) then Err(OutOfMemory)
        else
          var scores := if k in s.data then s.data[k].scores else map[];
          Ok((s.(data := s.data[k := ZsetValue(scores[m := score])]), Flag(m !in scores)))
      case ZScore(_, m) =>
        if k in s.data && m in s.data[k].scores then Ok((s, Score(s.data[k].scores[m]))) else Ok((s, Nil))
      case SetNx(_, v) =>
        if k in s.data then Ok((s, Flag(false)))
        else if !HasRoom(s) then Err(OutOfMemory)
        else Ok((s.(data := s.data[k := StringValue(v)]), Flag(true)))
      case Exists(_) =>
        Ok((s, Flag(k in s.data)))
  }

  /** A read command sees nothing of the keyspace but its own key. */
  lemma ReadSeesOnlyItsKey(s: Store, t: Store, cmd: Command)
    requires cmd.IsRead()
    requires cmd.key in s.data <==> cmd.key in t.data
    requires cmd.key in s.data ==> s.data[cmd.key] == t.data[cmd.key]
    ensures Exec(s, cmd).Err? <==> Exec(t, cmd).Err?
    ensures Exec(s, cmd).Ok? ==> Exec(s, cmd).value.1 == Exec(t, cmd).value.1
  {
  }

  /** `SADD` of one member leaves `SISMEMBER` of every other member of the key as it was. */
  lemma SAddKeepsOtherMembers(s: Store, k: string, m: string, m': string)
    requires Exec(s, SAdd(k, m)).Ok? && m' != m
    ensures var t := Exec(s, SAdd(k, m)).value.0;
            Exec(s, SIsMember(k, m')).Ok? && Exec(t, SIsMember(k, m')) == Ok((t, Exec(s, SIsMember(k, m')).value.1))
  {
  }

  /** `HSET` of one field leaves `HEXISTS` of every other field of the key as it was. */
  lemma HSetKeepsOtherFields(s: Store, k: string, f: string, v: string, f': string)
    requires Exec(s, HSet(k, f, v)).Ok? && f' != f
    ensures var t := Exec(s, HSet(k, f, v)).value.0;
            Exec(s, HExists(k, f')).Ok? && Exec(t, HExists(k, f')) == Ok((t, Exec(s, HExists(k, f')).value.1))
  {
  }

  /** `ZADD` of one member leaves `ZSCORE` of every other member of the key as it was. */
  lemma ZAddKeepsOtherMembers(s: Store, k: string, score: int, m: string, m': string)
    requires Exec(s, ZAdd(k, score, m)).Ok? && m' != m
    ensures var t := Exec(s, ZAdd(k, score, m)).value.0;
            Exec(s, ZScore(k, m')).Ok? && Exec(t, ZScore(k, m')) == Ok((t, Exec(s, ZScore(k, m')).value.1))
  {
  }
}
