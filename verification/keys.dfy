/** Store key formats: colon-separated fields under the `bench` namespace. */
module Keys {
  import opened Radix

  /** The fields joined with `:` separators, as the `%`-format strings of the adapters lay them out. */
  function Join(fields: seq<string>): (s: string)
    requires |fields| > 0
    ensures |s| >= |fields[0]|
    ensures s[..|fields[0]|] == fields[0]
  {
    if |fields| == 1 then fields[0] else fields[0] + ":" + Join(fields[1..])
  }

  /** No field contains the separator. */
  predicate ColonFree(fields: seq<string>) {
    forall i :: 0 <= i < |fields| ==> ':' !in fields[i]
  }

  /** `"bench:<tag>:%02d:<prefix>"`: the key of one shard of a sharded adapter. */
  function ShardKey(tag: string, bits: nat, prefix: nat): (k: string) {
    Join(["bench", tag, Pad2(bits), Hex(prefix)])
  }

  /** `"bench:flat:%02d:<prefix>:<member>"`: the one key of a value under the flat adapter. */
  function FlatKey(bits: nat, prefix: nat, member: nat): (k: string) {
    Join(["bench", "flat", Pad2(bits), Hex(prefix), Hex(member)])
  }

  /** Position of the first `:` in `s` (`|s|` when there is none). */
  function FirstColon(s: string): (i: nat)
    ensures i <= |s|
  {
    if |s| == 0 || s[0] == ':' then 0 else 1 + FirstColon(s[1..])
  }

  /** The first `:` after a colon-free head sits right after the head. */
  lemma {:induction false} FirstColonAfterHead(a: string, b: string)
    requires ':' !in a
    ensures FirstColon(a + ":" + b) == |a|
  {
    if |a| > 0 {
      assert (a + ":" + b)[1..] == a[1..] + ":" + b;
      FirstColonAfterHead(a[1..], b);
    }
  }

  /** A colon-free head is recovered from the first `:`. */
  lemma SplitAtColon(a: string, b: string, c: string, d: string)
    requires ':' !in a && ':' !in c
    requires a + ":" + b == c + ":" + d
    ensures a == c && b == d
  {
    var s := a + ":" + b;
    FirstColonAfterHead(a, b);
    FirstColonAfterHead(c, d);
    assert a == s[..|a|] && c == s[..|c|];
    assert b == s[|a| + 1..] && d == s[|c| + 1..];
  }

  /** Joining colon-free fields is injective: the fields, and their number, can be read back. */
  lemma {:induction false} JoinInjective(fs: seq<string>, gs: seq<string>)
    requires |fs| > 0 && |gs| > 0
    requires ColonFree(fs) && ColonFree(gs)
    requires Join(fs) == Join(gs)
    ensures fs == gs
  {
    if |fs| > 1 && |gs| > 1 {
      SplitAtColon(fs[0], Join(fs[1..]), gs[0], Join(gs[1..]));
      JoinInjective(fs[1..], gs[1..]);
      assert fs == [fs[0]] + fs[1..] && gs == [gs[0]] + gs[1..];
    }
  }

  /** Shard keys with colon-free tags determine the tag, the bits and the prefix. */
  lemma ShardKeyInjective(tag1: string, bits1: nat, prefix1: nat, tag2: string, bits2: nat, prefix2: nat)
    requires ':' !in tag1 && ':' !in tag2
    requires ShardKey(tag1, bits1, prefix1) == ShardKey(tag2, bits2, prefix2)
    ensures tag1 == tag2 && bits1 == bits2 && prefix1 == prefix2
  {
    var fs := ["bench", tag1, Pad2(bits1), Hex(prefix1)];
    var gs := ["bench", tag2, Pad2(bits2), Hex(prefix2)];
    Pad2Shape(bits1); Pad2Shape(bits2);
    HexAlphabet(prefix1); HexAlphabet(prefix2);
    JoinInjective(fs, gs);
    assert fs[2] == gs[2] && fs[3] == gs[3];
    Pad2Injective(bits1, bits2);
    HexInjective(prefix1, prefix2);
  }

  /** Flat keys determine the bits, the prefix and the member. */
  lemma FlatKeyInjective(bits1: nat, prefix1: nat, member1: nat, bits2: nat, prefix2: nat, member2: nat)
    requires FlatKey(bits1, prefix1, member1) == FlatKey(bits2, prefix2, member2)
    ensures bits1 == bits2 && prefix1 == prefix2 && member1 == member2
  {
    var fs := ["bench", "flat", Pad2(bits1), Hex(prefix1), Hex(member1)];
    var gs := ["bench", "flat", Pad2(bits2), Hex(prefix2), Hex(member2)];
    Pad2Shape(bits1); Pad2Shape(bits2);
    HexAlphabet(prefix1); HexAlphabet(prefix2);
    HexAlphabet(member1); HexAlphabet(member2);
    JoinInjective(fs, gs);
    assert fs[2] == gs[2] && fs[3] == gs[3] && fs[4] == gs[4];
    Pad2Injective(bits1, bits2);
    HexInjective(prefix1, prefix2);
    HexInjective(member1, member2);
  }

  /** A flat key (five fields) is never a shard key (four fields). */
  lemma ShardKeyIsNotFlatKey(tag: string, bits1: nat, prefix1: nat, bits2: nat, prefix2: nat, member2: nat)
    requires ':' !in tag
    ensures ShardKey(tag, bits1, prefix1) != FlatKey(bits2, prefix2, member2)
  {
    var fs := ["bench", tag, Pad2(bits1), Hex(prefix1)];
    var gs := ["bench", "flat", Pad2(bits2), Hex(prefix2), Hex(member2)];
    Pad2Shape(bits1); Pad2Shape(bits2);
    HexAlphabet(prefix1); HexAlphabet(prefix2); HexAlphabet(member2);
    if Join(fs) == Join(gs) {
      JoinInjective(fs, gs);
    }
  }
}
