/** The object store as the model sees it: a map from key to bytes, and a log
    of the reads and writes a run performs against it.  Writes overwrite
    silently; there is no versioning and no deletion. */
module Storage {
  import opened Results

  type Bytes = seq<bv8>
  type Store = map<string, Bytes>

  /** One store call: a `get_object` of a key, or an upload (`upload_fileobj`) of a body to a key. */
  datatype Op = Get(key: string) | Put(key: string, body: Bytes)

  /** The store after one call. */
  function Step(s: Store, op: Op): Store {
    match op
    case Get(_) => s
    case Put(k, b) => s[k := b]
  }

  /** The keys some call of `ops` writes. */
  function Written(ops: seq<Op>): set<string>
    decreases |ops|
  {
    if ops == [] then {} else (if ops[0].Put? then {ops[0].key} else {}) + Written(ops[1..])
  }

  /** The store after performing `ops` in order. */
  function Apply(s: Store, ops: seq<Op>): Store
    decreases |ops|
  {
    if ops == [] then s else Apply(Step(s, ops[0]), ops[1..])
  }

  /** After a log of calls the store holds the keys it held and the keys some
      call writes, and every key no call writes keeps its body. */
  lemma {:induction false} ApplyFrame(s: Store, ops: seq<Op>)
    ensures Apply(s, ops).Keys == s.Keys + Written(ops)
    ensures Apply(s, ops) - Written(ops) == s - Written(ops)
    decreases |ops|
  {
    if ops != [] {
      var rest, w := Apply(Step(s, ops[0]), ops[1..]), Written(ops);
      ApplyFrame(Step(s, ops[0]), ops[1..]);
      assert (rest - w).Keys == (s - w).Keys;
      forall k | k in (rest - w)
        ensures (rest - w)[k] == (s - w)[k]
      {
        assert k in (rest - Written(ops[1..]));
      }
    }
  }

  /** The body of the last write to `key` in `ops`, if any. */
  function LastPut(ops: seq<Op>, key: string): (r: Option<Bytes>)
    ensures r.Some? <==> exists i :: 0 <= i < |ops| && ops[i].Put? && ops[i].key == key
    decreases |ops|
  {
    if ops == [] then None
    else
      var last := ops[|ops| - 1];
      if last.Put? && last.key == key then Some(last.body)
      else LastPut(ops[..|ops| - 1], key)
  }

  /** The log makes no write. */
  predicate ReadsOnly(ops: seq<Op>) {
    forall i :: 0 <= i < |ops| ==> ops[i].Get?
  }

  /** Performing two logs one after the other is performing their concatenation. */
  lemma {:induction false} ApplyAppend(s: Store, a: seq<Op>, b: seq<Op>)
    ensures Apply(s, a + b) == Apply(Apply(s, a), b)
    decreases |a|
  {
    if a == [] {
      assert a + b == b;
    } else {
      assert (a + b)[0] == a[0];
      assert (a + b)[1..] == a[1..] + b;
      ApplyAppend(Step(s, a[0]), a[1..], b);
    }
  }

  /** Last write wins: after a log, a key holds the body of its last write, and a key
      that was never written holds what it held before. */
  lemma {:induction false} ApplyLastWins(s: Store, ops: seq<Op>, key: string)
    ensures key in Apply(s, ops) <==> key in s || LastPut(ops, key).Some?
    ensures LastPut(ops, key).Some? ==> Apply(s, ops)[key] == LastPut(ops, key).value
    ensures LastPut(ops, key).None? && key in s ==> Apply(s, ops)[key] == s[key]
    decreases |ops|
  {
    if ops != [] {
      var init := ops[..|ops| - 1];
      var last := ops[|ops| - 1];
      assert init + [last] == ops;
      ApplyAppend(s, init, [last]);
      ApplyLastWins(s, init, key);
      assert Apply(s, ops) == Step(Apply(s, init), last);
    }
  }

  /** A log of reads leaves the store as it was. */
  lemma {:induction false} ApplyReadsOnly(s: Store, ops: seq<Op>)
    requires ReadsOnly(ops)
    ensures Apply(s, ops) == s
    decreases |ops|
  {
    if ops != [] {
      ApplyReadsOnly(s, ops[1..]);
    }
  }

  /** The last write in a concatenation is the last write of its second half,
      if there is one there. */
  lemma {:induction false} LastPutAppend(a: seq<Op>, b: seq<Op>, key: string)
    ensures LastPut(a + b, key) == if LastPut(b, key).Some? then LastPut(b, key) else LastPut(a, key)
    decreases |b|
  {
    if b == [] {
      assert a + b == a;
    } else {
      var ab := a + b;
      assert ab[|ab| - 1] == b[|b| - 1];
      assert ab[..|ab| - 1] == a + b[..|b| - 1];
      LastPutAppend(a, b[..|b| - 1], key);
    }
  }

  /** A key no call of the log writes keeps what it held. */
  lemma ApplyUntouched(s: Store, ops: seq<Op>, key: string)
    requires forall i :: 0 <= i < |ops| && ops[i].Put? ==> ops[i].key != key
    ensures key in Apply(s, ops) <==> key in s
    ensures key in s ==> Apply(s, ops)[key] == s[key]
  {
    ApplyLastWins(s, ops, key);
  }
}
