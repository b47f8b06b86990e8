/** The driver of IaC/puc_app/flow.py (its `__main__` block): list the CSV
    files under `uploads/`, and for each in turn read it (`extrair_csv`),
    reformat its `valor` column (`transformar`) and write it under
    `processed/` with the same base name (`carregar`).  Nothing catches an
    exception, so the first failure ends the run with the earlier outputs
    already written.  The CSV reader and writer are a parameter. */
module Pipeline {
  import opened Results
  import opened Strings
  import opened Storage
  import opened Keys
  import opened Frames

  /** `pd.read_csv` (which may fail on malformed bytes) and `df.to_csv(index=False)`. */
  datatype Codec = Codec(decode: Bytes -> Option<Frame>, encode: Frame -> Bytes)

  /** The exception that ends a run, with the key of the file being processed. */
  datatype PipelineError =
    | NoSuchKey(key: string)
    | Unreadable(key: string)
    | TransformFailed(key: string, reason: TransformError)

  /** The outcome of a run: the final store, the calls made, and the failure
      that stopped it, if any. */
  datatype Run = Run(store: Store, ops: seq<Op>, error: Option<PipelineError>)

  /** What `get_object` returns for `key`: its body, or nothing when there is
      no such key. */
  function Fetch(store: Store, key: string): (r: Option<Bytes>)
    ensures r.Some? <==> key in store
    ensures r.Some? ==> r.value == store[key]
  {
    if key in store then Some(store[key]) else None
  }

  /** `extrair_csv` given what `get_object` returned for `key`: the parsed
      frame and the file's base name. */
  function Extract(key: string, obj: Option<Bytes>, codec: Codec): (r: Result<(Frame, string), PipelineError>)
    ensures r.Success? <==> obj.Some? && codec.decode(obj.value).Some?
    ensures r.Success? ==> codec.decode(obj.value) == Some(r.value.0) && r.value.1 == Basename(key)
    ensures r.Failure? ==> (r.error == NoSuchKey(key) <==> obj.None?) && r.error.key == key
  {
    match obj
    case None => Failure(NoSuchKey(key))
    case Some(body) =>
      match codec.decode(body)
      case None => Failure(Unreadable(key))
      case Some(df) => Success((df, Basename(key)))
  }

  /** `extrair_csv` followed by `transformar`: the frame to be written for the
      file at `key`, or why there is none. */
  function Prepare(key: string, obj: Option<Bytes>, codec: Codec): (r: Result<Frame, PipelineError>)
    ensures r.Success? <==> obj.Some? && codec.decode(obj.value).Some? && Transform(codec.decode(obj.value).value).Success?
    ensures r.Success? ==> r.value == Transform(codec.decode(obj.value).value).value
    ensures r.Success? ==> Restore(r.value) == codec.decode(obj.value)
    ensures r.Failure? ==> r.error.key == key
    ensures r.Failure? ==> (r.error.NoSuchKey? <==> obj.None?)
  {
    match Extract(key, obj, codec)
    case Failure(e) => Failure(e)
    case Success((df, _)) =>
      match Transform(df)
      case Failure(e) => Failure(TransformFailed(key, e))
      case Success(df') =>
        RestoreTransform(df);
        Success(df')
  }

  /** `carregar`: the upload of the encoded frame to `processed/<name>`. */
  function Load(df: Frame, name: string, codec: Codec): (op: Op)
    ensures op.Put? && StartsWith(op.key, Destino) && op.key[|Destino|..] == name
    ensures op.body == codec.encode(df)
  {
    Put(OutputKey(name), codec.encode(df))
  }

  /** What the loop does with one file: from its key and what reading it
      returned, the frame to write. */
  type Stage = (string, Option<Bytes>) -> Result<Frame, PipelineError>

  /** The stage of the `__main__` loop: `extrair_csv`, then `transformar`. */
  function Preparer(codec: Codec): Stage {
    (k, o) => Prepare(k, o, codec)
  }

  /** Every read in `ops` is of one of `keys`. */
  predicate ReadsAmong(ops: seq<Op>, keys: seq<string>) {
    forall i :: 0 <= i < |ops| && ops[i].Get? ==> ops[i].key in keys
  }

  /** Every write in `ops` is under `processed/`. */
  predicate WritesProcessed(ops: seq<Op>) {
    forall i :: 0 <= i < |ops| && ops[i].Put? ==> StartsWith(ops[i].key, Destino)
  }

  /** The `for` loop over `keys`: each file is read (a `Get`) and, if `stage`
      succeeds on it, written (a `Put`) before the next is read; the first
      failure stops the run, and it is the failure of the last file read,
      against the store as the run left it. */
  function Loop(store: Store, keys: seq<string>, codec: Codec, stage: Stage): (r: Run)
    ensures r.store == Apply(store, r.ops)
    ensures r.error.None? <==> |r.ops| == 2 * |keys|
    ensures |r.ops| <= 2 * |keys|
    ensures r.error.Some? ==>
      && |r.ops| >= 1 && r.ops[|r.ops| - 1].Get?
      && var key := r.ops[|r.ops| - 1].key;
         stage(key, Fetch(r.store, key)) == Failure(r.error.value)
    decreases |keys|
  {
    if keys == [] then Run(store, [], None)
    else
      var key := keys[0];
      match stage(key, Fetch(store, key))
      case Failure(e) => Run(store, [Get(key)], Some(e))
      case Success(df) =>
        var put := Load(df, Basename(key), codec);
        var rest := Loop(Step(store, put), keys[1..], codec, stage);
        var ops := [Get(key), put] + rest.ops;
        assert ops[0] == Get(key) && ops[1] == put && ops[2..] == rest.ops;
        Run(rest.store, ops, rest.error)
  }

  /** The loop reads only the listed keys and writes only under `processed/`. */
  lemma {:induction false} LoopOps(store: Store, keys: seq<string>, codec: Codec, stage: Stage)
    ensures ReadsAmong(Loop(store, keys, codec, stage).ops, keys)
    ensures WritesProcessed(Loop(store, keys, codec, stage).ops)
    decreases |keys|
  {
    if keys != [] {
      match stage(keys[0], Fetch(store, keys[0]))
      case Failure(_) =>
      case Success(df) =>
        var put := Load(df, Basename(keys[0]), codec);
        var rest := Loop(Step(store, put), keys[1..], codec, stage);
        LoopOps(Step(store, put), keys[1..], codec, stage);
        var ops := [Get(keys[0]), put] + rest.ops;
        assert forall i :: 2 <= i < |ops| ==> ops[i] == rest.ops[i - 2];
        assert forall k :: k in keys[1..] ==> k in keys;
    }
  }

  /** A run without error reads every listed key. */
  lemma {:induction false} LoopReadsAll(store: Store, keys: seq<string>, codec: Codec, stage: Stage)
    ensures Loop(store, keys, codec, stage).error.None? ==>
      forall k :: k in keys ==> Get(k) in Loop(store, keys, codec, stage).ops
    decreases |keys|
  {
    if keys != [] && stage(keys[0], Fetch(store, keys[0])).Success? {
      var put := Load(stage(keys[0], Fetch(store, keys[0])).value, Basename(keys[0]), codec);
      var rest := Loop(Step(store, put), keys[1..], codec, stage);
      LoopReadsAll(Step(store, put), keys[1..], codec, stage);
      var ops := [Get(keys[0]), put] + rest.ops;
      assert Loop(store, keys, codec, stage).ops == ops;
      forall k | k in keys && rest.error.None?
        ensures Get(k) in ops
      {
        if k != keys[0] {
          assert k in keys[1..];
          var i :| 0 <= i < |rest.ops| && rest.ops[i] == Get(k);
          assert ops[i + 2] == Get(k);
        }
      }
    }
  }

  /** The loop over a list that starts with a key the stage accepts: that
      key is read and written, then the loop goes on over the rest from the
      store that write left. */
  lemma LoopCons(store: Store, key: string, keys: seq<string>, codec: Codec, stage: Stage)
    requires stage(key, Fetch(store, key)).Success?
    ensures var put := Load(stage(key, Fetch(store, key)).value, Basename(key), codec);
      var rest := Loop(Step(store, put), keys, codec, stage);
      Loop(store, [key] + keys, codec, stage) == Run(rest.store, [Get(key), put] + rest.ops, rest.error)
  {
    var ks := [key] + keys;
    assert ks[0] == key && ks[1..] == keys;
  }

  /** The loop over `keys` stops at `keys[j]`: the loop over the files before
      it succeeds, `keys[j]` is read against the store that loop left and
      fails, and the run is exactly that loop followed by the one read. */
  predicate StopsAt(store: Store, keys: seq<string>, codec: Codec, stage: Stage, j: nat) {
    && j < |keys|
    && var p := Loop(store, keys[..j], codec, stage);
       var r := Loop(store, keys, codec, stage);
       && p.error.None?
       && stage(keys[j], Fetch(p.store, keys[j])).Failure?
       && r.ops == p.ops + [Get(keys[j])]
       && r.store == p.store
  }

  /** A run that fails on its first file stops there. */
  lemma StopsAtHead(store: Store, keys: seq<string>, codec: Codec, stage: Stage)
    requires |keys| >= 1 && stage(keys[0], Fetch(store, keys[0])).Failure?
    ensures StopsAt(store, keys, codec, stage, 0)
  {
    assert keys[..0] == [];
  }

  /** A run whose first file succeeds stops one file later than the run
      over the rest, started from the store that file's write left. */
  lemma StopsAtNext(store: Store, keys: seq<string>, codec: Codec, stage: Stage, j: nat)
    requires |keys| >= 1 && stage(keys[0], Fetch(store, keys[0])).Success?
    requires StopsAt(Step(store, Load(stage(keys[0], Fetch(store, keys[0])).value, Basename(keys[0]), codec)),
      keys[1..], codec, stage, j)
    ensures StopsAt(store, keys, codec, stage, j + 1)
  {
    var key, tail := keys[0], keys[1..];
    assert keys == [key] + tail;
    assert keys[..j + 1] == [key] + tail[..j];
    assert keys[j + 1] == tail[j];
    LoopCons(store, key, tail, codec, stage);
    LoopCons(store, key, tail[..j], codec, stage);
  }

  /** A failing run stops at its first failure, with the outputs of the
      files before it already written. */
  lemma {:induction false} LoopFailure(store: Store, keys: seq<string>, codec: Codec, stage: Stage)
    requires Loop(store, keys, codec, stage).error.Some?
    ensures exists j: nat :: StopsAt(store, keys, codec, stage, j)
    decreases |keys|
  {
    if stage(keys[0], Fetch(store, keys[0])).Failure? {
      StopsAtHead(store, keys, codec, stage);
    } else {
      var put := Load(stage(keys[0], Fetch(store, keys[0])).value, Basename(keys[0]), codec);
      LoopFailure(Step(store, put), keys[1..], codec, stage);
      var j: nat :| StopsAt(Step(store, put), keys[1..], codec, stage, j);
      StopsAtNext(store, keys, codec, stage, j);
    }
  }

  /** The loop of the `__main__` block over a list of keys. */
  function ProcessAll(store: Store, keys: seq<string>, codec: Codec): (r: Run)
    ensures r.store == Apply(store, r.ops)
    ensures r.error.None? <==> |r.ops| == 2 * |keys|
    ensures r.error.Some? ==> |r.ops| >= 1 && r.ops[|r.ops| - 1] == Get(r.error.value.key)
    ensures r.error.Some? ==> Prepare(r.error.value.key, Fetch(r.store, r.error.value.key), codec) == Failure(r.error.value)
    ensures r.error.None? ==> forall k :: k in keys ==> Get(k) in r.ops
  {
    LoopReadsAll(store, keys, codec, Preparer(codec));
    Loop(store, keys, codec, Preparer(codec))
  }

  /** The `__main__` block: the CSV keys of the listing, processed in order. */
  function Driver(listing: Option<seq<string>>, store: Store, codec: Codec): (r: Run)
    ensures r.store == Apply(store, r.ops)
    ensures r.error.None? <==> |r.ops| == 2 * |CsvKeys(listing.GetOr([]))|
    ensures r.error.Some? ==> |r.ops| >= 1 && r.ops[|r.ops| - 1] == Get(r.error.value.key)
    ensures r.error.Some? ==> Prepare(r.error.value.key, Fetch(r.store, r.error.value.key), codec) == Failure(r.error.value)
    ensures r.error.None? ==> forall k :: k in CsvKeys(listing.GetOr([])) ==> Get(k) in r.ops
    ensures CsvKeys(listing.GetOr([])) == [] ==> r.ops == [] && r.store == store && r.error.None?
    ensures forall i :: 0 <= i < |r.ops| && r.ops[i].Get? ==> IsCsv(r.ops[i].key) && r.ops[i].key in listing.GetOr([])
    ensures WritesProcessed(r.ops)
  {
    var keys := CsvKeys(listing.GetOr([]));
    LoopOps(store, keys, codec, Preparer(codec));
    ProcessAll(store, keys, codec)
  }

  /** Running the loop over `b` after running it over `a`. */
  predicate AppendsAt(store: Store, a: seq<string>, b: seq<string>, codec: Codec, stage: Stage) {
    var ra := Loop(store, a, codec, stage);
    if ra.error.Some? then Loop(store, a + b, codec, stage) == ra
    else
      var rb := Loop(ra.store, b, codec, stage);
      Loop(store, a + b, codec, stage) == Run(rb.store, ra.ops + rb.ops, rb.error)
  }

  /** Looping over a concatenation of key lists is looping over the first
      list and, if that did not fail, over the second one from where it left off. */
  lemma {:induction false} LoopAppend(store: Store, a: seq<string>, b: seq<string>, codec: Codec, stage: Stage)
    ensures AppendsAt(store, a, b, codec, stage)
    decreases |a|
  {
    var ab := a + b;
    if a == [] {
      assert ab == b;
    } else {
      assert ab[0] == a[0];
      assert ab[1..] == a[1..] + b;
      match stage(a[0], Fetch(store, a[0]))
      case Failure(_) =>
      case Success(df) =>
        var put := Load(df, Basename(a[0]), codec);
        var s' := Step(store, put);
        LoopAppend(s', a[1..], b, codec, stage);
        var ra' := Loop(s', a[1..], codec, stage);
        if ra'.error.None? {
          var rb := Loop(ra'.store, b, codec, stage);
          var p := [Get(a[0]), put];
          assert p + (ra'.ops + rb.ops) == (p + ra'.ops) + rb.ops;
        }
    }
  }

  /** The loop writes only under `processed/`: every other key, the uploaded
      files among them, holds afterwards exactly what it held before. */
  lemma LoopKeepsOtherKeys(store: Store, keys: seq<string>, codec: Codec, stage: Stage, key: string)
    requires !StartsWith(key, Destino)
    ensures Fetch(Loop(store, keys, codec, stage).store, key) == Fetch(store, key)
  {
    LoopOps(store, keys, codec, stage);
    ApplyUntouched(store, Loop(store, keys, codec, stage).ops, key);
  }

  /** A run of the `__main__` loop leaves every key outside `processed/`,
      the uploaded files among them, as it was. */
  lemma KeepsOtherKeys(store: Store, keys: seq<string>, codec: Codec, key: string)
    requires !StartsWith(key, Destino)
    ensures key in ProcessAll(store, keys, codec).store <==> key in store
    ensures key in store ==> ProcessAll(store, keys, codec).store[key] == store[key]
  {
    LoopKeepsOtherKeys(store, keys, codec, Preparer(codec), key);
  }

  /** The body the last of `keys` with base name `name` produces, if any
      has that name and the stage accepts the last such one as the store
      holds it. */
  function LastOutput(store: Store, keys: seq<string>, codec: Codec, stage: Stage, name: string): (r: Option<Bytes>)
    ensures r.Some? ==> exists i :: 0 <= i < |keys| && Basename(keys[i]) == name
    decreases |keys|
  {
    if keys == [] then None
    else
      var key := keys[|keys| - 1];
      if Basename(key) == name then
        match stage(key, Fetch(store, key))
        case Success(df) => Some(codec.encode(df))
        case Failure(_) => None
      else LastOutput(store, keys[..|keys| - 1], codec, stage, name)
  }

  /** The loop over a single key that the stage accepts reads it and writes its output. */
  lemma LoopSingle(store: Store, key: string, codec: Codec, stage: Stage)
    requires stage(key, Fetch(store, key)).Success?
    ensures var put := Load(stage(key, Fetch(store, key)).value, Basename(key), codec);
      Loop(store, [key], codec, stage).ops == [Get(key), put]
  {
    assert [key][1..] == [];
  }

  /** The read and the write for one file write `processed/<name>` exactly
      when the file's base name is `name`. */
  lemma LastPutOfFile(key: string, df: Frame, codec: Codec, name: string)
    ensures LastPut([Get(key), Load(df, Basename(key), codec)], OutputKey(name)) ==
      if Basename(key) == name then Some(codec.encode(df)) else None
  {
    var put := Load(df, Basename(key), codec);
    assert [Get(key), put][..1] == [Get(key)];
    assert OutputKey(Basename(key))[|Destino|..] == Basename(key);
    assert OutputKey(name)[|Destino|..] == name;
  }

  /** The writes of a run over `init + [key]` to `processed/<name>`: those of
      the run over `init`, then the output for `key` if its base name is `name`. */
  lemma LastWinsStep(store: Store, init: seq<string>, key: string, codec: Codec, stage: Stage, name: string)
    requires !StartsWith(key, Destino)
    requires Loop(store, init + [key], codec, stage).error.None?
    ensures Loop(store, init, codec, stage).error.None?
    ensures stage(key, Fetch(store, key)).Success?
    ensures LastPut(Loop(store, init + [key], codec, stage).ops, OutputKey(name)) ==
      if Basename(key) == name then Some(codec.encode(stage(key, Fetch(store, key)).value))
      else LastPut(Loop(store, init, codec, stage).ops, OutputKey(name))
  {
    LoopAppend(store, init, [key], codec, stage);
    var ra := Loop(store, init, codec, stage);
    LoopKeepsOtherKeys(store, init, codec, stage, key);
    LoopSingle(ra.store, key, codec, stage);
    var put := Load(stage(key, Fetch(store, key)).value, Basename(key), codec);
    LastPutAppend(ra.ops, [Get(key), put], OutputKey(name));
    LastPutOfFile(key, stage(key, Fetch(store, key)).value, codec, name);
  }

  /** Last file wins: in a run of the loop that does not fail, the last
      write to `processed/<name>` carries the output of the last listed file
      whose base name is `name`, read from the store as it was before the
      run; files in different folders with the same name overwrite one another. */
  lemma {:induction false} LoopLastWins(store: Store, keys: seq<string>, codec: Codec, stage: Stage, name: string)
    requires forall i :: 0 <= i < |keys| ==> !StartsWith(keys[i], Destino)
    requires Loop(store, keys, codec, stage).error.None?
    ensures LastPut(Loop(store, keys, codec, stage).ops, OutputKey(name)) == LastOutput(store, keys, codec, stage, name)
    decreases |keys|
  {
    if keys != [] {
      var init, key := keys[..|keys| - 1], keys[|keys| - 1];
      assert init + [key] == keys;
      LastWinsStep(store, init, key, codec, stage, name);
      LoopLastWins(store, init, codec, stage, name);
    }
  }

  /** Last file wins for the `__main__` loop, and what is left in the store:
      after a run that does not fail, `processed/<name>` holds the output of
      the last listed file with base name `name`. */
  lemma ProcessAllLastWins(store: Store, keys: seq<string>, codec: Codec, name: string)
    requires forall i :: 0 <= i < |keys| ==> !StartsWith(keys[i], Destino)
    requires ProcessAll(store, keys, codec).error.None?
    ensures LastPut(ProcessAll(store, keys, codec).ops, OutputKey(name)) == LastOutput(store, keys, codec, Preparer(codec), name)
    ensures LastOutput(store, keys, codec, Preparer(codec), name).Some? ==>
      && OutputKey(name) in ProcessAll(store, keys, codec).store
      && ProcessAll(store, keys, codec).store[OutputKey(name)] == LastOutput(store, keys, codec, Preparer(codec), name).value
  {
    LoopLastWins(store, keys, codec, Preparer(codec), name);
    ApplyLastWins(store, ProcessAll(store, keys, codec).ops, OutputKey(name));
  }

  /** A key listed under `uploads/` is not under `processed/`. */
  lemma ListedNotProcessed(key: string)
    requires StartsWith(key, Origem)
    ensures !StartsWith(key, Destino)
  {
    assert key[0] == Origem[0];
  }

  /** Last file wins for the whole `__main__` block, given that every listed
      key lies under `uploads/` (the listing's prefix): after a run without
      error, `processed/<name>` holds the output of the last listed `.csv`
      file with base name `name`. */
  lemma DriverLastWins(listing: Option<seq<string>>, store: Store, codec: Codec, name: string)
    requires forall k :: k in listing.GetOr([]) ==> StartsWith(k, Origem)
    requires Driver(listing, store, codec).error.None?
    ensures var out := LastOutput(store, CsvKeys(listing.GetOr([])), codec, Preparer(codec), name);
      && LastPut(Driver(listing, store, codec).ops, OutputKey(name)) == out
      && (out.Some? ==>
          && OutputKey(name) in Driver(listing, store, codec).store
          && Driver(listing, store, codec).store[OutputKey(name)] == out.value)
  {
    var keys := CsvKeys(listing.GetOr([]));
    forall i | 0 <= i < |keys|
      ensures !StartsWith(keys[i], Destino)
    {
      assert keys[i] in keys;
      ListedNotProcessed(keys[i]);
    }
    ProcessAllLastWins(store, keys, codec, name);
  }
}
