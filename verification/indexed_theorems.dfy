/** Cache transparency and stack inclusion of the indexed store, over every run. */
module IndexedTheorems {
  import opened Base
  import opened Cids
  import opened IndexedSpec
  import LruSpec
  import T = LruTheorems

  datatype Op = GetOp(cid: Cid) | GetSizeOp(cid: Cid) | PutOp(blk: Block) | DeleteOp(cid: Cid)

  /** The file and its index, fixed while the store is used. */
  datatype Car = Car(bytes: Bytes, idx: Index)

  function Apply(s: seq<Block>, limit: uint64, car: Car, op: Op): seq<Block> {
    match op
    case GetOp(c) => AfterGet(s, limit, car.bytes, car.idx, c)
    case GetSizeOp(c) => AfterGetSize(s, limit, car.bytes, car.idx, c)
    case PutOp(b) => LruSpec.Put(s, limit, b)
    case DeleteOp(c) => LruSpec.Delete(s, c)
  }

  /** The cache after a run that starts from the blocks IndexAll put. */
  function Run(limit: uint64, car: Car, loaded: seq<Block>, ops: seq<Op>): seq<Block> {
    if ops == [] then LruSpec.PutMany([], limit, loaded)
    else Apply(Run(limit, car, loaded, ops[..|ops| - 1]), limit, car, ops[|ops| - 1])
  }

  /** Every indexed identifier is found intact at its first offset. */
  ghost predicate WellFormed(car: Car) {
    forall c :: c in car.idx ==> Stored(car.bytes, car.idx, c).Ok?
  }

  /** The block agrees with the file whenever the file has one of that name. */
  ghost predicate Agreeing(car: Car, b: Block) {
    b.cid in car.idx ==> Stored(car.bytes, car.idx, b.cid) == Ok(b)
  }

  ghost predicate AllAgree(car: Car, s: seq<Block>) {
    forall i :: 0 <= i < |s| ==> Agreeing(car, s[i])
  }

  ghost predicate OpsAgree(car: Car, ops: seq<Op>) {
    forall i :: 0 <= i < |ops| && ops[i].PutOp? ==> Agreeing(car, ops[i].blk)
  }

  lemma PutKeepsAgreement(s: seq<Block>, limit: uint64, car: Car, b: Block)
    requires AllAgree(car, s) && Agreeing(car, b)
    ensures AllAgree(car, LruSpec.Put(s, limit, b))
  {
    hide Agreeing;
    T.EvictIsPrefix(s, |b.data|, limit);
  }

  lemma {:induction false} PutManyKeepsAgreement(s: seq<Block>, limit: uint64, car: Car, bs: seq<Block>)
    requires AllAgree(car, s) && AllAgree(car, bs)
    ensures AllAgree(car, LruSpec.PutMany(s, limit, bs))
  {
    if bs != [] {
      PutManyKeepsAgreement(s, limit, car, bs[..|bs| - 1]);
      PutKeepsAgreement(LruSpec.PutMany(s, limit, bs[..|bs| - 1]), limit, car, bs[|bs| - 1]);
    }
  }

  lemma GetKeepsAgreement(s: seq<Block>, limit: uint64, car: Car, c: Cid)
    requires WellFormed(car) && AllAgree(car, s)
    ensures AllAgree(car, AfterGet(s, limit, car.bytes, car.idx, c))
  {
    if LruSpec.Holds(s, c) {
      hide Agreeing;
    } else if Stored(car.bytes, car.idx, c).Ok? {
      PutKeepsAgreement(s, limit, car, Stored(car.bytes, car.idx, c).value);
    }
  }

  lemma {:induction false} RunKeepsAgreement(limit: uint64, car: Car, loaded: seq<Block>, ops: seq<Op>)
    requires WellFormed(car) && AllAgree(car, loaded) && OpsAgree(car, ops)
    ensures AllAgree(car, Run(limit, car, loaded, ops))
  {
    if ops == [] {
      PutManyKeepsAgreement([], limit, car, loaded);
    } else {
      var before, op := ops[..|ops| - 1], ops[|ops| - 1];
      var s := Run(limit, car, loaded, before);
      RunKeepsAgreement(limit, car, loaded, before);
      match op
      case GetOp(c) => GetKeepsAgreement(s, limit, car, c);
      case GetSizeOp(c) => GetKeepsAgreement(s, limit, car, c);
      case PutOp(b) => PutKeepsAgreement(s, limit, car, b);
      case DeleteOp(c) => hide Agreeing;
    }
  }

  /** Whatever the memory limit and whatever happened before, an indexed identifier yields what the file stores. */
  lemma CacheIsTransparent(limit: uint64, car: Car, loaded: seq<Block>, ops: seq<Op>, c: Cid)
    requires WellFormed(car) && AllAgree(car, loaded) && OpsAgree(car, ops) && c in car.idx
    ensures var s := Run(limit, car, loaded, ops);
            && GetAnswer(s, car.bytes, car.idx, c) == Stored(car.bytes, car.idx, c)
            && GetSizeAnswer(s, car.bytes, car.idx, c) == Ok(|Stored(car.bytes, car.idx, c).value.data|)
  {
    RunKeepsAgreement(limit, car, loaded, ops);
  }

  /** So two stores over one file, of any sizes and with any histories, cannot be told apart by their answers. */
  lemma LimitsAreUnobservable(l1: uint64, l2: uint64, car: Car, loaded: seq<Block>, ops1: seq<Op>, ops2: seq<Op>, c: Cid)
    requires WellFormed(car) && AllAgree(car, loaded) && OpsAgree(car, ops1) && OpsAgree(car, ops2) && c in car.idx
    ensures GetAnswer(Run(l1, car, loaded, ops1), car.bytes, car.idx, c)
         == GetAnswer(Run(l2, car, loaded, ops2), car.bytes, car.idx, c)
  {
    CacheIsTransparent(l1, car, loaded, ops1, c);
    CacheIsTransparent(l2, car, loaded, ops2, c);
  }

  /** An indexed identifier is always found; any other only while a block of that name is cached, though Has denies it. */
  lemma HasExactly(limit: uint64, car: Car, loaded: seq<Block>, ops: seq<Op>, c: Cid)
    requires WellFormed(car) && AllAgree(car, loaded) && OpsAgree(car, ops)
    ensures var s := Run(limit, car, loaded, ops);
            && (GetAnswer(s, car.bytes, car.idx, c).Ok? <==> c in car.idx || LruSpec.Holds(s, c))
            && (GetAnswer(s, car.bytes, car.idx, c).Ok? <==> GetSizeAnswer(s, car.bytes, car.idx, c).Ok?)
  {
    if c in car.idx {
      CacheIsTransparent(limit, car, loaded, ops, c);
    }
  }

  // ---------------------------------------------------------------- stack inclusion

  /** What is asked of the file is there. */
  ghost predicate Findable(car: Car, op: Op) {
    op.GetOp? || op.GetSizeOp? ==> Stored(car.bytes, car.idx, op.cid).Ok?
  }

  /** The file, the loaded blocks and the Puts agree on what every name stands for. */
  ghost predicate Proper(car: Car, loaded: seq<Block>, ops: seq<Op>, content: Cid -> Bytes) {
    && (forall c :: Stored(car.bytes, car.idx, c).Ok? ==> Stored(car.bytes, car.idx, c).value.data == content(c))
    && T.Faithful(loaded, content)
    && (forall i :: 0 <= i < |ops| ==> Findable(car, ops[i]) && (ops[i].PutOp? ==> ops[i].blk.data == content(ops[i].blk.cid)))
  }

  lemma StoredName(car: Car, c: Cid)
    ensures Stored(car.bytes, car.idx, c).Ok? ==> Stored(car.bytes, car.idx, c).value.cid == c
  {
  }

  lemma PutFaithful(s: seq<Block>, limit: uint64, b: Block, content: Cid -> Bytes)
    requires T.Faithful(s, content) && b.data == content(b.cid)
    ensures T.Faithful(LruSpec.Put(s, limit, b), content)
  {
    T.EvictIsPrefix(s, |b.data|, limit);
  }

  lemma {:induction false} PutManyFaithful(limit: uint64, loaded: seq<Block>, content: Cid -> Bytes)
    requires T.Faithful(loaded, content)
    ensures T.Faithful(LruSpec.PutMany([], limit, loaded), content)
  {
    if loaded != [] {
      PutManyFaithful(limit, loaded[..|loaded| - 1], content);
      PutFaithful(LruSpec.PutMany([], limit, loaded[..|loaded| - 1]), limit, loaded[|loaded| - 1], content);
    }
  }

  lemma ReadFaithful(s: seq<Block>, limit: uint64, car: Car, c: Cid, content: Cid -> Bytes)
    requires T.Faithful(s, content) && Stored(car.bytes, car.idx, c).Ok? && Stored(car.bytes, car.idx, c).value.data == content(c)
    ensures T.Faithful(AfterGet(s, limit, car.bytes, car.idx, c), content)
    ensures T.Faithful(AfterGetSize(s, limit, car.bytes, car.idx, c), content)
  {
    StoredName(car, c);
    hide Stored;
    PutFaithful(s, limit, Stored(car.bytes, car.idx, c).value, content);
  }

  lemma ProperFront(car: Car, loaded: seq<Block>, ops: seq<Op>, content: Cid -> Bytes, n: nat)
    requires Proper(car, loaded, ops, content) && n <= |ops|
    ensures Proper(car, loaded, ops[..n], content)
    ensures n < |ops| ==> Findable(car, ops[n]) && (ops[n].PutOp? ==> ops[n].blk.data == content(ops[n].blk.cid))
  {
    hide Stored, Findable;
  }

  lemma {:induction false} RunFaithful(limit: uint64, car: Car, loaded: seq<Block>, ops: seq<Op>, content: Cid -> Bytes)
    requires Proper(car, loaded, ops, content)
    ensures T.Faithful(Run(limit, car, loaded, ops), content)
  {
    if ops == [] {
      PutManyFaithful(limit, loaded, content);
    } else {
      var n := |ops| - 1;
      ProperFront(car, loaded, ops, content, n);
      RunFaithful(limit, car, loaded, ops[..n], content);
      var s := Run(limit, car, loaded, ops[..n]);
      match ops[n]
      case GetOp(c) => ReadFaithful(s, limit, car, c, content);
      case GetSizeOp(c) => ReadFaithful(s, limit, car, c, content);
      case PutOp(b) => PutFaithful(s, limit, b, content);
      case DeleteOp(c) =>
    }
  }

  /** Asking both caches for the size is harmless: both have the block, or neither, or the emptied one catches up with the other's front. */
  predicate SafeGetSize(s: seq<Block>, l: seq<Block>, c: Cid) {
    LruSpec.Holds(s, c) || !LruSpec.Holds(l, c) || (s == [] && LruSpec.IndexOf(l, c) == 0)
  }

  /** The block to be loaded is what the larger cache holds under that name. */
  ghost predicate SameContent(l: seq<Block>, b: Block) {
    forall i :: 0 <= i < |l| && l[i].cid == b.cid ==> l[i].data == b.data
  }

  lemma GetSizeLoads(s: seq<Block>, limit: uint64, car: Car, c: Cid)
    requires Stored(car.bytes, car.idx, c).Ok?
    ensures AfterGetSize(s, limit, car.bytes, car.idx, c)
         == if LruSpec.Holds(s, c) then s else LruSpec.Put(s, limit, Stored(car.bytes, car.idx, c).value)
  {
  }

  /** A GetSize keeps the prefix relation between the caches if and only if it is harmless in this sense. */
  lemma GetSizeStepExactly(s: seq<Block>, l: seq<Block>, small: uint64, large: uint64, car: Car, c: Cid)
    requires s <= l && small <= large && Stored(car.bytes, car.idx, c).Ok?
    requires SameContent(l, Stored(car.bytes, car.idx, c).value)
    ensures AfterGetSize(s, small, car.bytes, car.idx, c) <= AfterGetSize(l, large, car.bytes, car.idx, c) <==> SafeGetSize(s, l, c)
  {
    StoredName(car, c);
    GetSizeLoads(s, small, car, c);
    GetSizeLoads(l, large, car, c);
    T.PrefixIndex(s, l, c);
    hide Stored, AfterGetSize;
    var b := Stored(car.bytes, car.idx, c).value;
    if !LruSpec.Holds(s, c) {
      if LruSpec.Holds(l, c) {
        LoadedBehind(s, l, small, b);
      } else {
        T.PutKeepsInclusion(s, l, small, large, b);
      }
    }
  }

  /** Loading into the smaller cache what the larger one holds keeps the prefix only on an empty cache, at the larger one's front. */
  lemma LoadedBehind(s: seq<Block>, l: seq<Block>, small: uint64, b: Block)
    requires s <= l && SameContent(l, b) && !LruSpec.Holds(s, b.cid) && LruSpec.Holds(l, b.cid)
    ensures LruSpec.Put(s, small, b) <= l <==> s == [] && LruSpec.IndexOf(l, b.cid) == 0
  {
    var put := LruSpec.Put(s, small, b);
    assert put[0] == b;
    if s == [] {
      assert LruSpec.Evict(s, |b.data|, small) == [];
      assert put == [b];
    } else {
      assert s[0] == l[0];
      FirstDiffers(s, b.cid);
    }
  }

  lemma FirstDiffers(s: seq<Block>, c: Cid)
    requires s != [] && !LruSpec.Holds(s, c)
    ensures s[0].cid != c
  {
  }

  /** The i-th operation of a run is no harmful GetSize. */
  predicate SafeAt(small: uint64, large: uint64, car: Car, loaded: seq<Block>, ops: seq<Op>, i: nat)
    requires i < |ops|
  {
    ops[i].GetSizeOp? ==> SafeGetSize(Run(small, car, loaded, ops[..i]), Run(large, car, loaded, ops[..i]), ops[i].cid)
  }

  ghost predicate AllSafe(small: uint64, large: uint64, car: Car, loaded: seq<Block>, ops: seq<Op>) {
    forall i :: 0 <= i < |ops| ==> SafeAt(small, large, car, loaded, ops, i)
  }

  /** After every operation the smaller cache is a recency prefix of the larger one. */
  ghost predicate IncludedThroughout(small: uint64, large: uint64, car: Car, loaded: seq<Block>, ops: seq<Op>) {
    forall n :: 0 <= n <= |ops| ==> IncludedAt(small, large, car, loaded, ops, n)
  }

  ghost predicate IncludedAt(small: uint64, large: uint64, car: Car, loaded: seq<Block>, ops: seq<Op>, n: nat)
    requires n <= |ops|
  {
    Run(small, car, loaded, ops[..n]) <= Run(large, car, loaded, ops[..n])
  }

  lemma {:induction false} PutManyKeepsInclusion(small: uint64, large: uint64, loaded: seq<Block>, content: Cid -> Bytes)
    requires small <= large && T.Faithful(loaded, content)
    ensures LruSpec.PutMany([], small, loaded) <= LruSpec.PutMany([], large, loaded)
  {
    if loaded != [] {
      var n := |loaded| - 1;
      PutManyKeepsInclusion(small, large, loaded[..n], content);
      PutManyFaithful(large, loaded[..n], content);
      T.PutKeepsInclusion(LruSpec.PutMany([], small, loaded[..n]), LruSpec.PutMany([], large, loaded[..n]), small, large, loaded[n]);
    }
  }

  lemma GetKeepsInclusion(s: seq<Block>, l: seq<Block>, small: uint64, large: uint64, car: Car, c: Cid)
    requires s <= l && small <= large && Stored(car.bytes, car.idx, c).Ok?
    requires SameContent(l, Stored(car.bytes, car.idx, c).value)
    ensures AfterGet(s, small, car.bytes, car.idx, c) <= AfterGet(l, large, car.bytes, car.idx, c)
  {
    GetIsPut(s, small, car, c);
    GetIsPut(l, large, car, c);
    hide Stored, AfterGet;
    T.PutKeepsInclusion(s, l, small, large, Stored(car.bytes, car.idx, c).value);
  }

  /** Getting a stored block is putting it: both move it to the front or bring it in. */
  lemma GetIsPut(s: seq<Block>, limit: uint64, car: Car, c: Cid)
    requires Stored(car.bytes, car.idx, c).Ok?
    ensures AfterGet(s, limit, car.bytes, car.idx, c) == LruSpec.Put(s, limit, Stored(car.bytes, car.idx, c).value)
  {
    StoredName(car, c);
  }

  /** One operation keeps the prefix relation unless it is a harmful GetSize. */
  lemma StepExactly(s: seq<Block>, l: seq<Block>, small: uint64, large: uint64, car: Car, op: Op, content: Cid -> Bytes)
    requires s <= l && small <= large && T.Faithful(l, content) && Findable(car, op)
    requires op.PutOp? ==> op.blk.data == content(op.blk.cid)
    requires forall c :: Stored(car.bytes, car.idx, c).Ok? ==> Stored(car.bytes, car.idx, c).value.data == content(c)
    ensures Apply(s, small, car, op) <= Apply(l, large, car, op) <==> (op.GetSizeOp? ==> SafeGetSize(s, l, op.cid))
  {
    match op
    case GetOp(c) =>
      StoredName(car, c);
      GetKeepsInclusion(s, l, small, large, car, c);
    case GetSizeOp(c) =>
      StoredName(car, c);
      GetSizeStepExactly(s, l, small, large, car, c);
    case PutOp(b) => T.PutKeepsInclusion(s, l, small, large, b);
    case DeleteOp(c) => T.PrefixIndex(s, l, c);
  }

  lemma RunSnoc(limit: uint64, car: Car, loaded: seq<Block>, ops: seq<Op>, n: nat)
    requires n < |ops|
    ensures Run(limit, car, loaded, ops[..n + 1]) == Apply(Run(limit, car, loaded, ops[..n]), limit, car, ops[n])
  {
    hide Apply;
    assert ops[..n + 1][..n] == ops[..n];
  }

  lemma IncludedStep(small: uint64, large: uint64, car: Car, loaded: seq<Block>, ops: seq<Op>, content: Cid -> Bytes, n: nat)
    requires small <= large && Proper(car, loaded, ops, content) && n < |ops| && IncludedAt(small, large, car, loaded, ops, n)
    ensures IncludedAt(small, large, car, loaded, ops, n + 1) <==> SafeAt(small, large, car, loaded, ops, n)
  {
    hide Apply, Stored, SafeGetSize, Findable;
    ProperFront(car, loaded, ops, content, n);
    RunFaithful(large, car, loaded, ops[..n], content);
    RunSnoc(small, car, loaded, ops, n);
    RunSnoc(large, car, loaded, ops, n);
    StepExactly(Run(small, car, loaded, ops[..n]), Run(large, car, loaded, ops[..n]), small, large, car, ops[n], content);
  }

  lemma {:induction false} SafeIsIncluded(
    small: uint64, large: uint64, car: Car, loaded: seq<Block>, ops: seq<Op>, content: Cid -> Bytes, n: nat)
    requires small <= large && Proper(car, loaded, ops, content) && n <= |ops|
    requires forall i :: 0 <= i < n ==> SafeAt(small, large, car, loaded, ops, i)
    ensures IncludedAt(small, large, car, loaded, ops, n)
  {
    hide Proper, SafeAt;
    if n == 0 {
      LoadedIncluded(small, large, car, loaded, ops, content);
    } else {
      SafeIsIncluded(small, large, car, loaded, ops, content, n - 1);
      IncludedStep(small, large, car, loaded, ops, content, n - 1);
    }
  }

  lemma LoadedIncluded(small: uint64, large: uint64, car: Car, loaded: seq<Block>, ops: seq<Op>, content: Cid -> Bytes)
    requires small <= large && Proper(car, loaded, ops, content)
    ensures IncludedAt(small, large, car, loaded, ops, 0)
  {
    PutManyKeepsInclusion(small, large, loaded, content);
  }

  /**
    For any two limits and any run: the store with less memory caches, at all times, a recency prefix of what the
    store with more memory caches, if and only if no GetSize of the run is harmful when it comes.
    */
  lemma IndexedStackInclusionExactly(small: uint64, large: uint64, car: Car, loaded: seq<Block>, ops: seq<Op>, content: Cid -> Bytes)
    requires small <= large && Proper(car, loaded, ops, content)
    ensures IncludedThroughout(small, large, car, loaded, ops) <==> AllSafe(small, large, car, loaded, ops)
  {
    hide Proper, SafeAt, IncludedAt;
    if AllSafe(small, large, car, loaded, ops) {
      forall n | 0 <= n <= |ops| ensures IncludedAt(small, large, car, loaded, ops, n) {
        SafeIsIncluded(small, large, car, loaded, ops, content, n);
      }
    }
    if IncludedThroughout(small, large, car, loaded, ops) {
      forall i | 0 <= i < |ops| ensures SafeAt(small, large, car, loaded, ops, i) {
        assert IncludedAt(small, large, car, loaded, ops, i) && IncludedAt(small, large, car, loaded, ops, i + 1);
        IncludedStep(small, large, car, loaded, ops, content, i);
      }
    }
  }

  /** Without any GetSize the prefix relation always holds. */
  lemma IndexedStackInclusion(small: uint64, large: uint64, car: Car, loaded: seq<Block>, ops: seq<Op>, content: Cid -> Bytes)
    requires small <= large && Proper(car, loaded, ops, content) && forall i :: 0 <= i < |ops| ==> !ops[i].GetSizeOp?
    ensures IncludedThroughout(small, large, car, loaded, ops)
  {
    hide Proper;
    IndexedStackInclusionExactly(small, large, car, loaded, ops, content);
  }

  /** How many Gets and GetSizes of a run had to go to the file. */
  function FileReads(limit: uint64, car: Car, loaded: seq<Block>, ops: seq<Op>): nat {
    if ops == [] then 0
    else
      var before, op := ops[..|ops| - 1], ops[|ops| - 1];
      FileReads(limit, car, loaded, before)
      + if (op.GetOp? || op.GetSizeOp?) && !LruSpec.Holds(Run(limit, car, loaded, before), op.cid) then 1 else 0
  }

  /** No Belady anomaly: unless a GetSize is harmful, more memory never means more reads of the file. */
  lemma {:induction false} MoreMemoryNeverReadsMore(
    small: uint64, large: uint64, car: Car, loaded: seq<Block>, ops: seq<Op>, content: Cid -> Bytes, n: nat)
    requires small <= large && Proper(car, loaded, ops, content) && AllSafe(small, large, car, loaded, ops) && n <= |ops|
    ensures FileReads(large, car, loaded, ops[..n]) <= FileReads(small, car, loaded, ops[..n])
  {
    if n > 0 {
      hide Proper, SafeAt;
      MoreMemoryNeverReadsMore(small, large, car, loaded, ops, content, n - 1);
      SafeIsIncluded(small, large, car, loaded, ops, content, n - 1);
      assert ops[..n][..n - 1] == ops[..n - 1];
      var op := ops[n - 1];
      if op.GetOp? || op.GetSizeOp? {
        T.PrefixIndex(Run(small, car, loaded, ops[..n - 1]), Run(large, car, loaded, ops[..n - 1]), op.cid);
      }
    }
  }

  // ---------------------------------------------------------------- an example of a harmful GetSize

  /** Two stored blocks of equal size and one GetSize are enough. */
  lemma GetSizeBreaksInclusion(car: Car, a: Cid, b: Cid, n: nat)
    requires WellFormed(car) && a in car.idx && b in car.idx && a != b && 0 < n < TWO_63 / 2
    requires |Stored(car.bytes, car.idx, a).value.data| == |Stored(car.bytes, car.idx, b).value.data| == n
    ensures var ops := [GetOp(a), GetOp(b), GetSizeOp(a)];
            !(Run(n, car, [], ops) <= Run(2 * n, car, [], ops))
  {
    var x, y := Stored(car.bytes, car.idx, a).value, Stored(car.bytes, car.idx, b).value;
    StoredName(car, a);
    StoredName(car, b);
    TwoBlocks(x, y, n);
    assert forall limit: uint64 :: LruSpec.PutMany([], limit, []) == [];
    hide Stored, LruSpec.Put, LruSpec.PutMany, LruSpec.Holds, WellFormed;
    RunOfThree(n, car, GetOp(a), GetOp(b), GetSizeOp(a));
    RunOfThree(2 * n, car, GetOp(a), GetOp(b), GetSizeOp(a));
    MissLoads([], n, car, a);
    MissLoads([], 2 * n, car, a);
    MissLoads([x], n, car, b);
    MissLoads([x], 2 * n, car, b);
    MissLoads([y], n, car, a);
  }

  lemma RunOfThree(limit: uint64, car: Car, o1: Op, o2: Op, o3: Op)
    ensures Run(limit, car, [], [o1, o2, o3])
         == Apply(Apply(Apply(LruSpec.PutMany([], limit, []), limit, car, o1), limit, car, o2), limit, car, o3)
  {
    hide Apply;
    assert [o1, o2, o3][..2] == [o1, o2] && [o1, o2][..1] == [o1] && [o1][..0] == [];
    assert Run(limit, car, [], [o1]) == Apply(LruSpec.PutMany([], limit, []), limit, car, o1);
    assert Run(limit, car, [], [o1, o2]) == Apply(Run(limit, car, [], [o1]), limit, car, o2);
  }

  lemma MissLoads(s: seq<Block>, limit: uint64, car: Car, c: Cid)
    requires WellFormed(car) && c in car.idx && !LruSpec.Holds(s, c)
    ensures Stored(car.bytes, car.idx, c).Ok?
    ensures AfterGet(s, limit, car.bytes, car.idx, c) == LruSpec.Put(s, limit, Stored(car.bytes, car.idx, c).value)
    ensures AfterGetSize(s, limit, car.bytes, car.idx, c) == AfterGet(s, limit, car.bytes, car.idx, c)
  {
  }

  lemma PutInEmpty(limit: uint64, x: Block)
    ensures LruSpec.Put([], limit, x) == [x] && !LruSpec.Holds([], x.cid)
  {
    assert [x] + LruSpec.Evict([], |x.data|, limit) == [x];
  }

  /** A second block of the same size takes the place of the first, or stands before it when there is room for both. */
  lemma PutSecond(x: Block, y: Block, n: nat)
    requires x.cid != y.cid && |x.data| == |y.data| == n && 0 < n < TWO_63 / 2
    ensures LruSpec.Put([x], n, y) == [y] && LruSpec.Put([x], 2 * n, y) == [y, x] && !LruSpec.Holds([x], y.cid)
  {
    assert [x][1..] == [] && [x][..0] == [];
    assert LruSpec.Total([x]) == n && LruSpec.IndexOf([x], y.cid) == 1;
    assert LruSpec.Evict([x], n, n) == [] && LruSpec.Evict([x], n, 2 * n) == [x];
    assert [y] + [x] == [y, x] && [y] + [] == [y];
  }

  lemma TwoBlocks(x: Block, y: Block, n: nat)
    requires x.cid != y.cid && |x.data| == |y.data| == n && 0 < n < TWO_63 / 2
    ensures forall limit: uint64 :: LruSpec.Put([], limit, x) == [x]
    ensures !LruSpec.Holds([], x.cid) && !LruSpec.Holds([x], y.cid) && !LruSpec.Holds([y], x.cid) && LruSpec.Holds([y, x], x.cid)
    ensures LruSpec.Put([x], n, y) == [y] && LruSpec.Put([y], n, x) == [x] && LruSpec.Put([x], 2 * n, y) == [y, x]
  {
    PutSecond(x, y, n);
    PutSecond(y, x, n);
    assert [y, x][1..] == [x];
    assert LruSpec.IndexOf([y, x], x.cid) == 1;
    hide LruSpec.Put, LruSpec.Holds;
    forall limit: uint64 ensures LruSpec.Put([], limit, x) == [x] && !LruSpec.Holds([], x.cid) {
      PutInEmpty(limit, x);
    }
  }
}
