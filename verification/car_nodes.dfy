/** The DAG service ReadCAR puts on the indexed store: nodes by identifier, whatever the cache holds. */
module CarNodes {
  import opened Base
  import C = Cids
  import opened CarReaders
  import LruSpec
  import T = LruTheorems
  import opened IndexedSpec
  import opened IndexedBlockstores
  import opened IndexedTheorems
  import opened IndexedArchives
  import opened Dag
  import opened Bfs
  import opened CarEncoding

  // ---------------------------------------------------------------- a cache of the file's own blocks

  /** The cached block is what the file gives for its name. */
  ghost predicate Served(car: Car, b: C.Block) {
    b.cid in car.idx && Stored(car.bytes, car.idx, b.cid) == Ok(b)
  }

  ghost predicate AllServed(car: Car, s: seq<C.Block>) {
    forall i :: 0 <= i < |s| ==> Served(car, s[i])
  }

  lemma PutServed(s: seq<C.Block>, limit: uint64, car: Car, b: C.Block)
    requires AllServed(car, s) && Served(car, b)
    ensures AllServed(car, LruSpec.Put(s, limit, b))
  {
    hide Served;
    T.EvictIsPrefix(s, |b.data|, limit);
  }

  lemma {:induction false} PutManyServed(s: seq<C.Block>, limit: uint64, car: Car, bs: seq<C.Block>)
    requires AllServed(car, s) && AllServed(car, bs)
    ensures AllServed(car, LruSpec.PutMany(s, limit, bs))
  {
    if bs != [] {
      PutManyServed(s, limit, car, bs[..|bs| - 1]);
      PutServed(LruSpec.PutMany(s, limit, bs[..|bs| - 1]), limit, car, bs[|bs| - 1]);
    }
  }

  lemma StoredIsServed(car: Car, c: C.Cid)
    ensures Stored(car.bytes, car.idx, c).Ok? ==> Served(car, Stored(car.bytes, car.idx, c).value)
  {
  }

  lemma GetServed(s: seq<C.Block>, limit: uint64, car: Car, c: C.Cid)
    requires AllServed(car, s)
    ensures AllServed(car, AfterGet(s, limit, car.bytes, car.idx, c))
    ensures AllServed(car, AfterGetSize(s, limit, car.bytes, car.idx, c))
  {
    hide Served, Stored;
    if !LruSpec.Holds(s, c) && Stored(car.bytes, car.idx, c).Ok? {
      StoredIsServed(car, c);
      PutServed(s, limit, car, Stored(car.bytes, car.idx, c).value);
    }
  }

  /** Such a cache cannot be noticed: every identifier, indexed or not, is answered from the file. */
  lemma ServedAnswers(s: seq<C.Block>, car: Car, c: C.Cid)
    requires AllServed(car, s)
    ensures GetAnswer(s, car.bytes, car.idx, c) == Stored(car.bytes, car.idx, c)
  {
    hide Stored;
  }

  // ---------------------------------------------------------------- what the file provides

  /** A block named after one of these nodes holds that node's bytes. */
  ghost predicate Addressed(enc: Encoding, cs: set<Cid>, bs: seq<C.Block>) {
    forall i, c :: 0 <= i < |bs| && c in cs && bs[i].cid == enc.cid(c) ==> c.Of? && bs[i].data == enc.raw(c.node)
  }

  /** The identifiers of nodes among the blocks' names. */
  ghost function HeldBy(enc: Encoding, dec: Decoding, bs: seq<C.Block>): set<Cid> {
    set i | 0 <= i < |bs| && enc.cid(dec.cid(bs[i].cid)) == bs[i].cid :: dec.cid(bs[i].cid)
  }

  lemma WrittenIsHeld(enc: Encoding, dec: Decoding, cs: seq<Cid>)
    requires Inverse(dec, enc, Elements(cs)) && AllDefined(cs)
    ensures HeldBy(enc, dec, BlocksOf(enc, cs)) == Elements(cs)
  {
    var bs := BlocksOf(enc, cs);
    forall i | 0 <= i < |cs| ensures dec.cid(bs[i].cid) == cs[i] {
      assert cs[i] in Elements(cs) && bs[i] == BlockOf(enc, cs[i]);
    }
  }

  /** Of the known nodes, the file gives exactly the held ones, each under its identifier. */
  ghost predicate Provides(car: Car, enc: Encoding, known: set<Cid>, held: set<Cid>) {
    forall c :: c in known ==> ProvidesOne(car, enc, held, c)
  }

  ghost predicate ProvidesOne(car: Car, enc: Encoding, held: set<Cid>, c: Cid) {
    match Stored(car.bytes, car.idx, enc.cid(c))
    case Err(_) => c !in held
    case Ok(b) => c in held && c.Of? && b.data == enc.raw(c.node)
  }

  lemma HeldMeansNamed(enc: Encoding, dec: Decoding, bs: seq<C.Block>, c: Cid)
    requires dec.cid(enc.cid(c)) == c
    ensures c in HeldBy(enc, dec, bs) <==> Names(bs, enc.cid(c))
  {
    if Names(bs, enc.cid(c)) {
      var i :| 0 <= i < |bs| && bs[i].cid == enc.cid(c);
      assert dec.cid(bs[i].cid) == c;
    }
  }

  lemma InverseAt(dec: Decoding, enc: Encoding, cs: set<Cid>, c: Cid)
    requires Inverse(dec, enc, cs) && c in cs
    ensures dec.cid(enc.cid(c)) == c && (c.Of? ==> dec.node(enc.raw(c.node)) == Some(c.node))
  {
  }

  /** An indexed archive provides exactly the nodes its blocks name. */
  lemma ArchiveProvides(d: Bytes, idx: Index, p: nat, cfg: Config, enc: Encoding, dec: Decoding, known: set<Cid>)
    requires p <= |d| < TWO_63 && Indexes(idx, d, p, cfg) && cfg.maxSection <= MAX_RELOAD
    requires Inverse(dec, enc, known) && Addressed(enc, known, BlocksFrom(d, p, cfg).0) && Consistent(BlocksFrom(d, p, cfg).0)
    ensures Provides(Car(d, idx), enc, known, HeldBy(enc, dec, BlocksFrom(d, p, cfg).0))
    ensures AllServed(Car(d, idx), BlocksFrom(d, p, cfg).0)
  {
    hide Inverse, Addressed, Consistent, Indexes, BlocksFrom, Stored, HeldBy, Verifies, Names, ProvidesOne;
    var bs := BlocksFrom(d, p, cfg).0;
    forall c | c in known ensures ProvidesOne(Car(d, idx), enc, HeldBy(enc, dec, bs), c) {
      ProvidesNode(d, idx, p, cfg, enc, dec, known, c);
    }
    IndexedIsWellFormed(idx, d, p, cfg);
  }

  lemma ProvidesNode(d: Bytes, idx: Index, p: nat, cfg: Config, enc: Encoding, dec: Decoding, known: set<Cid>, c: Cid)
    requires p <= |d| < TWO_63 && Indexes(idx, d, p, cfg) && cfg.maxSection <= MAX_RELOAD && c in known
    requires Inverse(dec, enc, known) && Addressed(enc, known, BlocksFrom(d, p, cfg).0)
    ensures ProvidesOne(Car(d, idx), enc, HeldBy(enc, dec, BlocksFrom(d, p, cfg).0), c)
  {
    InverseAt(dec, enc, known, c);
    hide Inverse, Indexes, BlocksFrom, HeldBy, Verifies, Names, ReadOffset;
    HeldMeansNamed(enc, dec, BlocksFrom(d, p, cfg).0, c);
    IndexedOffsets(idx, d, p, cfg, enc.cid(c));
    if enc.cid(c) in idx {
      var i := IndexFinds(idx, d, p, cfg, enc.cid(c));
      assert BlocksFrom(d, p, cfg).0[i].cid == enc.cid(c);
    }
  }

  // ---------------------------------------------------------------- the service

  /** Fetches the known nodes through the indexed store; `held` are those it can fetch, at any time and within any memory limit. */
  class CarDag {
    const store: IndexedBlockstore
    const enc: Encoding
    const dec: Decoding
    ghost const car: Car
    ghost const known: set<Cid>
    ghost const held: set<Cid>

    ghost predicate Valid()
      reads store, store.lru, store.lru.nodes, store.reader
    {
      && store.Valid() && store.idx == Some(car.idx) && store.reader.data == car.bytes
      && AllServed(car, store.Cached()) && Provides(car, enc, known, held) && Inverse(dec, enc, known)
    }

    constructor (
      store: IndexedBlockstore, enc: Encoding, dec: Decoding, ghost car: Car, ghost known: set<Cid>, ghost held: set<Cid>)
      requires store.Valid() && store.idx == Some(car.idx) && store.reader.data == car.bytes
      requires AllServed(car, store.Cached()) && Provides(car, enc, known, held) && Inverse(dec, enc, known)
      ensures Valid() && this.store == store && this.enc == enc && this.dec == dec && this.known == known && this.held == held
    {
      this.store, this.enc, this.dec, this.car, this.known, this.held := store, enc, dec, car, known, held;
    }

    method Get(c: Cid) returns (r: Option<Node>)
      requires Valid() && c in known
      modifies store.lru, store.lru.repr, store.reader
      ensures Valid() && fresh(store.lru.repr - old(store.lru.repr))
      ensures r == if c in held && c.Of? then Some(c.node) else None
    {
      hide AllServed, Served, Stored, Inverse, Provides, AfterGet, GetAnswer;
      ghost var before := store.Cached();
      ServedAnswers(before, car, enc.cid(c));
      GetServed(before, store.lru.limit, car, enc.cid(c));
      FetchedNode(car, enc, dec, known, held, c);
      var block := store.Get(enc.cid(c));
      if block.Err? {
        return None;
      }
      return dec.node(block.value.data);
    }

    /** The store's answer for the size: from the cache, or by loading the block. */
    method GetSize(c: Cid) returns (r: Option<nat>)
      requires Valid() && c in known
      modifies store.lru, store.lru.repr, store.reader
      ensures Valid() && fresh(store.lru.repr - old(store.lru.repr))
      ensures r == if c in held && c.Of? then Some(|enc.raw(c.node)|) else None
    {
      hide AllServed, Served, Stored, Inverse, Provides, AfterGetSize, GetAnswer;
      ghost var before := store.Cached();
      ServedAnswers(before, car, enc.cid(c));
      GetServed(before, store.lru.limit, car, enc.cid(c));
      FetchedNode(car, enc, dec, known, held, c);
      var size := store.GetSize(enc.cid(c));
      return if size.Ok? then Some(size.value) else None;
    }
  }

  lemma FetchedNode(car: Car, enc: Encoding, dec: Decoding, known: set<Cid>, held: set<Cid>, c: Cid)
    requires Provides(car, enc, known, held) && Inverse(dec, enc, known) && c in known
    ensures match Stored(car.bytes, car.idx, enc.cid(c))
            case Err(_) => c !in held
            case Ok(b) => c in held && c.Of? && b.data == enc.raw(c.node) && dec.node(b.data) == Some(c.node)
  {
    hide Stored;
    assert ProvidesOne(car, enc, held, c);
  }
}
