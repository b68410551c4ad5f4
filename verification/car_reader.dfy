/** internal/carv2/car.go: the CARv1 header, the block reader and the two bulk loaders. */
module CarReaders {
  import opened Base
  import opened Varint
  import opened Cids
  import opened Framing

  const MAX_HEADER: nat := 0x200_0000
  const MAX_SECTION: nat := 0x80_0000
  const BATCH: nat := 1000

  datatype CarHeader = CarHeader(roots: seq<Cid>, version: nat)

  /** The CBOR codec of the header, which is a library's business. */
  datatype HeaderCodec = HeaderCodec(encode: CarHeader -> Bytes, decode: Bytes -> Option<CarHeader>)

  /** Decoding gives this header back. */
  ghost predicate Lossless(hc: HeaderCodec, h: CarHeader) {
    hc.decode(hc.encode(h)) == Some(h)
  }

  /** What of an identifier does not depend on the content: go-cid's Prefix. */
  datatype Prefix = Prefix(version: nat, codec: nat, hashCode: nat, length: nat)

  function PrefixOf(c: Cid): Prefix {
    match c
    case V0(digest) => Prefix(0, DAG_PB, SHA2_256, |digest|)
    case V1(codec, hashCode, digest) => Prefix(1, codec, hashCode, |digest|)
  }

  /** Prefix.Sum: the identifier of the data under a prefix, or an unknown hash function. */
  type Hasher = (Prefix, Bytes) -> Option<Cid>

  datatype Config = Config(zeroLenAsEof: bool, maxSection: nat, hash: Hasher)

  predicate Verifies(cfg: Config, b: Block) {
    cfg.hash(PrefixOf(b.cid), b.data) == Some(b.cid)
  }

  function HeaderAt(d: Bytes, p: nat, hc: HeaderCodec, max: nat): Parsed<CarHeader>
    requires p <= |d|
  {
    match PayloadAt(d, p, false, max)
    case Failed(e) => Failed(if e == SectionTooLarge then HeaderTooLarge else e)
    case Parsed(payload, q) =>
      match hc.decode(payload)
      case None => Failed(BadHeader)
      case Some(h) => Parsed(h, q)
  }

  /** The header as a reader accepts it: version 1 and at least one root. */
  function OpenAt(d: Bytes, p: nat, hc: HeaderCodec, max: nat): Parsed<CarHeader>
    requires p <= |d|
  {
    match HeaderAt(d, p, hc, max)
    case Failed(e) => Failed(e)
    case Parsed(h, q) =>
      if h.version != 1 then Failed(BadVersion) else if h.roots == [] then Failed(NoRoots) else Parsed(h, q)
  }

  function NextAt(d: Bytes, p: nat, cfg: Config): Parsed<Block>
    requires p <= |d|
  {
    match NodeAt(d, p, cfg.zeroLenAsEof, cfg.maxSection)
    case Failed(e) => Failed(e)
    case Parsed(b, q) => if Verifies(cfg, b) then Parsed(b, q) else Failed(HashMismatch)
  }

  /** Everything the reader delivers from a position, and the error that ends it. */
  function BlocksFrom(d: Bytes, p: nat, cfg: Config): (seq<Block>, IoError)
    requires p <= |d|
    decreases |d| - p
  {
    match NextAt(d, p, cfg)
    case Failed(e) => ([], e)
    case Parsed(b, q) =>
      NodeAdvances(d, p, cfg.zeroLenAsEof, cfg.maxSection);
      var (bs, e) := BlocksFrom(d, q, cfg);
      ([b] + bs, e)
  }

  method WriteHeader(h: CarHeader, w: ByteWriter, hc: HeaderCodec) returns (r: Result<(), IoError>)
    modifies w
    ensures |hc.encode(h)| < Pow128(8) ==> r.Ok? && w.out == old(w.out) + Frame(hc.encode(h))
  {
    r := LdWrite(w, [hc.encode(h)]);
    FlattenTwo(hc.encode(h), []);
    Powers();
  }

  method HeaderSize(h: CarHeader, hc: HeaderCodec) returns (size: uint64)
    ensures |hc.encode(h)| < TWO_63 ==> size == |Frame(hc.encode(h))|
  {
    size := LdSize([hc.encode(h)]);
    FlattenTwo(hc.encode(h), []);
  }

  method ReadHeader(r: ByteReader, hc: HeaderCodec, max: nat) returns (res: Result<CarHeader, IoError>)
    requires r.Valid()
    modifies r
    ensures r.Valid() && Agrees(res, HeaderAt(r.data, old(r.pos), hc, max), r.pos)
  {
    var hb := LdRead(r, false, max);
    if hb.Err? {
      return Err(if hb.error == SectionTooLarge then HeaderTooLarge else hb.error);
    }
    match hc.decode(hb.value)
    case None => return Err(BadHeader);
    case Some(h) => return Ok(h);
  }

  method NewCarReader(r: ByteReader, hc: HeaderCodec, maxHeader: nat, cfg: Config) returns (res: Result<CarReader, IoError>)
    requires r.Valid()
    modifies r
    ensures r.Valid()
    ensures match OpenAt(r.data, old(r.pos), hc, maxHeader)
            case Failed(e) => res == Err(e)
            case Parsed(h, q) => res.Ok? && res.value.r == r && res.value.header == h && res.value.cfg == cfg && r.pos == q
  {
    var ch := ReadHeader(r, hc, maxHeader);
    if ch.Err? {
      return Err(ch.error);
    }
    if ch.value.version != 1 {
      return Err(BadVersion);
    }
    if |ch.value.roots| == 0 {
      return Err(NoRoots);
    }
    var cr := new CarReader(r, ch.value, cfg);
    return Ok(cr);
  }

  class CarReader {
    const r: ByteReader
    const header: CarHeader
    const cfg: Config

    constructor (r: ByteReader, header: CarHeader, cfg: Config)
      ensures this.r == r && this.header == header && this.cfg == cfg
    {
      this.r, this.header, this.cfg := r, header, cfg;
    }

    method Next() returns (res: Result<Block, IoError>)
      requires r.Valid()
      modifies r
      ensures r.Valid() && Agrees(res, NextAt(r.data, old(r.pos), cfg), r.pos)
    {
      var node := ReadNode(r, cfg.zeroLenAsEof, cfg.maxSection);
      if node.Err? {
        return node;
      }
      var hashed := cfg.hash(PrefixOf(node.value.cid), node.value.data);
      if hashed == None || hashed.value != node.value.cid {
        return Err(HashMismatch);
      }
      return node;
    }
  }

  /** A destination for loaded blocks, some of whose calls fail and then store nothing. */
  class BlockSink {
    var blocks: seq<Block>
    var calls: nat
    const fails: nat -> bool

    ghost predicate Reliable()
      reads this
    {
      forall k :: k >= calls ==> !fails(k)
    }

    constructor (fails: nat -> bool)
      ensures this.fails == fails && blocks == [] && calls == 0
    {
      this.fails, blocks, calls := fails, [], 0;
    }

    method PutMany(bs: seq<Block>) returns (ok: bool)
      modifies this
      ensures calls == old(calls) + 1 && ok == !fails(old(calls))
      ensures blocks == if ok then old(blocks) + bs else old(blocks)
    {
      ok := !fails(calls);
      calls := calls + 1;
      if ok {
        blocks := blocks + bs;
      }
    }

    method Put(b: Block) returns (ok: bool)
      modifies this
      ensures calls == old(calls) + 1 && ok == !fails(old(calls))
      ensures blocks == if ok then old(blocks) + [b] else old(blocks)
    {
      ok := !fails(calls);
      calls := calls + 1;
      if ok {
        blocks := blocks + [b];
      }
    }
  }

  /** The complete batches of 1001 at the front of a list of blocks. */
  function CompleteBatches(bs: seq<Block>): (r: seq<Block>)
    ensures r <= bs
  {
    if |bs| <= BATCH then [] else bs[..BATCH + 1] + CompleteBatches(bs[BATCH + 1..])
  }

  /** Between two rounds of the batching loop: what was sent, what is buffered, and what is still to be read. */
  ghost predicate Batching(all: seq<Block>, sent: seq<Block>, buf: seq<Block>, rest: seq<Block>) {
    && sent + (buf + rest) == all && sent + CompleteBatches(buf + rest) == CompleteBatches(all)
    && |buf| <= BATCH
  }

  lemma BatchingStarts(all: seq<Block>)
    ensures Batching(all, [], [], all)
  {
    assert [] + all == all;
  }

  /** A block goes into the buffer, and a full buffer is sent. */
  lemma BatchingStep(all: seq<Block>, sent: seq<Block>, buf: seq<Block>, b: Block, rest: seq<Block>)
    requires Batching(all, sent, buf, [b] + rest)
    ensures |buf| < BATCH ==> Batching(all, sent, buf + [b], rest)
    ensures |buf| == BATCH ==> Batching(all, sent + (buf + [b]), [], rest) && sent + (buf + [b]) <= all
    ensures sent <= all
  {
    var full := buf + [b];
    assert buf + ([b] + rest) == full + rest;
    if |buf| == BATCH {
      assert (full + rest)[..BATCH + 1] == full && (full + rest)[BATCH + 1..] == rest;
      assert CompleteBatches(full + rest) == full + CompleteBatches(rest);
      assert [] + rest == rest;
      Associative(sent, full, rest);
      Associative(sent, full, CompleteBatches(rest));
    }
  }

  lemma Associative(a: seq<Block>, b: seq<Block>, c: seq<Block>)
    ensures a + (b + c) == a + b + c
  {
  }

  lemma PrefixAfter(before: seq<Block>, sent: seq<Block>, all: seq<Block>)
    requires sent <= all
    ensures before <= before + sent <= before + all
    ensures before + all <= before + all
  {
  }

  lemma BatchingEnds(all: seq<Block>, sent: seq<Block>, buf: seq<Block>)
    requires Batching(all, sent, buf, [])
    ensures sent == CompleteBatches(all) && sent + buf == all && sent <= all
  {
    assert buf + [] == buf;
    assert CompleteBatches(buf) == [];
    assert sent + [] == sent;
  }

  lemma BlocksStep(d: Bytes, p: nat, cfg: Config)
    requires p <= |d|
    ensures match NextAt(d, p, cfg)
            case Failed(e) => BlocksFrom(d, p, cfg) == ([], e)
            case Parsed(b, q) => p < q <= |d| && BlocksFrom(d, p, cfg) == ([b] + BlocksFrom(d, q, cfg).0, BlocksFrom(d, q, cfg).1)
  {
    NodeAdvances(d, p, cfg.zeroLenAsEof, cfg.maxSection);
  }

  /** One block at a time: everything read is delivered, whatever ends the stream. */
  method LoadCarSlow(s: BlockSink, cr: CarReader) returns (res: Result<CarHeader, IoError>)
    requires cr.r.Valid()
    modifies s, cr.r
    ensures var (bs, e) := BlocksFrom(cr.r.data, old(cr.r.pos), cr.cfg);
            && (old(s.Reliable()) ==> s.blocks == old(s.blocks) + bs && res == if e == Eof then Ok(cr.header) else Err(e))
            && old(s.blocks) <= s.blocks <= old(s.blocks) + bs
            && (res.Ok? ==> res.value == cr.header && s.blocks == old(s.blocks) + bs && e == Eof)
            && (res.Err? ==> res.error == StoreFailure || (res.error == e && e != Eof))
  {
    hide BlocksFrom, NextAt;
    ghost var (all, end) := BlocksFrom(cr.r.data, cr.r.pos, cr.cfg);
    ghost var got, rest := [], all;
    while true
      invariant cr.r.Valid()
      invariant BlocksFrom(cr.r.data, cr.r.pos, cr.cfg) == (rest, end) && got + rest == all
      invariant s.blocks == old(s.blocks) + got
      invariant old(s.Reliable()) ==> s.Reliable()
      decreases |cr.r.data| - cr.r.pos
    {
      BlocksStep(cr.r.data, cr.r.pos, cr.cfg);
      var blk := cr.Next();
      if blk.Err? {
        return if blk.error == Eof then Ok(cr.header) else Err(blk.error);
      }
      var ok := s.Put(blk.value);
      if !ok {
        return Err(StoreFailure);
      }
      got, rest := got + [blk.value], rest[1..];
    }
  }

  /** In batches of 1001: what a failing read leaves undelivered is the last incomplete batch. */
  method LoadCarFast(s: BlockSink, cr: CarReader) returns (res: Result<CarHeader, IoError>)
    requires cr.r.Valid()
    modifies s, cr.r
    ensures var (bs, e) := BlocksFrom(cr.r.data, old(cr.r.pos), cr.cfg);
            && (old(s.Reliable()) ==>
                  && res == (if e == Eof then Ok(cr.header) else Err(e))
                  && s.blocks == old(s.blocks) + if e == Eof then bs else CompleteBatches(bs))
            && old(s.blocks) <= s.blocks <= old(s.blocks) + bs
            && (res.Ok? ==> res.value == cr.header && s.blocks == old(s.blocks) + bs && e == Eof)
            && (res.Err? ==> res.error == StoreFailure || (res.error == e && e != Eof))
  {
    hide BlocksFrom, NextAt, CompleteBatches, Batching;
    var buf: seq<Block> := [];
    ghost var (all, end) := BlocksFrom(cr.r.data, cr.r.pos, cr.cfg);
    ghost var sent, rest := [], all;
    BatchingStarts(all);
    while true
      invariant cr.r.Valid()
      invariant BlocksFrom(cr.r.data, cr.r.pos, cr.cfg) == (rest, end)
      invariant Batching(all, sent, buf, rest) && s.blocks == old(s.blocks) + sent && |buf| <= BATCH
      invariant old(s.Reliable()) ==> s.Reliable()
      decreases |cr.r.data| - cr.r.pos
    {
      BlocksStep(cr.r.data, cr.r.pos, cr.cfg);
      var blk := cr.Next();
      if blk.Err? {
        res := if blk.error == Eof then Ok(cr.header) else Err(blk.error);
        break;
      }
      rest := BlocksFrom(cr.r.data, cr.r.pos, cr.cfg).0;
      BatchingStep(all, sent, buf, blk.value, rest);
      buf := buf + [blk.value];
      if |buf| > BATCH {
        var ok := s.PutMany(buf);
        if !ok {
          PrefixAfter(old(s.blocks), sent, all);
          return Err(StoreFailure);
        }
        Associative(old(s.blocks), sent, buf);
        sent, buf := sent + buf, [];
      }
    }
    BatchingEnds(all, sent, buf);
    PrefixAfter(old(s.blocks), sent, all);
    Associative(old(s.blocks), sent, buf);
    if res.Ok? && |buf| > 0 {
      var ok := s.PutMany(buf);
      if !ok {
        return Err(StoreFailure);
      }
    }
  }

  /** What loading reports when the store is reliable: the same whether it takes batches or not. */
  function LoadResult(d: Bytes, p: nat, hc: HeaderCodec, cfg: Config): Result<CarHeader, IoError>
    requires p <= |d|
  {
    match OpenAt(d, p, hc, MAX_HEADER)
    case Failed(e) => Err(e)
    case Parsed(h, q) =>
      OpenAdvances(d, p, hc, MAX_HEADER);
      var (_, e) := BlocksFrom(d, q, cfg);
      if e == Eof then Ok(h) else Err(e)
  }

  /** What is delivered one by one. */
  function LoadBlocks(d: Bytes, p: nat, hc: HeaderCodec, cfg: Config): seq<Block>
    requires p <= |d|
  {
    match OpenAt(d, p, hc, MAX_HEADER)
    case Failed(e) => []
    case Parsed(h, q) =>
      OpenAdvances(d, p, hc, MAX_HEADER);
      BlocksFrom(d, q, cfg).0
  }

  lemma OpenAdvances(d: Bytes, p: nat, hc: HeaderCodec, max: nat)
    requires p <= |d|
    ensures OpenAt(d, p, hc, max).Parsed? ==> p < OpenAt(d, p, hc, max).next <= |d|
  {
    ReadAdvances(d, p, 0);
  }

  /** With a reliable store, its type only decides whether an unfinished batch is lost when reading fails part-way. */
  method LoadCar(s: BlockSink, r: ByteReader, hc: HeaderCodec, cfg: Config, takesBatches: bool)
    returns (res: Result<CarHeader, IoError>)
    requires r.Valid()
    modifies s, r
    ensures old(s.Reliable()) ==> res == LoadResult(r.data, old(r.pos), hc, cfg)
    ensures res.Ok? || res.error != StoreFailure ==> res == LoadResult(r.data, old(r.pos), hc, cfg)
    ensures var all := LoadBlocks(r.data, old(r.pos), hc, cfg);
            && old(s.blocks) <= s.blocks <= old(s.blocks) + all
            && (res.Ok? ==> s.blocks == old(s.blocks) + all)
            && (old(s.Reliable()) && !takesBatches ==> s.blocks == old(s.blocks) + all)
            && (old(s.Reliable()) && res.Err? && takesBatches ==> s.blocks == old(s.blocks) + CompleteBatches(all))
  {
    OpenAdvances(r.data, r.pos, hc, MAX_HEADER);
    var cr := NewCarReader(r, hc, MAX_HEADER, cfg);
    if cr.Err? {
      return Err(cr.error);
    }
    if takesBatches {
      res := LoadCarFast(s, cr.value);
    } else {
      res := LoadCarSlow(s, cr.value);
    }
  }
}
