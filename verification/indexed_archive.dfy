/** An index that gives the offsets of a CAR's sections: every block of the file can be reloaded through it. */
module IndexedArchives {
  import opened Base
  import opened Varint
  import opened Cids
  import opened Framing
  import opened CarReaders
  import opened CarStreamTheorems
  import opened IndexedSpec
  import opened IndexedTheorems

  /** Reading on from `p`, a block named `c` starts at `o`. */
  predicate StartsAt(d: Bytes, p: nat, cfg: Config, o: nat, c: Cid)
    requires p <= |d|
    decreases |d| - p
  {
    match NextAt(d, p, cfg)
    case Failed(_) => false
    case Parsed(b, q) =>
      NodeAdvances(d, p, cfg.zeroLenAsEof, cfg.maxSection);
      (o == p && b.cid == c) || StartsAt(d, q, cfg, o, c)
  }

  predicate Names(bs: seq<Block>, c: Cid) {
    exists i :: 0 <= i < |bs| && bs[i].cid == c
  }

  /** The first of the offsets, which is the only one a reload tries, starts a block of that name. */
  ghost predicate OffsetsOf(d: Bytes, p: nat, cfg: Config, offsets: seq<uint64>, c: Cid)
    requires p <= |d|
  {
    offsets != [] && StartsAt(d, p, cfg, offsets[0], c)
  }

  /** What go-car's index generation is taken to give: for each block's identifier, where blocks of that name start. */
  ghost predicate Indexes(idx: Index, d: Bytes, p: nat, cfg: Config)
    requires p <= |d|
  {
    && (forall c :: c in idx <==> Names(BlocksFrom(d, p, cfg).0, c))
    && forall c :: c in idx ==> OffsetsOf(d, p, cfg, idx[c], c)
  }

  /** Blocks of one name are one block. */
  ghost predicate Consistent(bs: seq<Block>) {
    forall i, j :: 0 <= i < |bs| && 0 <= j < |bs| && bs[i].cid == bs[j].cid ==> bs[i] == bs[j]
  }

  // ---------------------------------------------------------------- reloading

  lemma {:induction false} StartReads(d: Bytes, p: nat, cfg: Config, o: nat, c: Cid) returns (i: nat)
    requires p <= |d| && StartsAt(d, p, cfg, o, c)
    ensures o <= |d| && NextAt(d, o, cfg).Parsed? && NextAt(d, o, cfg).value.cid == c
    ensures i < |BlocksFrom(d, p, cfg).0| && BlocksFrom(d, p, cfg).0[i] == NextAt(d, o, cfg).value
    decreases |d| - p
  {
    hide NextAt;
    BlocksStep(d, p, cfg);
    var b, q := NextAt(d, p, cfg).value, NextAt(d, p, cfg).next;
    if o == p && b.cid == c {
      i := 0;
    } else {
      i := StartReads(d, q, cfg, o, c);
      i := i + 1;
    }
  }

  /** What was read within a smaller limit is read again within the limit of a reload. */
  lemma ReloadReads(d: Bytes, o: nat, cfg: Config)
    requires o <= |d| && NextAt(d, o, cfg).Parsed? && cfg.maxSection <= MAX_RELOAD
    ensures NodeAt(d, o, false, MAX_RELOAD) == NextAt(d, o, cfg)
  {
    hide ReadAt, CidFromBytes;
  }

  lemma NextVerifies(d: Bytes, o: nat, cfg: Config)
    requires o <= |d| && NextAt(d, o, cfg).Parsed?
    ensures Verifies(cfg, NextAt(d, o, cfg).value)
  {
  }

  /** An indexed identifier is found at its first offset, and what is found is a block of the file. */
  lemma IndexFinds(idx: Index, d: Bytes, p: nat, cfg: Config, c: Cid) returns (i: nat)
    requires p <= |d| < TWO_63 && Indexes(idx, d, p, cfg) && cfg.maxSection <= MAX_RELOAD && c in idx
    ensures Stored(d, idx, c).Ok? && Stored(d, idx, c).value.cid == c && Verifies(cfg, Stored(d, idx, c).value)
    ensures i < |BlocksFrom(d, p, cfg).0| && Stored(d, idx, c) == Ok(BlocksFrom(d, p, cfg).0[i])
  {
    hide NextAt, NodeAt, BlocksFrom, Indexes;
    assert OffsetsOf(d, p, cfg, idx[c], c) by { IndexedOffsets(idx, d, p, cfg, c); }
    i := StartReads(d, p, cfg, idx[c][0], c);
    ReloadReads(d, idx[c][0], cfg);
    NextVerifies(d, idx[c][0], cfg);
  }

  lemma IndexedOffsets(idx: Index, d: Bytes, p: nat, cfg: Config, c: Cid)
    requires p <= |d| && Indexes(idx, d, p, cfg)
    ensures c in idx <==> Names(BlocksFrom(d, p, cfg).0, c)
    ensures c in idx ==> OffsetsOf(d, p, cfg, idx[c], c)
  {
  }

  lemma {:induction false} AllVerify(d: Bytes, p: nat, cfg: Config)
    requires p <= |d|
    ensures forall i :: 0 <= i < |BlocksFrom(d, p, cfg).0| ==> Verifies(cfg, BlocksFrom(d, p, cfg).0[i])
    decreases |d| - p
  {
    hide NextAt, Verifies;
    BlocksStep(d, p, cfg);
    match NextAt(d, p, cfg)
    case Failed(_) =>
    case Parsed(b, q) =>
      NextVerifies(d, p, cfg);
      AllVerify(d, q, cfg);
  }

  /** Only a collision of the hash function among the blocks of a file makes them inconsistent. */
  lemma InconsistentMeansCollision(d: Bytes, p: nat, cfg: Config) returns (i: nat, j: nat)
    requires p <= |d| && !Consistent(BlocksFrom(d, p, cfg).0)
    ensures var bs := BlocksFrom(d, p, cfg).0;
            && i < |bs| && j < |bs| && bs[i].data != bs[j].data
            && cfg.hash(PrefixOf(bs[i].cid), bs[i].data) == cfg.hash(PrefixOf(bs[i].cid), bs[j].data) == Some(bs[i].cid)
  {
    AllVerify(d, p, cfg);
    hide BlocksFrom;
    var bs := BlocksFrom(d, p, cfg).0;
    i, j :| 0 <= i < |bs| && 0 <= j < |bs| && bs[i].cid == bs[j].cid && bs[i] != bs[j];
    assert Verifies(cfg, bs[i]) && Verifies(cfg, bs[j]);
  }

  /** Everything indexed can be reloaded, and is the block the file has under that name. */
  lemma IndexedIsWellFormed(idx: Index, d: Bytes, p: nat, cfg: Config)
    requires p <= |d| < TWO_63 && Indexes(idx, d, p, cfg) && cfg.maxSection <= MAX_RELOAD
    ensures WellFormed(Car(d, idx))
    ensures Consistent(BlocksFrom(d, p, cfg).0) ==> forall i :: 0 <= i < |BlocksFrom(d, p, cfg).0| ==>
      BlocksFrom(d, p, cfg).0[i].cid in idx && Stored(d, idx, BlocksFrom(d, p, cfg).0[i].cid) == Ok(BlocksFrom(d, p, cfg).0[i])
  {
    var bs := BlocksFrom(d, p, cfg).0;
    hide BlocksFrom, Indexes, Stored, Verifies;
    forall c | c in idx ensures Stored(d, idx, c).Ok? {
      var _ := IndexFinds(idx, d, p, cfg, c);
    }
    if Consistent(bs) {
      forall i | 0 <= i < |bs| ensures bs[i].cid in idx && Stored(d, idx, bs[i].cid) == Ok(bs[i]) {
        assert Names(bs, bs[i].cid);
        IndexedOffsets(idx, d, p, cfg, bs[i].cid);
        var k := IndexFinds(idx, d, p, cfg, bs[i].cid);
        assert bs[k] == bs[i];
      }
    }
  }

  // ---------------------------------------------------------------- an index that is right

  /** The offsets of all sections read from `p` on, by the names of their blocks. */
  function ScanIndex(d: Bytes, p: nat, cfg: Config): Index
    requires p <= |d| < TWO_64
    decreases |d| - p
  {
    match NextAt(d, p, cfg)
    case Failed(_) => map[]
    case Parsed(b, q) =>
      NodeAdvances(d, p, cfg.zeroLenAsEof, cfg.maxSection);
      var rest := ScanIndex(d, q, cfg);
      rest[b.cid := [p] + if b.cid in rest then rest[b.cid] else []]
  }

  lemma NextStart(d: Bytes, p: nat, cfg: Config, o: nat, c: Cid)
    requires p <= |d|
    ensures match NextAt(d, p, cfg)
            case Failed(_) => true
            case Parsed(b, q) => p < q <= |d| && (StartsAt(d, p, cfg, o, c) <==> (o == p && b.cid == c) || StartsAt(d, q, cfg, o, c))
  {
    BlocksStep(d, p, cfg);
  }

  lemma LaterOffsets(d: Bytes, p: nat, cfg: Config, offsets: seq<uint64>, c: Cid)
    requires p <= |d| && NextAt(d, p, cfg).Parsed?
    ensures p < NextAt(d, p, cfg).next <= |d|
    ensures OffsetsOf(d, NextAt(d, p, cfg).next, cfg, offsets, c) ==> OffsetsOf(d, p, cfg, offsets, c)
    ensures NextAt(d, p, cfg).value.cid == c && p < TWO_64 ==> OffsetsOf(d, p, cfg, [p] + offsets, c)
  {
    hide NextAt, StartsAt;
    BlocksStep(d, p, cfg);
    var q := NextAt(d, p, cfg).next;
    NextStart(d, p, cfg, p, c);
    if offsets != [] {
      NextStart(d, p, cfg, offsets[0], c);
    }
  }

  lemma NamesCons(b: Block, bs: seq<Block>, c: Cid)
    ensures Names([b] + bs, c) <==> b.cid == c || Names(bs, c)
  {
    if Names(bs, c) {
      var i :| 0 <= i < |bs| && bs[i].cid == c;
      assert ([b] + bs)[i + 1].cid == c;
    }
    if b.cid == c {
      assert ([b] + bs)[0].cid == c;
    }
  }

  /** Such a scan is what the source asks of index generation. */
  lemma {:induction false} ScanIndexes(d: Bytes, p: nat, cfg: Config)
    requires p <= |d| < TWO_64
    ensures Indexes(ScanIndex(d, p, cfg), d, p, cfg)
    decreases |d| - p
  {
    hide NextAt, BlocksFrom, OffsetsOf, Names;
    BlocksStep(d, p, cfg);
    var idx := ScanIndex(d, p, cfg);
    match NextAt(d, p, cfg)
    case Failed(_) =>
      NamesNone();
    case Parsed(b, q) =>
      var rest := ScanIndex(d, q, cfg);
      ScanIndexes(d, q, cfg);
      forall c ensures (c in idx <==> Names(BlocksFrom(d, p, cfg).0, c)) && (c in idx ==> OffsetsOf(d, p, cfg, idx[c], c)) {
        NamesCons(b, BlocksFrom(d, q, cfg).0, c);
        IndexedOffsets(rest, d, q, cfg, c);
        LaterOffsets(d, p, cfg, if c in rest then rest[c] else [], c);
      }
  }

  lemma NamesNone()
    ensures forall c :: !Names([], c)
  {
  }

  // ---------------------------------------------------------------- the archives the project writes

  /** The offset of a block's section in the file its writer makes. */
  function OffsetIn(hc: HeaderCodec, h: CarHeader, blocks: seq<Block>, i: nat): nat
    requires i <= |blocks|
  {
    |Frame(hc.encode(h))| + |Stream(blocks[..i])|
  }

  /** The index names exactly the written blocks, first by the offset of a section that holds them. */
  ghost predicate IndexesSections(idx: Index, hc: HeaderCodec, h: CarHeader, blocks: seq<Block>) {
    && (forall c :: c in idx <==> Names(blocks, c))
    && forall c :: c in idx ==> idx[c] != [] && IsOffset(hc, h, blocks, c, idx[c][0])
  }

  ghost predicate IsOffset(hc: HeaderCodec, h: CarHeader, blocks: seq<Block>, c: Cid, o: nat) {
    exists i :: 0 <= i < |blocks| && blocks[i].cid == c && o == OffsetIn(hc, h, blocks, i)
  }

  lemma {:induction false} SectionStarts(d: Bytes, p: nat, blocks: seq<Block>, i: nat, cfg: Config)
    requires AllReadable(cfg, blocks) && i < |blocks| && p <= |d| && d[p..] == Stream(blocks)
    ensures StartsAt(d, p, cfg, p + |Stream(blocks[..i])|, blocks[i].cid)
    decreases i
  {
    hide NextAt, Section, AllReadable;
    var b, rest := blocks[0], blocks[1..];
    FirstReadable(cfg, blocks);
    assert Stream(blocks) == Section(b) + Stream(rest);
    assert d[p..] == (Section(b) + Stream(rest))[..|d| - p];
    PeelPrefix(d, p, Section(b), Stream(rest));
    SectionReads(d, p, b, cfg);
    if i == 0 {
      assert Stream(blocks[..0]) == [];
    } else {
      SectionStarts(d, p + |Section(b)|, rest, i - 1, cfg);
      PrefixSums(blocks, i);
    }
  }

  lemma FirstReadable(cfg: Config, blocks: seq<Block>)
    requires AllReadable(cfg, blocks) && blocks != []
    ensures Readable(cfg, blocks[0]) && AllReadable(cfg, blocks[1..])
  {
  }

  lemma OffsetStarts(hc: HeaderCodec, h: CarHeader, blocks: seq<Block>, cfg: Config, c: Cid, o: nat)
    requires AllReadable(cfg, blocks) && IsOffset(hc, h, blocks, c, o)
    ensures |Frame(hc.encode(h))| <= |CarBytes(hc, h, blocks)|
    ensures StartsAt(CarBytes(hc, h, blocks), |Frame(hc.encode(h))|, cfg, o, c)
  {
    hide StartsAt, Stream, Frame, AllReadable;
    var i :| 0 <= i < |blocks| && blocks[i].cid == c && o == OffsetIn(hc, h, blocks, i);
    assert CarBytes(hc, h, blocks)[|Frame(hc.encode(h))|..] == Stream(blocks);
    SectionStarts(CarBytes(hc, h, blocks), |Frame(hc.encode(h))|, blocks, i, cfg);
  }

  lemma OffsetsStart(idx: Index, hc: HeaderCodec, h: CarHeader, blocks: seq<Block>, cfg: Config, c: Cid)
    requires AllReadable(cfg, blocks) && IndexesSections(idx, hc, h, blocks)
    ensures |Frame(hc.encode(h))| <= |CarBytes(hc, h, blocks)|
    ensures c in idx <==> Names(blocks, c)
    ensures c in idx ==> OffsetsOf(CarBytes(hc, h, blocks), |Frame(hc.encode(h))|, cfg, idx[c], c)
  {
    hide StartsAt, Stream, Frame, AllReadable, IsOffset, Names;
    if c in idx {
      OffsetStarts(hc, h, blocks, cfg, c, idx[c][0]);
    }
  }

  lemma WrittenIsIndexed(idx: Index, hc: HeaderCodec, h: CarHeader, blocks: seq<Block>, cfg: Config)
    requires AllReadable(cfg, blocks) && IndexesSections(idx, hc, h, blocks)
    requires |Frame(hc.encode(h))| <= |CarBytes(hc, h, blocks)|
    requires BlocksFrom(CarBytes(hc, h, blocks), |Frame(hc.encode(h))|, cfg).0 == blocks
    ensures Indexes(idx, CarBytes(hc, h, blocks), |Frame(hc.encode(h))|, cfg)
  {
    hide BlocksFrom, OffsetsOf, Frame, CarBytes, AllReadable, IndexesSections, Names;
    forall c ensures (c in idx <==> Names(blocks, c))
      && (c in idx ==> OffsetsOf(CarBytes(hc, h, blocks), |Frame(hc.encode(h))|, cfg, idx[c], c)) {
      OffsetsStart(idx, hc, h, blocks, cfg, c);
    }
  }

  /** Through an index of its sections, a written CAR gives back each of its blocks under that block's identifier. */
  lemma WrittenCarIsWellFormed(idx: Index, hc: HeaderCodec, h: CarHeader, blocks: seq<Block>, cfg: Config, i: nat)
    requires Lossless(hc, h) && |hc.encode(h)| <= MAX_HEADER && h.version == 1 && h.roots != []
    requires AllReadable(cfg, blocks) && cfg.maxSection <= MAX_RELOAD && Consistent(blocks)
    requires IndexesSections(idx, hc, h, blocks) && |CarBytes(hc, h, blocks)| < TWO_63 && i < |blocks|
    ensures WellFormed(Car(CarBytes(hc, h, blocks), idx))
    ensures blocks[i].cid in idx && Stored(CarBytes(hc, h, blocks), idx, blocks[i].cid) == Ok(blocks[i])
  {
    hide OpenAt, BlocksFrom, Consistent, Lossless, AllReadable, Stored, WellFormed, IndexesSections, Indexes;
    CarRoundTrip(hc, h, blocks, MAX_HEADER, cfg);
    WrittenIsIndexed(idx, hc, h, blocks, cfg);
    IndexedIsWellFormed(idx, CarBytes(hc, h, blocks), |Frame(hc.encode(h))|, cfg);
  }
}
