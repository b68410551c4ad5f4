/** blockstore/indexed_blockstore.go: an LRU cache that reloads evicted blocks from a seekable CAR file. */
module IndexedBlockstores {
  import opened Base
  import opened Varint
  import opened Cids
  import opened Framing
  import opened CarReaders
  import opened IndexedSpec
  import LruSpec
  import opened LruBlockstores

  lemma HitOrMiss(s: seq<Block>, c: Cid)
    ensures LruSpec.Lookup(s, c).Some? <==> LruSpec.Holds(s, c)
    ensures !LruSpec.Holds(s, c) ==> LruSpec.Get(s, c) == s
  {
  }

  lemma PutNone(s: seq<Block>, limit: uint64)
    ensures LruSpec.PutMany(s, limit, []) == s
  {
  }

  lemma PutOneMore(s: seq<Block>, limit: uint64, bs: seq<Block>, b: Block)
    ensures LruSpec.PutMany(s, limit, bs + [b]) == LruSpec.Put(LruSpec.PutMany(s, limit, bs), limit, b)
  {
    assert (bs + [b])[..|bs|] == bs;
  }

  class IndexedBlockstore {
    const lru: LRUBlockstore
    const reader: ByteReader
    var idx: Option<Index>

    ghost predicate Valid()
      reads this, lru, lru.nodes, reader
    {
      lru.Valid() && reader.Valid()
    }

    ghost function Cached(): seq<Block>
      reads lru
    {
      lru.Contents()
    }

    constructor (memoryLimit: uint64, reader: ByteReader)
      requires reader.Valid()
      ensures Valid() && this.reader == reader && idx == None && Cached() == []
      ensures lru.limit == memoryLimit && fresh(lru) && fresh(lru.repr)
    {
      this.lru := new LRUBlockstore(memoryLimit);
      this.reader := reader;
      this.idx := None;
    }

    /** The loading loop: every block that can be read goes through the cache. */
    method LoadAll(cr: CarReader) returns (end: IoError)
      requires Valid() && cr.r == reader
      modifies lru, lru.repr, reader
      ensures Valid() && fresh(lru.repr - old(lru.repr))
      ensures end == BlocksFrom(reader.data, old(reader.pos), cr.cfg).1
      ensures Cached() == LruSpec.PutMany(old(Cached()), lru.limit, BlocksFrom(reader.data, old(reader.pos), cr.cfg).0)
    {
      hide BlocksFrom, NextAt, LruSpec.PutMany, LruSpec.Put;
      ghost var (all, last) := BlocksFrom(reader.data, reader.pos, cr.cfg);
      ghost var got, rest := [], all;
      PutNone(Cached(), lru.limit);
      while true
        invariant Valid() && fresh(lru.repr - old(lru.repr))
        invariant BlocksFrom(reader.data, reader.pos, cr.cfg) == (rest, last) && got + rest == all
        invariant Cached() == LruSpec.PutMany(old(Cached()), lru.limit, got)
        decreases |reader.data| - reader.pos
      {
        BlocksStep(reader.data, reader.pos, cr.cfg);
        var blk := cr.Next();
        if blk.Err? {
          assert got + [] == got;
          return blk.error;
        }
        PutOneMore(old(Cached()), lru.limit, got, blk.value);
        lru.Put(blk.value);
        got, rest := got + [blk.value], rest[1..];
      }
    }

    /** Builds the index, and then loads every block the file holds, as far as it can be read. */
    method IndexAll(indexer: Indexer, hc: HeaderCodec, cfg: Config) returns (r: Result<(), IoError>)
      requires Valid()
      modifies this, lru, lru.repr, reader
      ensures Valid() && fresh(lru.repr - old(lru.repr))
      ensures match indexer(reader.data)
              case Err(e) => r == Err(e) && idx == Some(map[]) && Cached() == old(Cached())
              case Ok(index) =>
                && idx == Some(index)
                && Cached() == LruSpec.PutMany(old(Cached()), lru.limit, LoadBlocks(reader.data, 0, hc, cfg))
                && r == match LoadResult(reader.data, 0, hc, cfg) case Err(e) => Err(e) case Ok(_) => Ok(())
    {
      hide OpenAt, BlocksFrom, LruSpec.PutMany;
      idx := Some(map[]);
      var index := indexer(reader.data);
      if index.Err? {
        return Err(index.error);
      }
      idx := Some(index.value);
      var _ := reader.Seek(0);
      OpenAdvances(reader.data, 0, hc, MAX_HEADER);
      PutNone(Cached(), lru.limit);
      var cr := NewCarReader(reader, hc, MAX_HEADER, cfg);
      if cr.Err? {
        return Err(cr.error);
      }
      var end := LoadAll(cr.value);
      return if end == Eof then Ok(()) else Err(end);
    }

    /** Seeks to an offset and reads the block there, which has to be the one asked for. */
    method TryOffset(offset: uint64, c: Cid) returns (r: Result<Block, StoreError>)
      requires reader.Valid()
      modifies reader
      ensures reader.Valid() && r == ReadOffset(reader.data, offset, c)
    {
      hide NodeAt;
      var ok := reader.Seek(offset);
      if !ok {
        return Err(SeekFailed);
      }
      var node := ReadNode(reader, false, MAX_RELOAD);
      if node.Err? {
        return Err(ReadFailed(node.error));
      }
      if node.value.cid != c {
        return Err(WrongCid);
      }
      return Ok(node.value);
    }

    method Get(c: Cid) returns (r: Result<Block, StoreError>)
      requires Valid()
      modifies lru, lru.repr, reader
      ensures Valid() && fresh(lru.repr - old(lru.repr))
      ensures idx == None ==> r == Err(NotInitialized) && Cached() == old(Cached())
      ensures idx.Some? ==> r == GetAnswer(old(Cached()), reader.data, idx.value, c)
      ensures idx.Some? ==> Cached() == AfterGet(old(Cached()), lru.limit, reader.data, idx.value, c)
    {
      hide ReadOffset, LruSpec.Put, LruSpec.Get, LruSpec.Lookup, LruSpec.Holds;
      HitOrMiss(Cached(), c);
      if idx == None {
        return Err(NotInitialized);
      }
      var hit := lru.Get(c);
      if hit.Some? {
        return Ok(hit.value);
      }
      var offsets := if c in idx.value then idx.value[c] else [];
      var found := false;
      var lastError: Option<StoreError> := None;
      for i := 0 to |offsets|
        invariant Valid() && lru.repr == old(lru.repr) && Cached() == old(Cached())
        invariant found == (i > 0)
        invariant if i == 0 then lastError == None
                  else lastError.Some? && ReadOffset(reader.data, offsets[0], c) == Err(lastError.value)
      {
        found := true;
        if lastError != None {
          continue;
        }
        var block := TryOffset(offsets[i], c);
        if block.Err? {
          lastError := Some(block.error);
          continue;
        }
        lru.Put(block.value);
        return block;
      }
      if !found {
        return Err(NotIndexed);
      }
      return Err(lastError.value);
    }

    method Put(b: Block)
      requires Valid()
      modifies lru, lru.repr
      ensures Valid() && fresh(lru.repr - old(lru.repr))
      ensures Cached() == LruSpec.Put(old(Cached()), lru.limit, b)
    {
      lru.Put(b);
    }

    method PutMany(bs: seq<Block>)
      requires Valid()
      modifies lru, lru.repr
      ensures Valid() && fresh(lru.repr - old(lru.repr))
      ensures Cached() == LruSpec.PutMany(old(Cached()), lru.limit, bs)
    {
      lru.PutMany(bs);
    }

    /** The index alone decides: a block put but not indexed is not had. */
    method Has(c: Cid) returns (r: bool)
      ensures r <==> idx.Some? && c in idx.value
    {
      r := idx.Some? && c in idx.value;
    }

    method GetSize(c: Cid) returns (r: Result<nat, StoreError>)
      requires Valid()
      modifies lru, lru.repr, reader
      ensures Valid() && fresh(lru.repr - old(lru.repr))
      ensures idx == None ==> r == Err(NotInitialized) && Cached() == old(Cached())
      ensures idx.Some? ==> r == GetSizeAnswer(old(Cached()), reader.data, idx.value, c)
      ensures idx.Some? ==> Cached() == AfterGetSize(old(Cached()), lru.limit, reader.data, idx.value, c)
    {
      if idx == None {
        return Err(NotInitialized);
      }
      var size := lru.GetSize(c);
      if size.Some? {
        return Ok(size.value);
      }
      var blk := Get(c);
      if blk.Err? {
        return Err(blk.error);
      }
      return Ok(|blk.value.data|);
    }

    method DeleteBlock(c: Cid)
      requires Valid()
      modifies lru, lru.repr
      ensures Valid() && lru.repr == old(lru.repr)
      ensures Cached() == LruSpec.Delete(old(Cached()), c)
      ensures !LruSpec.Holds(Cached(), c) && forall x :: x != c ==> LruSpec.Lookup(Cached(), x) == LruSpec.Lookup(old(Cached()), x)
    {
      lru.DeleteBlock(c);
    }
  }
}
