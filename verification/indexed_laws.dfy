/** What the indexed store answers and keeps, in terms of the bytes of the file and the order of the cache. */
module IndexedLaws {
  import opened Base
  import opened Varint
  import opened Cids
  import opened Framing
  import opened CarStreamTheorems
  import opened CarReadTheorems
  import opened IndexedSpec
  import LruSpec
  import opened LruRecency

  // ---------------------------------------------------------------- reloading

  predicate Offered(idx: Index, c: Cid) {
    c in idx && idx[c] != []
  }

  /** The section at the first offset, within the limit of a reload. */
  predicate Located(d: Bytes, idx: Index, c: Cid, b: Block)
    requires Offered(idx, c)
  {
    idx[c][0] < TWO_63 && SectionAt(d, idx[c][0], b) && |Payload(b)| <= MAX_RELOAD
  }

  /** Where a reader stands after seeking: past the end reads like the end. */
  function SeekTo(d: Bytes, o: uint64): (p: nat)
    ensures p <= |d|
  {
    if o <= |d| then o else |d|
  }

  lemma OffsetRead(d: Bytes, o: uint64, b: Block)
    ensures NodeAt(d, SeekTo(d, o), false, MAX_RELOAD).Parsed?
         && NodeAt(d, SeekTo(d, o), false, MAX_RELOAD).value == b
      <==> ValidCid(b.cid) && SectionAt(d, o, b) && |Payload(b)| <= MAX_RELOAD
  {
    hide NodeAt, Payload, ValidCid;
    FrameIsNotEmpty(Payload(b));
    NodeExactly(d, SeekTo(d, o), false, MAX_RELOAD, b);
  }

  lemma FrameIsNotEmpty(payload: Bytes)
    ensures |Frame(payload)| > 0
  {
  }

  /** A block is reloaded if and only if its section stands at the first offset of its name. */
  lemma ReloadExactly(d: Bytes, idx: Index, c: Cid, b: Block)
    ensures Stored(d, idx, c) == Ok(b) <==> Offered(idx, c) && b.cid == c && ValidCid(c) && Located(d, idx, c, b)
  {
    hide NodeAt, SectionAt, Payload, ValidCid;
    if Offered(idx, c) {
      OffsetRead(d, idx[c][0], b);
    }
  }

  /** The refusals of a reload, each exactly where it arises. */
  lemma ReloadRefusals(d: Bytes, idx: Index, c: Cid)
    ensures Stored(d, idx, c) == Err(NotIndexed) <==> !Offered(idx, c)
    ensures Stored(d, idx, c) == Err(SeekFailed) <==> Offered(idx, c) && idx[c][0] >= TWO_63
    ensures forall e :: (Stored(d, idx, c) == Err(ReadFailed(e))
      <==> Offered(idx, c) && idx[c][0] < TWO_63 && NodeAt(d, SeekTo(d, idx[c][0]), false, MAX_RELOAD) == Failed(e))
    ensures Stored(d, idx, c) == Err(WrongCid)
      <==> Offered(idx, c) && exists b: Block :: b.cid != c && ValidCid(b.cid) && Located(d, idx, c, b)
  {
    hide NodeAt, SectionAt, Payload, ValidCid;
    if Offered(idx, c) {
      forall b: Block ensures NodeAt(d, SeekTo(d, idx[c][0]), false, MAX_RELOAD).Parsed?
             && NodeAt(d, SeekTo(d, idx[c][0]), false, MAX_RELOAD).value == b
          <==> ValidCid(b.cid) && SectionAt(d, idx[c][0], b) && |Payload(b)| <= MAX_RELOAD {
        OffsetRead(d, idx[c][0], b);
      }
      var node := NodeAt(d, SeekTo(d, idx[c][0]), false, MAX_RELOAD);
      if node.Parsed? && idx[c][0] < TWO_63 {
        assert Located(d, idx, c, node.value);
      }
    }
  }

  // ---------------------------------------------------------------- caching

  /** A successful Get leaves its block in front of the cache; a failed one leaves the cache as it was. */
  lemma GetCaches(s: seq<Block>, limit: uint64, d: Bytes, idx: Index, c: Cid)
    requires LruSpec.DistinctCids(s)
    ensures var r := AfterGet(s, limit, d, idx, c);
            match GetAnswer(s, d, idx, c)
            case Ok(b) => r != [] && r[0] == b && b.cid == c
            case Err(_) => r == s && !LruSpec.Holds(s, c)
    ensures LruSpec.Holds(s, c) ==> SameBut(s, AfterGet(s, limit, d, idx, c), c)
  {
    hide ReadOffset, LruSpec.Put, LruSpec.Get, SameBut;
    if LruSpec.Holds(s, c) {
      GetLaw(s, c);
      FrontIsFound(LruSpec.Get(s, c));
    } else {
      AbsentLookup(s, c);
      if Stored(d, idx, c).Ok? {
        StoredUnder(d, idx, c);
        PutLaw(s, limit, Stored(d, idx, c).value);
      }
    }
  }

  lemma FrontIsFound(s: seq<Block>)
    requires s != []
    ensures LruSpec.Lookup(s, s[0].cid) == Some(s[0])
  {
  }

  lemma StoredUnder(d: Bytes, idx: Index, c: Cid)
    ensures Stored(d, idx, c).Ok? ==> Stored(d, idx, c).value.cid == c
  {
    hide NodeAt;
  }

  lemma HeldLookup(s: seq<Block>, c: Cid)
    ensures LruSpec.Holds(s, c) <==> LruSpec.Lookup(s, c).Some?
  {
  }

  /** A GetSize does the same only when it has to load the block; what is cached it leaves in place. */
  lemma GetSizeCaches(s: seq<Block>, limit: uint64, d: Bytes, idx: Index, c: Cid)
    requires LruSpec.DistinctCids(s)
    ensures var r := AfterGetSize(s, limit, d, idx, c);
            match GetSizeAnswer(s, d, idx, c)
            case Err(_) => r == s
            case Ok(n) =>
              if LruSpec.Holds(s, c) then r == s && |LruSpec.Lookup(s, c).value.data| == n
              else r != [] && r[0].cid == c && |r[0].data| == n
  {
    HeldLookup(s, c);
    hide ReadOffset, AfterGet, LruSpec.Lookup, SameBut;
    GetCaches(s, limit, d, idx, c);
  }
}
