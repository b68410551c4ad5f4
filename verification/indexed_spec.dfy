/** What a cache over an indexed CAR file answers, as functions of the file, the index and the cached blocks. */
module IndexedSpec {
  import opened Base
  import opened Varint
  import opened Cids
  import opened Framing
  import LruSpec

  /** For each identifier, the offsets the insertion index reports, in the order it reports them. */
  type Index = map<Cid, seq<uint64>>

  /** go-car's index generation over a whole CAR file. */
  type Indexer = Bytes -> Result<Index, IoError>

  datatype StoreError = NotInitialized | NotIndexed | SeekFailed | ReadFailed(error: IoError) | WrongCid

  /** 10*1024*1024, the section limit of a reload. */
  const MAX_RELOAD: nat := 0xA0_0000

  /** The section at one offset, provided it is the block asked for. */
  function ReadOffset(d: Bytes, offset: uint64, c: Cid): Result<Block, StoreError> {
    if offset >= TWO_63 then Err(SeekFailed)
    else match NodeAt(d, if offset <= |d| then offset else |d|, false, MAX_RELOAD)
      case Failed(e) => Err(ReadFailed(e))
      case Parsed(b, _) => if b.cid == c then Ok(b) else Err(WrongCid)
  }

  /** What a reload finds: only the first offset counts, since one failure makes the rest be skipped. */
  function Stored(d: Bytes, idx: Index, c: Cid): Result<Block, StoreError> {
    if c !in idx || idx[c] == [] then Err(NotIndexed) else ReadOffset(d, idx[c][0], c)
  }

  function GetAnswer(s: seq<Block>, d: Bytes, idx: Index, c: Cid): Result<Block, StoreError> {
    match LruSpec.Lookup(s, c)
    case Some(b) => Ok(b)
    case None => Stored(d, idx, c)
  }

  function AfterGet(s: seq<Block>, limit: uint64, d: Bytes, idx: Index, c: Cid): seq<Block> {
    if LruSpec.Holds(s, c) then LruSpec.Get(s, c)
    else match Stored(d, idx, c)
      case Err(_) => s
      case Ok(b) => LruSpec.Put(s, limit, b)
  }

  function GetSizeAnswer(s: seq<Block>, d: Bytes, idx: Index, c: Cid): Result<nat, StoreError> {
    match GetAnswer(s, d, idx, c)
    case Ok(b) => Ok(|b.data|)
    case Err(e) => Err(e)
  }

  /** A size found in the cache leaves the recency order alone; otherwise the block is loaded. */
  function AfterGetSize(s: seq<Block>, limit: uint64, d: Bytes, idx: Index, c: Cid): seq<Block> {
    if LruSpec.Holds(s, c) then s else AfterGet(s, limit, d, idx, c)
  }
}
