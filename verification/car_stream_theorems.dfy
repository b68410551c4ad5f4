/** Writing a CARv1 stream and reading it back, whole or cut short at any byte. */
module CarStreamTheorems {
  import opened Base
  import opened Varint
  import opened Cids
  import opened Framing
  import opened CarReaders

  /** The data part of a CARv1 stream: the sections of the blocks, in order. */
  function Stream(blocks: seq<Block>): Bytes {
    if blocks == [] then [] else Section(blocks[0]) + Stream(blocks[1..])
  }

  function Payload(b: Block): Bytes {
    CidBytes(b.cid) + b.data
  }

  /** A block a reader with this configuration accepts: well-formed identifier, within the limits, content intact. */
  ghost predicate Readable(cfg: Config, b: Block) {
    && ValidCid(b.cid)
    && |Payload(b)| <= cfg.maxSection
    && |Payload(b)| < TWO_63
    && Verifies(cfg, b)
  }

  ghost predicate AllReadable(cfg: Config, blocks: seq<Block>) {
    forall i :: 0 <= i < |blocks| ==> Readable(cfg, blocks[i])
  }

  // ---------------------------------------------------------------- one section

  /** A frame in the middle of a stream reads back as its payload, and the reader stops right behind it. */
  lemma FrameReads(d: Bytes, p: nat, payload: Bytes, zeroLenAsEof: bool, max: nat)
    requires |payload| < TWO_63 && |payload| <= max && (zeroLenAsEof ==> payload != [])
    requires p + |Frame(payload)| <= |d| && d[p..p + |Frame(payload)|] == Frame(payload)
    ensures PayloadAt(d, p, zeroLenAsEof, max) == Parsed(payload, p + |Frame(payload)|)
  {
    hide Encode, ReadAt;
    var n := |Encode(|payload|)|;
    SizeFits(|payload|);
    assert d[p..p + n] == d[p..p + |Frame(payload)|][..n] == Encode(|payload|);
    ReadEncoded(d, p, 0, |payload|);
    assert d[p + n..p + n + |payload|] == d[p..p + |Frame(payload)|][n..] == payload;
  }

  /** A frame of which the stream ends before the last byte: clean only before its first byte or right behind its length. */
  lemma FrameCutShort(d: Bytes, p: nat, payload: Bytes, zeroLenAsEof: bool, max: nat)
    requires 0 < |payload| < TWO_63 && |payload| <= max
    requires p <= |d| < p + |Frame(payload)| && d[p..] == Frame(payload)[..|d| - p]
    ensures PayloadAt(d, p, zeroLenAsEof, max)
         == Failed(if |d| == p || |d| == p + |Encode(|payload|)| then Eof else UnexpectedEof)
  {
    hide Encode, ReadAt;
    var n := |Encode(|payload|)|;
    SizeFits(|payload|);
    if |d| < p + n {
      assert d[p..] == Encode(|payload|)[..|d| - p];
      ReadCutShort(d, p, 0, |payload|);
    } else {
      assert d[p..p + n] == d[p..][..n] == Encode(|payload|);
      ReadEncoded(d, p, 0, |payload|);
    }
  }

  lemma PayloadIsNotEmpty(b: Block)
    ensures |Payload(b)| > 0
  {
  }

  lemma SectionReads(d: Bytes, p: nat, b: Block, cfg: Config)
    requires Readable(cfg, b)
    requires p + |Section(b)| <= |d| && d[p..p + |Section(b)|] == Section(b)
    ensures NextAt(d, p, cfg) == Parsed(b, p + |Section(b)|)
  {
    hide CidBytes, CidFromBytes, PayloadAt, Frame;
    PayloadIsNotEmpty(b);
    FrameReads(d, p, Payload(b), cfg.zeroLenAsEof, cfg.maxSection);
    CidRoundTrip(b.cid, b.data);
  }

  lemma SectionCutShort(d: Bytes, p: nat, b: Block, cfg: Config)
    requires Readable(cfg, b)
    requires p <= |d| < p + |Section(b)| && d[p..] == Section(b)[..|d| - p]
    ensures NextAt(d, p, cfg)
         == Failed(if |d| == p || |d| == p + |Encode(|Payload(b)|)| then Eof else UnexpectedEof)
  {
    hide CidBytes, CidFromBytes, PayloadAt, Frame;
    PayloadIsNotEmpty(b);
    FrameCutShort(d, p, Payload(b), cfg.zeroLenAsEof, cfg.maxSection);
  }

  // ---------------------------------------------------------------- whole streams

  lemma {:induction false} StreamSplit(blocks: seq<Block>, j: nat)
    requires j <= |blocks|
    ensures Stream(blocks) == Stream(blocks[..j]) + Stream(blocks[j..])
  {
    if j > 0 {
      StreamSplit(blocks[1..], j - 1);
      assert blocks[..j][1..] == blocks[1..][..j - 1] && blocks[1..][j - 1..] == blocks[j..];
    } else {
      assert blocks[..0] == [] && blocks[0..] == blocks;
    }
  }

  lemma PeelPrefix(d: Bytes, p: nat, a: Bytes, b: Bytes)
    requires p + |a| <= |d| <= p + |a| + |b| && d[p..] == (a + b)[..|d| - p]
    ensures d[p..p + |a|] == a && d[p + |a|..] == b[..|d| - p - |a|]
  {
    assert d[p..p + |a|] == d[p..][..|a|];
    assert d[p + |a|..] == d[p..][|a|..];
  }

  lemma FirstSectionCut(d: Bytes, p: nat, blocks: seq<Block>, cfg: Config)
    requires blocks != [] && Readable(cfg, blocks[0]) && p <= |d|
    requires |d| - p < |Section(blocks[0])| && d[p..] == Stream(blocks)[..|d| - p]
    ensures BlocksFrom(d, p, cfg) == ([], CutError(blocks, 0, |d| - p))
  {
    hide NextAt, Section, Encode;
    assert Stream(blocks[..0]) == [];
    assert d[p..] == Section(blocks[0])[..|d| - p];
    SectionCutShort(d, p, blocks[0], cfg);
  }

  /** The first block and its section split off every prefix sum. */
  lemma PrefixSums(blocks: seq<Block>, j: nat)
    requires 0 < j <= |blocks|
    ensures |Stream(blocks[..j])| == |Section(blocks[0])| + |Stream(blocks[1..][..j - 1])|
  {
    assert blocks[..j][1..] == blocks[1..][..j - 1];
  }

  /** Reading a stream from which the tail is missing: `n` bytes of the sections are left. */
  lemma {:induction false} CutStreamReads(d: Bytes, p: nat, blocks: seq<Block>, j: nat, cfg: Config)
    requires AllReadable(cfg, blocks) && p <= |d| && j <= |blocks|
    requires |d| - p <= |Stream(blocks)| && d[p..] == Stream(blocks)[..|d| - p]
    requires |Stream(blocks[..j])| <= |d| - p
    requires j < |blocks| ==> |d| - p < |Stream(blocks[..j + 1])|
    ensures BlocksFrom(d, p, cfg) == (blocks[..j], CutError(blocks, j, |d| - p))
    decreases j
  {
    hide NextAt, Section, Encode, BlocksFrom, CutError, Readable;
    BlocksStep(d, p, cfg);
    if blocks == [] {
      EndOfStream(d, p, cfg);
      CutAtEnd(blocks, j);
    } else if j == 0 {
      PrefixSums(blocks, 1);
      FirstSectionCut(d, p, blocks, cfg);
    } else {
      var b, rest := blocks[0], blocks[1..];
      var q := p + |Section(b)|;
      PrefixSums(blocks, j);
      if j < |blocks| {
        PrefixSums(blocks, j + 1);
      }
      PeelPrefix(d, p, Section(b), Stream(rest));
      SectionReads(d, p, b, cfg);
      CutStreamReads(d, q, rest, j - 1, cfg);
      CutErrorTail(blocks, j, |d| - p);
      assert [b] + rest[..j - 1] == blocks[..j];
    }
  }

  lemma CutAtEnd(blocks: seq<Block>, j: nat)
    requires blocks == [] && j == 0
    ensures CutError(blocks, j, 0) == Eof && blocks[..j] == []
  {
  }

  lemma CutErrorTail(blocks: seq<Block>, j: nat, n: nat)
    requires 0 < j <= |blocks| && n >= |Section(blocks[0])|
    ensures CutError(blocks, j, n) == CutError(blocks[1..], j - 1, n - |Section(blocks[0])|)
  {
    PrefixSums(blocks, j);
  }

  lemma EndOfStream(d: Bytes, p: nat, cfg: Config)
    requires p == |d|
    ensures NextAt(d, p, cfg) == Failed(Eof)
  {
  }

  /** A cut reads as a clean end on a section boundary, or directly behind a complete length prefix. */
  function CutError(blocks: seq<Block>, j: nat, n: nat): IoError
    requires j <= |blocks|
  {
    if n == |Stream(blocks[..j])| || (j < |blocks| && n == |Stream(blocks[..j])| + |Encode(|Payload(blocks[j])|)|)
    then Eof else UnexpectedEof
  }

  /** The bytes WriteHeader and then WriteBlock for each block emit. */
  function CarBytes(hc: HeaderCodec, h: CarHeader, blocks: seq<Block>): Bytes {
    Frame(hc.encode(h)) + Stream(blocks)
  }

  lemma HeaderReads(d: Bytes, hc: HeaderCodec, h: CarHeader, max: nat)
    requires Lossless(hc, h) && |hc.encode(h)| <= max && |hc.encode(h)| < TWO_63
    requires h.version == 1 && h.roots != []
    requires |Frame(hc.encode(h))| <= |d| && d[..|Frame(hc.encode(h))|] == Frame(hc.encode(h))
    ensures OpenAt(d, 0, hc, max) == Parsed(h, |Frame(hc.encode(h))|)
  {
    FrameReads(d, 0, hc.encode(h), false, max);
  }

  /** Reading back a written CAR returns the header, exactly the blocks in order, and then io.EOF. */
  lemma CarRoundTrip(hc: HeaderCodec, h: CarHeader, blocks: seq<Block>, max: nat, cfg: Config)
    requires Lossless(hc, h) && |hc.encode(h)| <= max && |hc.encode(h)| < TWO_63
    requires h.version == 1 && h.roots != [] && AllReadable(cfg, blocks)
    ensures var d := CarBytes(hc, h, blocks);
            var p := |Frame(hc.encode(h))|;
            OpenAt(d, 0, hc, max) == Parsed(h, p) && BlocksFrom(d, p, cfg) == (blocks, Eof)
  {
    var d := CarBytes(hc, h, blocks);
    var p := |Frame(hc.encode(h))|;
    HeaderReads(d, hc, h, max);
    assert d[p..] == Stream(blocks) && blocks[..|blocks|] == blocks;
    CutStreamReads(d, p, blocks, |blocks|, cfg);
  }

  lemma CutBytes(a: Bytes, b: Bytes, n: nat)
    requires n <= |b|
    ensures var d := (a + b)[..|a| + n]; |d| == |a| + n && d[..|a|] == a && d[|a|..] == b[..n]
  {
  }

  /** Cut anywhere behind the header, a CAR reads as exactly the blocks it wholly contains and the error of its cut. */
  lemma TruncatedCar(hc: HeaderCodec, h: CarHeader, blocks: seq<Block>, max: nat, cfg: Config, n: nat, j: nat)
    requires Lossless(hc, h) && |hc.encode(h)| <= max && |hc.encode(h)| < TWO_63
    requires h.version == 1 && h.roots != [] && AllReadable(cfg, blocks)
    requires n <= |Stream(blocks)| && j <= |blocks|
    requires |Stream(blocks[..j])| <= n && (j < |blocks| ==> n < |Stream(blocks[..j + 1])|)
    ensures var p := |Frame(hc.encode(h))|;
            var d := CarBytes(hc, h, blocks)[..p + n];
            OpenAt(d, 0, hc, max) == Parsed(h, p) && BlocksFrom(d, p, cfg) == (blocks[..j], CutError(blocks, j, n))
  {
    hide Frame, Stream, Readable, OpenAt, BlocksFrom, CutError, Lossless;
    var p := |Frame(hc.encode(h))|;
    var d := CarBytes(hc, h, blocks)[..p + n];
    CutBytes(Frame(hc.encode(h)), Stream(blocks), n);
    HeaderReads(d, hc, h, max);
    CutStreamReads(d, p, blocks, j, cfg);
  }

  /** Every cut falls into exactly one of the cases of TruncatedCar. */
  lemma {:induction false} CutPosition(blocks: seq<Block>, n: nat) returns (j: nat)
    requires n <= |Stream(blocks)|
    ensures j <= |blocks| && |Stream(blocks[..j])| <= n && (j < |blocks| ==> n < |Stream(blocks[..j + 1])|)
  {
    j := 0;
    assert blocks[..0] == [];
    while j < |blocks| && |Stream(blocks[..j + 1])| <= n
      invariant j <= |blocks| && |Stream(blocks[..j])| <= n
    {
      j := j + 1;
    }
  }

  /** Distinct lists of blocks never produce the same bytes. */
  lemma CarBytesInjective(hc: HeaderCodec, h: CarHeader, a: seq<Block>, b: seq<Block>, max: nat, cfg: Config)
    requires Lossless(hc, h) && |hc.encode(h)| <= max && |hc.encode(h)| < TWO_63
    requires h.version == 1 && h.roots != [] && AllReadable(cfg, a) && AllReadable(cfg, b)
    requires CarBytes(hc, h, a) == CarBytes(hc, h, b)
    ensures a == b
  {
    CarRoundTrip(hc, h, a, max, cfg);
    CarRoundTrip(hc, h, b, max, cfg);
  }
}
