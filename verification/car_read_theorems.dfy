/** What a reader's answer says about the bytes: blocks, ends and refusals, each exactly where they arise. */
module CarReadTheorems {
  import opened Base
  import opened Varint
  import opened Cids
  import opened Framing
  import opened CarReaders
  import opened CarStreamTheorems

  // ---------------------------------------------------------------- what stands at a position

  /** A length prefix of at most nine bytes. */
  predicate LengthAt(d: Bytes, p: nat, l: nat) {
    l < TWO_63 && p + |Encode(l)| <= |d| && d[p..p + |Encode(l)|] == Encode(l)
  }

  predicate FrameAt(d: Bytes, p: nat, payload: Bytes) {
    |payload| < TWO_63 && p + |Frame(payload)| <= |d| && d[p..p + |Frame(payload)|] == Frame(payload)
  }

  predicate SectionAt(d: Bytes, p: nat, b: Block) {
    FrameAt(d, p, Payload(b))
  }

  /** A payload length the reader goes on with. */
  predicate Admitted(l: nat, zeroLenAsEof: bool, max: nat) {
    l <= max && (zeroLenAsEof ==> l > 0)
  }

  lemma LengthRead(d: Bytes, p: nat, l: nat)
    requires p <= |d|
    ensures ReadAt(d, p, 0).Parsed? && ReadAt(d, p, 0).value == l <==> LengthAt(d, p, l)
    ensures LengthAt(d, p, l) ==> ReadAt(d, p, 0) == Parsed(l, p + |Encode(l)|)
  {
    hide Encode, ReadAt;
    FieldIsWritten(d, p);
    if LengthAt(d, p, l) {
      SizeFits(l);
      ReadEncoded(d, p, 0, l);
    }
  }

  lemma FrameLength(d: Bytes, p: nat, payload: Bytes)
    ensures var q := p + |Encode(|payload|)|;
            FrameAt(d, p, payload) <==> (LengthAt(d, p, |payload|) && q + |payload| <= |d| && d[q..q + |payload|] == payload)
  {
    hide Encode;
    var n := |Encode(|payload|)|;
    if FrameAt(d, p, payload) {
      assert d[p..p + n] == d[p..p + |Frame(payload)|][..n] == Encode(|payload|);
      assert d[p + n..p + n + |payload|] == d[p..p + |Frame(payload)|][n..] == payload;
    }
    if LengthAt(d, p, |payload|) && p + n + |payload| <= |d| && d[p + n..p + n + |payload|] == payload {
      assert d[p..p + |Frame(payload)|] == d[p..p + n] + d[p + n..p + n + |payload|];
    }
  }

  /** A payload is read if and only if its frame stands there and its length is admitted. */
  lemma PayloadExactly(d: Bytes, p: nat, zeroLenAsEof: bool, max: nat, payload: Bytes)
    requires p <= |d|
    ensures PayloadAt(d, p, zeroLenAsEof, max).Parsed? && PayloadAt(d, p, zeroLenAsEof, max).value == payload
      <==> FrameAt(d, p, payload) && Admitted(|payload|, zeroLenAsEof, max)
    ensures FrameAt(d, p, payload) && Admitted(|payload|, zeroLenAsEof, max)
      ==> PayloadAt(d, p, zeroLenAsEof, max) == Parsed(payload, p + |Frame(payload)|)
  {
    hide Encode, ReadAt;
    LengthRead(d, p, |payload|);
    FrameLength(d, p, payload);
    ReadAdvances(d, p, 0);
  }

  /** Where a stream is taken to end: no byte left, a length prefix with no byte behind it, or a zero length if that is asked for. */
  ghost predicate EndsAt(d: Bytes, p: nat, zeroLenAsEof: bool, max: nat) {
    || p == |d|
    || (zeroLenAsEof && LengthAt(d, p, 0))
    || exists l :: 0 < l <= max && LengthAt(d, p, l) && p + |Encode(l)| == |d|
  }

  ghost predicate TooLongAt(d: Bytes, p: nat, zeroLenAsEof: bool, max: nat) {
    exists l :: l > max && (l > 0 || !zeroLenAsEof) && LengthAt(d, p, l)
  }

  lemma EndExactly(d: Bytes, p: nat, zeroLenAsEof: bool, max: nat)
    requires p <= |d|
    ensures PayloadAt(d, p, zeroLenAsEof, max) == Failed(Eof) <==> EndsAt(d, p, zeroLenAsEof, max)
  {
    hide Encode, ReadAt, LengthAt;
    ReadAdvances(d, p, 0);
    ReadErrorKinds(d, p, 0);
    LengthRead(d, p, if ReadAt(d, p, 0).Parsed? then ReadAt(d, p, 0).value else 0);
    forall l ensures (ReadAt(d, p, 0).Parsed? && ReadAt(d, p, 0).value == l <==> LengthAt(d, p, l))
      && (LengthAt(d, p, l) ==> ReadAt(d, p, 0) == Parsed(l, p + |Encode(l)|)) {
      LengthRead(d, p, l);
    }
  }

  lemma TooLongExactly(d: Bytes, p: nat, zeroLenAsEof: bool, max: nat)
    requires p <= |d|
    ensures PayloadAt(d, p, zeroLenAsEof, max) == Failed(SectionTooLarge) <==> TooLongAt(d, p, zeroLenAsEof, max)
  {
    hide Encode, ReadAt, LengthAt;
    ReadErrorKinds(d, p, 0);
    LengthRead(d, p, if ReadAt(d, p, 0).Parsed? then ReadAt(d, p, 0).value else 0);
    forall l ensures ReadAt(d, p, 0).Parsed? && ReadAt(d, p, 0).value == l <==> LengthAt(d, p, l) {
      LengthRead(d, p, l);
    }
  }

  lemma PayloadErrors(d: Bytes, p: nat, zeroLenAsEof: bool, max: nat)
    requires p <= |d|
    ensures match PayloadAt(d, p, zeroLenAsEof, max)
            case Parsed(_, _) => true
            case Failed(e) => e == Eof || e == UnexpectedEof || e == Overflow || e == NotMinimal || e == SectionTooLarge
  {
    hide ReadAt;
    ReadErrorKinds(d, p, 0);
  }

  // ---------------------------------------------------------------- one section

  /** Bytes that no valid identifier begins. */
  ghost predicate Nameless(payload: Bytes) {
    forall b: Block :: ValidCid(b.cid) ==> payload != Payload(b)
  }

  lemma NamedExactly(payload: Bytes)
    ensures match CidFromBytes(payload)
            case Failed(e) => e == BadCid && Nameless(payload)
            case Parsed(c, n) => ValidCid(c) && n <= |payload| && payload == Payload(Block(c, payload[n..]))
    ensures forall b: Block :: ValidCid(b.cid) && payload == Payload(b) ==>
      CidFromBytes(payload) == Parsed(b.cid, |CidBytes(b.cid)|) && payload[|CidBytes(b.cid)|..] == b.data
  {
    hide CidBytes, CidFromBytes;
    CidIsWritten(payload);
    forall b: Block | ValidCid(b.cid) && payload == Payload(b)
      ensures CidFromBytes(payload) == Parsed(b.cid, |CidBytes(b.cid)|) && payload[|CidBytes(b.cid)|..] == b.data {
      CidRoundTrip(b.cid, b.data);
    }
  }

  /** Within the reader's limits, content intact or not. */
  predicate Fitting(cfg: Config, b: Block) {
    |Payload(b)| <= cfg.maxSection
  }

  lemma NodeExactly(d: Bytes, p: nat, zeroLenAsEof: bool, max: nat, b: Block)
    requires p <= |d|
    ensures NodeAt(d, p, zeroLenAsEof, max).Parsed? && NodeAt(d, p, zeroLenAsEof, max).value == b
      <==> ValidCid(b.cid) && SectionAt(d, p, b) && |Payload(b)| <= max
    ensures ValidCid(b.cid) && SectionAt(d, p, b) && |Payload(b)| <= max
      ==> NodeAt(d, p, zeroLenAsEof, max) == Parsed(b, p + |Section(b)|)
  {
    hide CidBytes, CidFromBytes, PayloadAt, Frame, FrameAt, ValidCid;
    PayloadIsNotEmpty(b);
    PayloadExactly(d, p, zeroLenAsEof, max, Payload(b));
    NamedExactly(Payload(b));
    if NodeAt(d, p, zeroLenAsEof, max).Parsed? {
      NamedExactly(PayloadAt(d, p, zeroLenAsEof, max).value);
    }
  }

  /** A block is delivered if and only if its section stands there and it is within the limits, well-formed and intact. */
  lemma BlockExactly(d: Bytes, p: nat, cfg: Config, b: Block)
    requires p <= |d|
    ensures NextAt(d, p, cfg).Parsed? && NextAt(d, p, cfg).value == b <==> SectionAt(d, p, b) && Readable(cfg, b)
    ensures SectionAt(d, p, b) && Readable(cfg, b) ==> NextAt(d, p, cfg) == Parsed(b, p + |Section(b)|)
  {
    hide NodeAt, Verifies, ValidCid, Section, Payload;
    NodeExactly(d, p, cfg.zeroLenAsEof, cfg.maxSection, b);
  }

  /** A section within the limits whose content does not hash to its identifier. */
  predicate Corrupt(cfg: Config, b: Block) {
    Fitting(cfg, b) && !Verifies(cfg, b)
  }

  ghost predicate CorruptAt(d: Bytes, p: nat, cfg: Config) {
    exists b: Block :: ValidCid(b.cid) && SectionAt(d, p, b) && Corrupt(cfg, b)
  }

  lemma NodeErrors(d: Bytes, p: nat, zeroLenAsEof: bool, max: nat)
    requires p <= |d|
    ensures NodeAt(d, p, zeroLenAsEof, max).Failed? ==> NodeAt(d, p, zeroLenAsEof, max).error != HashMismatch
    ensures NodeAt(d, p, zeroLenAsEof, max) == Failed(Eof) <==> EndsAt(d, p, zeroLenAsEof, max)
    ensures NodeAt(d, p, zeroLenAsEof, max) == Failed(SectionTooLarge) <==> TooLongAt(d, p, zeroLenAsEof, max)
    ensures NodeAt(d, p, zeroLenAsEof, max) == Failed(BadCid) <==> NamelessAt(d, p, zeroLenAsEof, max)
  {
    hide PayloadAt, CidFromBytes, EndsAt, TooLongAt, FrameAt, Nameless, ValidCid, Payload;
    PayloadErrors(d, p, zeroLenAsEof, max);
    EndExactly(d, p, zeroLenAsEof, max);
    TooLongExactly(d, p, zeroLenAsEof, max);
    NamelessExactly(d, p, zeroLenAsEof, max);
    match PayloadAt(d, p, zeroLenAsEof, max) {
      case Failed(_) =>
      case Parsed(payload, _) =>
        NamedExactly(payload);
        CidWithin(payload);
    }
  }

  /** A complete payload that names no block. */
  ghost predicate NamelessAt(d: Bytes, p: nat, zeroLenAsEof: bool, max: nat) {
    exists payload :: FrameAt(d, p, payload) && Admitted(|payload|, zeroLenAsEof, max) && Nameless(payload)
  }

  lemma NamelessExactly(d: Bytes, p: nat, zeroLenAsEof: bool, max: nat)
    requires p <= |d|
    ensures PayloadAt(d, p, zeroLenAsEof, max).Parsed? && CidFromBytes(PayloadAt(d, p, zeroLenAsEof, max).value).Failed?
      <==> NamelessAt(d, p, zeroLenAsEof, max)
  {
    hide PayloadAt, CidFromBytes, FrameAt, Nameless, ValidCid, Payload, Admitted;
    forall payload ensures PayloadAt(d, p, zeroLenAsEof, max).Parsed? && PayloadAt(d, p, zeroLenAsEof, max).value == payload
      <==> FrameAt(d, p, payload) && Admitted(|payload|, zeroLenAsEof, max) {
      PayloadExactly(d, p, zeroLenAsEof, max, payload);
    }
    forall payload ensures CidFromBytes(payload).Failed? <==> Nameless(payload) {
      NamelessMeans(payload);
    }
  }

  lemma NamelessMeans(payload: Bytes)
    ensures CidFromBytes(payload).Failed? <==> Nameless(payload)
  {
    hide CidFromBytes, ValidCid, Payload;
    NamedExactly(payload);
  }

  /** The reader's refusals, each exactly where it arises. */
  lemma RefusalsExactly(d: Bytes, p: nat, cfg: Config)
    requires p <= |d|
    ensures NextAt(d, p, cfg) == Failed(Eof) <==> EndsAt(d, p, cfg.zeroLenAsEof, cfg.maxSection)
    ensures NextAt(d, p, cfg) == Failed(HashMismatch) <==> CorruptAt(d, p, cfg)
    ensures NextAt(d, p, cfg) == Failed(SectionTooLarge) <==> TooLongAt(d, p, cfg.zeroLenAsEof, cfg.maxSection)
    ensures NextAt(d, p, cfg) == Failed(BadCid) <==> NamelessAt(d, p, cfg.zeroLenAsEof, cfg.maxSection)
  {
    hide NodeAt, EndsAt, TooLongAt, NamelessAt, Verifies, ValidCid, FrameAt, Payload, Section;
    NodeErrors(d, p, cfg.zeroLenAsEof, cfg.maxSection);
    if NodeAt(d, p, cfg.zeroLenAsEof, cfg.maxSection).Parsed? {
      NodeExactly(d, p, cfg.zeroLenAsEof, cfg.maxSection, NodeAt(d, p, cfg.zeroLenAsEof, cfg.maxSection).value);
    }
    forall b: Block ensures NodeAt(d, p, cfg.zeroLenAsEof, cfg.maxSection).Parsed?
                         && NodeAt(d, p, cfg.zeroLenAsEof, cfg.maxSection).value == b
      <==> ValidCid(b.cid) && SectionAt(d, p, b) && Fitting(cfg, b) {
      NodeExactly(d, p, cfg.zeroLenAsEof, cfg.maxSection, b);
    }
  }

  // ---------------------------------------------------------------- whole streams

  /** Intact sections are read through; what follows them is read next. */
  lemma {:induction false} ReadsThrough(d: Bytes, p: nat, blocks: seq<Block>, cfg: Config)
    requires AllReadable(cfg, blocks) && p + |Stream(blocks)| <= |d| && d[p..p + |Stream(blocks)|] == Stream(blocks)
    ensures var (bs, e) := BlocksFrom(d, p + |Stream(blocks)|, cfg); BlocksFrom(d, p, cfg) == (blocks + bs, e)
    decreases |blocks|
  {
    hide NextAt, BlocksFrom, Section, Readable;
    var (bs, e) := BlocksFrom(d, p + |Stream(blocks)|, cfg);
    if blocks == [] {
      assert blocks + bs == bs;
    } else {
      var b, rest := blocks[0], blocks[1..];
      var q := p + |Section(b)|;
      assert d[p..q] == d[p..p + |Stream(blocks)|][..|Section(b)|] == Section(b);
      assert d[q..q + |Stream(rest)|] == d[p..p + |Stream(blocks)|][|Section(b)|..] == Stream(rest);
      SectionReads(d, p, b, cfg);
      BlocksStep(d, p, cfg);
      ReadsThrough(d, q, rest, cfg);
      assert [b] + (rest + bs) == blocks + bs;
    }
  }

  /** And nothing else is ever delivered: what is read stands there, section by section, up to where the reader stopped. */
  lemma {:induction false} ReadIsWritten(d: Bytes, p: nat, cfg: Config)
    requires p <= |d|
    ensures var (bs, e) := BlocksFrom(d, p, cfg);
            && AllReadable(cfg, bs) && p + |Stream(bs)| <= |d| && d[p..p + |Stream(bs)|] == Stream(bs)
            && NextAt(d, p + |Stream(bs)|, cfg) == Failed(e)
    decreases |d| - p
  {
    hide NextAt, BlocksFrom, Section, Readable, SectionAt;
    BlocksStep(d, p, cfg);
    if NextAt(d, p, cfg).Parsed? {
      var b, q := NextAt(d, p, cfg).value, NextAt(d, p, cfg).next;
      BlockExactly(d, p, cfg, b);
      SectionBytes(d, p, b);
      ReadIsWritten(d, q, cfg);
      var rest := BlocksFrom(d, q, cfg).0;
      var bs := [b] + rest;
      assert bs[1..] == rest;
      assert d[p..p + |Stream(bs)|] == d[p..q] + d[q..q + |Stream(rest)|];
    }
  }

  lemma SectionBytes(d: Bytes, p: nat, b: Block)
    ensures SectionAt(d, p, b) ==> p + |Section(b)| <= |d| && d[p..p + |Section(b)|] == Section(b)
  {
  }

  /** Reading ends as if the file were complete only where a stream is taken to end. */
  lemma CleanEndExactly(d: Bytes, p: nat, cfg: Config)
    requires p <= |d|
    ensures var (bs, e) := BlocksFrom(d, p, cfg);
            p + |Stream(bs)| <= |d| && (e == Eof <==> EndsAt(d, p + |Stream(bs)|, cfg.zeroLenAsEof, cfg.maxSection))
  {
    hide NextAt, BlocksFrom, Stream, EndsAt, TooLongAt, NamelessAt, CorruptAt, AllReadable;
    ReadIsWritten(d, p, cfg);
    RefusalsExactly(d, p + |Stream(BlocksFrom(d, p, cfg).0)|, cfg);
  }

  lemma CorruptStream(d: Bytes, p: nat, blocks: seq<Block>, bad: Block, cfg: Config)
    requires AllReadable(cfg, blocks) && ValidCid(bad.cid) && |Payload(bad)| < TWO_63 && Corrupt(cfg, bad)
    requires p + |Stream(blocks)| + |Section(bad)| <= |d| && d[p..p + |Stream(blocks)|] == Stream(blocks)
    requires d[p + |Stream(blocks)|..p + |Stream(blocks)| + |Section(bad)|] == Section(bad)
    ensures BlocksFrom(d, p, cfg) == (blocks, HashMismatch)
  {
    hide NextAt, BlocksFrom, Stream, Section, AllReadable, ValidCid, Corrupt, Payload, EndsAt, TooLongAt, NamelessAt, CorruptAt;
    var q := p + |Stream(blocks)|;
    ReadsThrough(d, p, blocks, cfg);
    CorruptHere(d, q, cfg, bad);
    RefusalsExactly(d, q, cfg);
    BlocksStep(d, q, cfg);
    assert blocks + [] == blocks;
  }

  /** A file of intact blocks, then one whose content was altered, then anything: the intact ones come out, and an error. */
  lemma CorruptCar(hc: HeaderCodec, h: CarHeader, blocks: seq<Block>, bad: Block, rest: Bytes, cfg: Config)
    requires Lossless(hc, h) && |hc.encode(h)| <= MAX_HEADER && h.version == 1 && h.roots != [] && AllReadable(cfg, blocks)
    requires ValidCid(bad.cid) && |Payload(bad)| < TWO_63 && Corrupt(cfg, bad)
    ensures var d := CarBytes(hc, h, blocks) + Section(bad) + rest;
            LoadBlocks(d, 0, hc, cfg) == blocks && LoadResult(d, 0, hc, cfg) == Err(HashMismatch)
  {
    hide OpenAt, NextAt, BlocksFrom, Stream, Frame, Section, AllReadable, Lossless, ValidCid, Corrupt, Payload;
    var d := CarBytes(hc, h, blocks) + Section(bad) + rest;
    InOrder(d, Frame(hc.encode(h)), Stream(blocks), Section(bad), rest);
    HeaderReads(d, hc, h, MAX_HEADER);
    CorruptStream(d, |Frame(hc.encode(h))|, blocks, bad, cfg);
  }

  lemma InOrder(d: Bytes, a: Bytes, b: Bytes, c: Bytes, rest: Bytes)
    requires d == a + b + c + rest
    ensures |d| == |a| + |b| + |c| + |rest| && d[..|a|] == a && d[|a|..|a| + |b|] == b
    ensures d[|a| + |b|..|a| + |b| + |c|] == c
  {
  }

  lemma CorruptHere(d: Bytes, p: nat, cfg: Config, bad: Block)
    requires ValidCid(bad.cid) && |Payload(bad)| < TWO_63 && Corrupt(cfg, bad)
    requires p + |Section(bad)| <= |d| && d[p..p + |Section(bad)|] == Section(bad)
    ensures CorruptAt(d, p, cfg)
  {
    assert SectionAt(d, p, bad);
  }

  // ---------------------------------------------------------------- the header

  /** A written header: opened, or refused for its length, its version or its missing roots, in that order. */
  lemma WrittenHeader(hc: HeaderCodec, h: CarHeader, rest: Bytes, max: nat)
    requires Lossless(hc, h) && |hc.encode(h)| < TWO_63
    ensures OpenAt(Frame(hc.encode(h)) + rest, 0, hc, max)
         == if |hc.encode(h)| > max then Failed(HeaderTooLarge)
            else if h.version != 1 then Failed(BadVersion)
            else if h.roots == [] then Failed(NoRoots)
            else Parsed(h, |Frame(hc.encode(h))|)
  {
    hide Encode, ReadAt, PayloadAt;
    var d, payload := Frame(hc.encode(h)) + rest, hc.encode(h);
    assert d[0..|Frame(payload)|] == Frame(payload);
    FrameLength(d, 0, payload);
    PayloadExactly(d, 0, false, max, payload);
    if |payload| > max {
      TooLongExactly(d, 0, false, max);
    }
  }

  /** What cannot be decoded as a header is no header. */
  lemma UndecodedHeader(hc: HeaderCodec, payload: Bytes, rest: Bytes, max: nat)
    requires |payload| <= max && |payload| < TWO_63 && hc.decode(payload) == None
    ensures OpenAt(Frame(payload) + rest, 0, hc, max) == Failed(BadHeader)
  {
    hide Encode, ReadAt, PayloadAt;
    var d := Frame(payload) + rest;
    assert d[0..|Frame(payload)|] == Frame(payload);
    PayloadExactly(d, 0, false, max, payload);
  }

  /** Whatever opens begins with a version 1 header that has roots. */
  lemma OpenedIsWritten(d: Bytes, hc: HeaderCodec, max: nat)
    ensures match OpenAt(d, 0, hc, max)
            case Failed(_) => true
            case Parsed(h, q) =>
              && h.version == 1 && h.roots != []
              && exists payload :: FrameAt(d, 0, payload) && |payload| <= max && hc.decode(payload) == Some(h) && q == |Frame(payload)|
  {
    hide PayloadAt, FrameAt;
    if PayloadAt(d, 0, false, max).Parsed? {
      PayloadExactly(d, 0, false, max, PayloadAt(d, 0, false, max).value);
    }
  }

  // ---------------------------------------------------------------- content

  /** go-cid's Prefix.Sum over given hash functions: as much of the digest as the prefix asks for. */
  function SumOf(digests: (nat, Bytes) -> Option<Bytes>, p: Prefix, data: Bytes): Option<Cid> {
    match digests(p.hashCode, data)
    case None => None
    case Some(full) =>
      if p.length > |full| then None
      else if p.version == 1 then Some(V1(p.codec, p.hashCode, full[..p.length]))
      else if p.hashCode == SHA2_256 && p.length == 32 then Some(V0(full[..p.length]))
      else None
  }

  function HashCode(c: Cid): nat {
    if c.V0? then 0x12 else c.hashCode
  }

  /** A block is intact if and only if its identifier's digest begins the digest of its data. */
  lemma VerifiesExactly(digests: (nat, Bytes) -> Option<Bytes>, cfg: Config, b: Block)
    requires ValidCid(b.cid) && forall p, data :: cfg.hash(p, data) == SumOf(digests, p, data)
    ensures Verifies(cfg, b) <==>
      var full := digests(HashCode(b.cid), b.data); full.Some? && b.cid.digest <= full.value
  {
    var full := digests(HashCode(b.cid), b.data);
    var n := |b.cid.digest|;
    assert cfg.hash(PrefixOf(b.cid), b.data) == SumOf(digests, PrefixOf(b.cid), b.data);
    assert PrefixOf(b.cid).length == n && PrefixOf(b.cid).hashCode == HashCode(b.cid);
    if full.Some? && n <= |full.value| {
      assert full.value[..n] == b.cid.digest <==> b.cid.digest <= full.value;
    }
  }

  // ---------------------------------------------------------------- batches

  /** When reading fails, the complete batches of 1001 blocks have been stored, and the rest of them not. */
  lemma {:induction false} CompleteBatchesExactly(bs: seq<Block>)
    ensures CompleteBatches(bs) == bs[..|bs| - |bs| % 1001]
  {
    if |bs| > 1000 {
      CompleteBatchesExactly(bs[1001..]);
      assert (|bs| - 1001) % 1001 == |bs| % 1001;
    }
  }
}
