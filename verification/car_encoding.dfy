/** From DAG nodes to the bytes of a CAR: what has to be known of the encoders, and the exact size of the result. */
module CarEncoding {
  import opened Base
  import opened Varint
  import C = Cids
  import opened Framing
  import opened CarReaders
  import opened CarStreamTheorems
  import opened Dag

  /** dag-pb with UnixFS, and SHA-256: the bytes of a node and the identifier those bytes get. */
  datatype Encoding = Encoding(raw: Node -> Bytes, cid: Cid -> C.Cid)

  /** The other direction: what a block's bytes decode to, and the node an identifier names. */
  datatype Decoding = Decoding(node: Bytes -> Option<Node>, cid: C.Cid -> Cid)

  /** On these identifiers decoding undoes encoding; in particular their hashes do not collide. */
  ghost predicate Inverse(dec: Decoding, enc: Encoding, cs: set<Cid>) {
    forall c :: c in cs ==> dec.cid(enc.cid(c)) == c && (c.Of? ==> dec.node(enc.raw(c.node)) == Some(c.node))
  }

  function BlockOf(enc: Encoding, c: Cid): C.Block
    requires c.Of?
  {
    C.Block(enc.cid(c), enc.raw(c.node))
  }

  predicate AllDefined(cs: seq<Cid>) {
    forall i :: 0 <= i < |cs| ==> cs[i].Of?
  }

  function BlocksOf(enc: Encoding, cs: seq<Cid>): (r: seq<C.Block>)
    requires AllDefined(cs)
    ensures |r| == |cs| && forall i :: 0 <= i < |cs| ==> r[i] == BlockOf(enc, cs[i])
  {
    seq(|cs|, i requires 0 <= i < |cs| => BlockOf(enc, cs[i]))
  }

  function HeaderOf(enc: Encoding, root: Cid): CarHeader {
    CarHeader([enc.cid(root)], 1)
  }

  /** The file WriteCAR produces when no block is ever missing. */
  function CarFile(enc: Encoding, hc: HeaderCodec, root: Cid, cs: seq<Cid>): Bytes
    requires AllDefined(cs)
  {
    CarBytes(hc, HeaderOf(enc, root), BlocksOf(enc, cs))
  }

  /** Every section's payload fits the eight-byte length buffer. */
  ghost predicate Writable(enc: Encoding, hc: HeaderCodec, root: Cid, cs: seq<Cid>)
    requires AllDefined(cs)
  {
    && |hc.encode(HeaderOf(enc, root))| < Pow128(8)
    && forall i :: 0 <= i < |cs| ==> |Payload(BlockOf(enc, cs[i]))| < Pow128(8)
  }

  // ---------------------------------------------------------------- sizes

  /** What CalculateCARSize plans for one block: the identifier in its version 1 form, and the recorded length. */
  function PlannedSize(c: C.Cid, dataLen: nat): nat {
    var cidLen := |C.CidBytes(C.NormalizeCid(c))|;
    UvarintSize(cidLen + dataLen) + cidLen + dataLen
  }

  function PlannedSum(cs: seq<C.Cid>, sizes: seq<nat>): nat
    requires |cs| == |sizes|
  {
    if cs == [] then 0
    else PlannedSum(cs[..|cs| - 1], sizes[..|cs| - 1]) + PlannedSize(cs[|cs| - 1], sizes[|cs| - 1])
  }

  lemma {:induction false} EncodeGrows(m: nat, n: nat)
    requires m <= n
    ensures |Encode(m)| <= |Encode(n)|
  {
    if m >= 0x80 {
      EncodeGrows(m / 0x80, n / 0x80);
    }
  }

  /** A planned block is as long as its section when its identifier is version 1, and longer otherwise. */
  lemma PlannedBlock(b: C.Block)
    requires C.ValidCid(b.cid)
    ensures b.cid.V1? ==> PlannedSize(b.cid, |b.data|) == |Section(b)|
    ensures b.cid.V0? ==> PlannedSize(b.cid, |b.data|) > |Section(b)|
  {
    var planned := |C.CidBytes(C.NormalizeCid(b.cid))|;
    SizeIsEncodedLength(planned + |b.data|);
    if b.cid.V0? {
      EncodeGrows(|Payload(b)|, planned + |b.data|);
    }
  }

  lemma {:induction false} StreamAppend(bs: seq<C.Block>, b: C.Block)
    ensures |Stream(bs + [b])| == |Stream(bs)| + |Section(b)|
  {
    StreamSplit(bs + [b], |bs|);
    assert (bs + [b])[..|bs|] == bs && (bs + [b])[|bs|..] == [b];
    assert [b][1..] == [];
  }

  ghost predicate AllV1(bs: seq<C.Block>) {
    forall i :: 0 <= i < |bs| ==> bs[i].cid.V1?
  }

  /** The plan covers the blocks: their identifiers and their true lengths, in order. */
  ghost predicate Covers(bs: seq<C.Block>, cs: seq<C.Cid>, sizes: seq<nat>) {
    && |cs| == |sizes| == |bs|
    && forall i :: 0 <= i < |bs| ==> C.ValidCid(bs[i].cid) && cs[i] == bs[i].cid && sizes[i] == |bs[i].data|
  }

  lemma AllV1Last(bs: seq<C.Block>)
    requires bs != []
    ensures AllV1(bs) <==> AllV1(bs[..|bs| - 1]) && bs[|bs| - 1].cid.V1?
  {
    assert AllV1(bs[..|bs| - 1]) && bs[|bs| - 1].cid.V1? ==> AllV1(bs) by {
      forall i | 0 <= i < |bs| && AllV1(bs[..|bs| - 1]) && bs[|bs| - 1].cid.V1? ensures bs[i].cid.V1? {
        assert i < |bs| - 1 ==> bs[..|bs| - 1][i] == bs[i];
      }
    }
  }

  /** The planned sizes add up to the written bytes if and only if every identifier is version 1. */
  lemma {:induction false} PlannedExactly(bs: seq<C.Block>, cs: seq<C.Cid>, sizes: seq<nat>)
    requires Covers(bs, cs, sizes)
    ensures PlannedSum(cs, sizes) >= |Stream(bs)|
    ensures PlannedSum(cs, sizes) == |Stream(bs)| <==> AllV1(bs)
  {
    hide PlannedSize, Section, Stream, C.ValidCid, AllV1;
    if bs == [] {
      NothingPlanned();
    } else {
      var n := |bs| - 1;
      PlannedExactly(bs[..n], cs[..n], sizes[..n]);
      assert bs == bs[..n] + [bs[n]];
      StreamAppend(bs[..n], bs[n]);
      PlannedBlock(bs[n]);
      AllV1Last(bs);
    }
  }

  lemma NothingPlanned()
    ensures Stream([]) == [] && AllV1([])
  {
  }

  /** The same blocks under version 1 identifiers. */
  function InV1(bs: seq<C.Block>): (r: seq<C.Block>)
    ensures |r| == |bs| && forall i :: 0 <= i < |bs| ==> r[i] == C.Block(C.NormalizeCid(bs[i].cid), bs[i].data)
  {
    seq(|bs|, i requires 0 <= i < |bs| => C.Block(C.NormalizeCid(bs[i].cid), bs[i].data))
  }

  /** Whatever the identifiers are, the plan is the length of the sections their version 1 forms would give. */
  lemma {:induction false} PlannedIsV1(bs: seq<C.Block>, cs: seq<C.Cid>, sizes: seq<nat>)
    requires Covers(bs, cs, sizes)
    ensures PlannedSum(cs, sizes) == |Stream(InV1(bs))|
  {
    hide Section, Stream, C.ValidCid, UvarintSize, C.NormalizeCid;
    if bs == [] {
      NothingPlanned();
    } else {
      var n := |bs| - 1;
      var b := C.Block(C.NormalizeCid(bs[n].cid), bs[n].data);
      PlannedIsV1(bs[..n], cs[..n], sizes[..n]);
      assert InV1(bs) == InV1(bs[..n]) + [b];
      StreamAppend(InV1(bs[..n]), b);
      PlannedSection(bs[n]);
    }
  }

  lemma PlannedSection(b: C.Block)
    ensures PlannedSize(b.cid, |b.data|) == |Section(C.Block(C.NormalizeCid(b.cid), b.data))|
  {
    hide C.CidBytes, UvarintSize, Encode;
    SizeIsEncodedLength(|C.CidBytes(C.NormalizeCid(b.cid))| + |b.data|);
  }
}
