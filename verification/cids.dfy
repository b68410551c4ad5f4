/** Content identifiers as go-cid holds them, with the byte layout that makes them self-delimiting. */
module Cids {
  import opened Base
  import opened Varint

  const DAG_PB: nat := 0x70
  const SHA2_256: nat := 0x12

  /** Version 0 is a bare 32-byte SHA2-256 multihash; version 1 names its codec and its hash function. */
  datatype Cid = V0(digest: Bytes) | V1(codec: nat, hashCode: nat, digest: Bytes)

  /** A block: identifier and raw data. */
  datatype Block = Block(cid: Cid, data: Bytes)

  ghost predicate ValidCid(c: Cid) {
    match c
    case V0(digest) => |digest| == 32
    case V1(codec, hashCode, digest) => codec < TWO_63 && hashCode < TWO_63 && |digest| < 0x8000_0000
  }

  function CidBytes(c: Cid): Bytes {
    match c
    case V0(digest) => [0x12, 0x20] + digest
    case V1(codec, hashCode, digest) => [1] + Encode(codec) + MultihashBytes(hashCode, digest)
  }

  function MultihashBytes(hashCode: nat, digest: Bytes): Bytes {
    Encode(hashCode) + Encode(|digest|) + digest
  }

  /** encoding.ToV1: version 0 becomes the version 1 identifier of the same dag-pb node. */
  function NormalizeCid(c: Cid): Cid {
    match c
    case V0(digest) => V1(DAG_PB, SHA2_256, digest)
    case V1(_, _, _) => c
  }

  function MultihashAt(d: Bytes, p: nat): Parsed<(nat, Bytes)>
    requires p <= |d|
  {
    match ReadAt(d, p, 0)
    case Failed(_) => Failed(BadCid)
    case Parsed(code, q) =>
      ReadAdvances(d, p, 0);
      match ReadAt(d, q, 0)
      case Failed(_) => Failed(BadCid)
      case Parsed(length, r) =>
        ReadAdvances(d, q, 0);
        if length >= 0x8000_0000 || r + length > |d| then Failed(BadCid)
        else Parsed((code, d[r..r + length]), r + length)
  }

  /** go-cid's CidFromBytes: the identifier at the start of `d` and where it ends. */
  function CidFromBytes(d: Bytes): Parsed<Cid> {
    if |d| > 2 && d[0] == 0x12 && d[1] == 0x20 then
      if |d| < 34 then Failed(BadCid) else Parsed(V0(d[2..34]), 34)
    else
      match ReadAt(d, 0, 0)
      case Failed(_) => Failed(BadCid)
      case Parsed(version, p) =>
        ReadAdvances(d, 0, 0);
        if version != 1 then Failed(BadCid)
        else match ReadAt(d, p, 0)
          case Failed(_) => Failed(BadCid)
          case Parsed(codec, q) =>
            ReadAdvances(d, p, 0);
            match MultihashAt(d, q)
            case Failed(_) => Failed(BadCid)
            case Parsed((hashCode, digest), r) => Parsed(V1(codec, hashCode, digest), r)
  }

  lemma EncodedField(n: nat)
    requires n < TWO_63
    ensures |Encode(n)| <= 9
  {
    Powers();
    EncodedLengthBound(n, 9);
  }

  lemma Middle(d: Bytes, pre: Bytes, mid: Bytes, post: Bytes)
    requires d == pre + mid + post
    ensures d[|pre|..|pre| + |mid|] == mid
  {
  }

  /** A varint field in the middle of a byte string reads back. */
  lemma FieldRoundTrip(d: Bytes, pre: Bytes, n: nat, post: Bytes)
    requires n < TWO_63 && d == pre + Encode(n) + post
    ensures ReadAt(d, |pre|, 0) == Parsed(n, |pre| + |Encode(n)|)
  {
    hide Encode, ReadAt;
    Middle(d, pre, Encode(n), post);
    EncodedField(n);
    ReadEncoded(d, |pre|, 0, n);
  }

  lemma MultihashRoundTrip(d: Bytes, pre: Bytes, hashCode: nat, digest: Bytes, post: Bytes)
    requires hashCode < TWO_63 && |digest| < 0x8000_0000
    requires d == pre + MultihashBytes(hashCode, digest) + post
    ensures MultihashAt(d, |pre|) == Parsed((hashCode, digest), |pre| + |MultihashBytes(hashCode, digest)|)
  {
    hide Encode, ReadAt;
    assert d == pre + Encode(hashCode) + (Encode(|digest|) + digest + post);
    FieldRoundTrip(d, pre, hashCode, Encode(|digest|) + digest + post);
    var pre2 := pre + Encode(hashCode);
    assert d == pre2 + Encode(|digest|) + (digest + post);
    FieldRoundTrip(d, pre2, |digest|, digest + post);
    Middle(d, pre2 + Encode(|digest|), digest, post);
  }

  /** Identifiers are self-delimiting: whatever bytes follow, the parser returns the identifier and its length. */
  lemma CidRoundTrip(c: Cid, data: Bytes)
    requires ValidCid(c)
    ensures CidFromBytes(CidBytes(c) + data) == Parsed(c, |CidBytes(c)|)
  {
    var d := CidBytes(c) + data;
    match c
    case V0(digest) =>
      assert d[2..34] == digest;
    case V1(codec, hashCode, digest) =>
      V1RoundTrip(d, c, data);
  }

  lemma V1RoundTrip(d: Bytes, c: Cid, data: Bytes)
    requires ValidCid(c) && c.V1? && d == CidBytes(c) + data
    ensures CidFromBytes(d) == Parsed(c, |CidBytes(c)|)
  {
    assert d[0] == 1 && ReadAt(d, 0, 0) == Parsed(1, 1);
    hide Encode, ReadAt, MultihashAt, MultihashBytes;
    var pre, hash := [1] + Encode(c.codec), MultihashBytes(c.hashCode, c.digest);
    assert d == [1] + Encode(c.codec) + (hash + data);
    FieldRoundTrip(d, [1], c.codec, hash + data);
    MultihashRoundTrip(d, pre, c.hashCode, c.digest, data);
  }

  /** A field that is read is the encoding of a number below 2^63. */
  lemma FieldIsWritten(d: Bytes, p: nat)
    requires p <= |d|
    ensures ReadAt(d, p, 0).Parsed? ==>
      var v, q := ReadAt(d, p, 0).value, ReadAt(d, p, 0).next;
      v < TWO_63 && p < q <= |d| && q == p + |Encode(v)| && d[p..q] == Encode(v)
  {
    ReadIsEncoded(d, p, 0);
    Powers();
    if ReadAt(d, p, 0).Parsed? {
      EncodedLengthBound(ReadAt(d, p, 0).value, 9);
    }
  }

  lemma MultihashIsWritten(d: Bytes, p: nat)
    requires p <= |d|
    ensures MultihashAt(d, p).Failed? ==> MultihashAt(d, p).error == BadCid
    ensures MultihashAt(d, p).Parsed? ==>
      var m := MultihashAt(d, p);
      && m.value.0 < TWO_63 && |m.value.1| < 0x8000_0000
      && p <= m.next <= |d| && d[p..m.next] == MultihashBytes(m.value.0, m.value.1)
  {
    hide Encode, ReadAt;
    FieldIsWritten(d, p);
    if ReadAt(d, p, 0).Parsed? {
      var q := ReadAt(d, p, 0).next;
      FieldIsWritten(d, q);
      if MultihashAt(d, p).Parsed? {
        var r, end := ReadAt(d, q, 0).next, MultihashAt(d, p).next;
        assert d[p..end] == d[p..q] + d[q..r] + d[r..end];
      }
    }
  }

  /** The parser accepts nothing but the byte forms of valid identifiers. */
  lemma CidIsWritten(d: Bytes)
    ensures match CidFromBytes(d)
            case Failed(e) => e == BadCid
            case Parsed(c, n) => ValidCid(c) && n == |CidBytes(c)| <= |d| && d[..n] == CidBytes(c)
  {
    if |d| > 2 && d[0] == 0x12 && d[1] == 0x20 {
      if |d| >= 34 {
        assert d[..34] == [0x12, 0x20] + d[2..34];
      }
    } else {
      V1IsWritten(d);
    }
  }

  lemma V1Bytes(d: Bytes, p: nat, q: nat, r: nat, codec: nat, hashCode: nat, digest: Bytes)
    requires p <= q <= r <= |d| && d[0..p] == Encode(1) && d[p..q] == Encode(codec) && d[q..r] == MultihashBytes(hashCode, digest)
    ensures d[..r] == CidBytes(V1(codec, hashCode, digest)) && r == |CidBytes(V1(codec, hashCode, digest))|
  {
    assert Encode(1) == [1];
    hide Encode, MultihashBytes;
    assert d[..r] == d[0..p] + d[p..q] + d[q..r];
  }

  lemma V1IsWritten(d: Bytes)
    requires !(|d| > 2 && d[0] == 0x12 && d[1] == 0x20)
    ensures match CidFromBytes(d)
            case Failed(e) => e == BadCid
            case Parsed(c, n) => c.V1? && ValidCid(c) && n == |CidBytes(c)| <= |d| && d[..n] == CidBytes(c)
  {
    hide Encode, ReadAt, MultihashAt, CidBytes, MultihashBytes;
    FieldIsWritten(d, 0);
    if ReadAt(d, 0, 0).Parsed? {
      var p := ReadAt(d, 0, 0).next;
      FieldIsWritten(d, p);
      if ReadAt(d, p, 0).Parsed? {
        var q := ReadAt(d, p, 0).next;
        MultihashIsWritten(d, q);
        if CidFromBytes(d).Parsed? {
          var m := MultihashAt(d, q);
          V1Bytes(d, p, q, m.next, ReadAt(d, p, 0).value, m.value.0, m.value.1);
        }
      }
    }
  }

  /** Distinct identifiers never share a byte form, and none is a prefix of another. */
  lemma CidBytesPrefixFree(a: Cid, b: Cid, x: Bytes, y: Bytes)
    requires ValidCid(a) && ValidCid(b) && CidBytes(a) + x == CidBytes(b) + y
    ensures a == b && x == y
  {
    CidRoundTrip(a, x);
    CidRoundTrip(b, y);
    assert x == (CidBytes(a) + x)[|CidBytes(a)|..];
    assert y == (CidBytes(b) + y)[|CidBytes(b)|..];
  }

  /** The version 1 form of a version 0 identifier: its bytes behind the version and the dag-pb codec. */
  lemma NormalizedForm(c: Cid)
    requires ValidCid(c)
    ensures NormalizeCid(c).V1? && ValidCid(NormalizeCid(c)) && NormalizeCid(c).digest == c.digest
    ensures CidBytes(NormalizeCid(c)) == if c.V0? then [0x01, 0x70] + CidBytes(c) else CidBytes(c)
  {
    if c.V0? {
      assert Encode(0x70) == [0x70] && Encode(0x12) == [0x12] && Encode(32) == [0x20];
    }
  }
}
