/** internal/carv2/util/util.go: length-prefixed sections, written to a byte sink and read from a seekable source. */
module Framing {
  import opened Base
  import opened Varint
  import opened Cids

  // ---------------------------------------------------------------- what the bytes mean

  function Flatten(parts: seq<Bytes>): Bytes {
    if parts == [] then [] else Flatten(parts[..|parts| - 1]) + parts[|parts| - 1]
  }

  function Frame(payload: Bytes): Bytes {
    Encode(|payload|) + payload
  }

  function Section(b: Block): Bytes {
    Frame(CidBytes(b.cid) + b.data)
  }

  function SizeAt(d: Bytes, p: nat, zeroLenAsEof: bool, max: nat): Parsed<nat>
    requires p <= |d|
  {
    match ReadAt(d, p, 0)
    case Failed(e) => Failed(e)
    case Parsed(l, q) =>
      if l == 0 && zeroLenAsEof then Failed(Eof)
      else if l > max then Failed(SectionTooLarge)
      else Parsed(l, q)
  }

  /** io.ReadFull: a clean end of file only if not a single byte could be read. */
  function FullAt(d: Bytes, p: nat, n: nat): Parsed<Bytes>
    requires p <= |d|
  {
    if p + n <= |d| then Parsed(d[p..p + n], p + n) else Failed(if p == |d| then Eof else UnexpectedEof)
  }

  function PayloadAt(d: Bytes, p: nat, zeroLenAsEof: bool, max: nat): Parsed<Bytes>
    requires p <= |d|
  {
    match SizeAt(d, p, zeroLenAsEof, max)
    case Failed(e) => Failed(e)
    case Parsed(l, q) =>
      ReadAdvances(d, p, 0);
      FullAt(d, q, l)
  }

  function NodeAt(d: Bytes, p: nat, zeroLenAsEof: bool, max: nat): Parsed<Block>
    requires p <= |d|
  {
    match PayloadAt(d, p, zeroLenAsEof, max)
    case Failed(e) => Failed(e)
    case Parsed(payload, q) =>
      match CidFromBytes(payload)
      case Failed(e) => Failed(e)
      case Parsed(c, n) => CidWithin(payload); Parsed(Block(c, payload[n..]), q)
  }

  lemma CidWithin(d: Bytes)
    ensures CidFromBytes(d).Parsed? ==> CidFromBytes(d).next <= |d|
  {
    if |d| > 2 && d[0] == 0x12 && d[1] == 0x20 {
    } else {
      ReadAdvances(d, 0, 0);
      if ReadAt(d, 0, 0).Parsed? {
        ReadAdvances(d, ReadAt(d, 0, 0).next, 0);
      }
    }
  }

  lemma NodeAdvances(d: Bytes, p: nat, zeroLenAsEof: bool, max: nat)
    requires p <= |d|
    ensures NodeAt(d, p, zeroLenAsEof, max).Parsed? ==> p < NodeAt(d, p, zeroLenAsEof, max).next <= |d|
  {
    ReadAdvances(d, p, 0);
  }

  // ---------------------------------------------------------------- reading

  class ByteReader {
    const data: Bytes
    var pos: nat

    constructor (data: Bytes)
      ensures this.data == data && pos == 0
    {
      this.data, pos := data, 0;
    }

    ghost predicate Valid()
      reads this
    {
      pos <= |data|
    }

    /** io.SeekStart with an int64 offset; a position past the end reads like the end. */
    method Seek(offset: uint64) returns (ok: bool)
      modifies this
      ensures ok <==> offset < TWO_63
      ensures pos == if !ok then old(pos) else if offset <= |data| then offset else |data|
    {
      ok := offset < TWO_63;
      if ok {
        pos := if offset <= |data| then offset else |data|;
      }
    }

    method ReadByte() returns (r: Result<byte, IoError>)
      requires Valid()
      modifies this
      ensures Valid()
      ensures if old(pos) < |data| then r == Ok(data[old(pos)]) && pos == old(pos) + 1 else r == Err(Eof) && pos == old(pos)
    {
      if pos == |data| {
        return Err(Eof);
      }
      r := Ok(data[pos]);
      pos := pos + 1;
    }

    method ReadFull(n: nat) returns (r: Result<Bytes, IoError>)
      requires Valid()
      modifies this
      ensures Valid()
      ensures Agrees(r, FullAt(data, old(pos), n), pos)
    {
      if pos + n <= |data| {
        r := Ok(data[pos..pos + n]);
        pos := pos + n;
      } else {
        r := Err(if pos == |data| then Eof else UnexpectedEof);
        pos := |data|;
      }
    }
  }

  /** A reading method agrees with its specification: the same error, or the same value and the same end. */
  ghost predicate Agrees<T>(r: Result<T, IoError>, spec: Parsed<T>, pos: nat) {
    match spec
    case Failed(e) => r == Err(e)
    case Parsed(v, q) => r == Ok(v) && pos == q
  }

  function Scale(x: nat, scale: nat, rest: Parsed<nat>): Parsed<nat> {
    match rest
    case Failed(e) => Failed(e)
    case Parsed(v, q) => Parsed(x + scale * v, q)
  }

  lemma ScaleStep(x: nat, scale: nat, b: nat, v: nat)
    ensures x + scale * (b + 0x80 * v) == x + scale * b + (0x80 * scale) * v
  {
  }

  /** go-varint's ReadUvarint: at most nine bytes, minimal encodings only. */
  method ReadUvarint(r: ByteReader) returns (res: Result<nat, IoError>)
    requires r.Valid()
    modifies r
    ensures r.Valid() && Agrees(res, ReadAt(r.data, old(r.pos), 0), r.pos)
  {
    var x: nat, i: nat, scale: nat := 0, 0, 1;
    while true
      invariant r.Valid()
      invariant ReadAt(r.data, old(r.pos), 0) == Scale(x, scale, ReadAt(r.data, r.pos, i))
      decreases |r.data| - r.pos
    {
      var b := r.ReadByte();
      if b.Err? {
        return Err(if b.error == Eof && i != 0 then UnexpectedEof else b.error);
      }
      if (i == 8 && b.value >= 0x80) || i >= 9 {
        return Err(Overflow);
      }
      if b.value < 0x80 {
        if b.value == 0 && i > 0 {
          return Err(NotMinimal);
        }
        return Ok(x + scale * b.value as nat);
      }
      ghost var rest := ReadAt(r.data, r.pos, i + 1);
      if rest.Parsed? {
        ScaleStep(x, scale, b.value as nat - 0x80, rest.value);
      }
      x, i, scale := x + scale * (b.value as nat - 0x80), i + 1, 0x80 * scale;
    }
  }

  method LdReadSize(r: ByteReader, zeroLenAsEof: bool, max: nat) returns (res: Result<nat, IoError>)
    requires r.Valid()
    modifies r
    ensures r.Valid() && Agrees(res, SizeAt(r.data, old(r.pos), zeroLenAsEof, max), r.pos)
  {
    var l := ReadUvarint(r);
    if l.Err? {
      return l;
    } else if l.value == 0 && zeroLenAsEof {
      return Err(Eof);
    }
    if l.value > max {
      return Err(SectionTooLarge);
    }
    return l;
  }

  method LdRead(r: ByteReader, zeroLenAsEof: bool, max: nat) returns (res: Result<Bytes, IoError>)
    requires r.Valid()
    modifies r
    ensures r.Valid() && Agrees(res, PayloadAt(r.data, old(r.pos), zeroLenAsEof, max), r.pos)
  {
    var l := LdReadSize(r, zeroLenAsEof, max);
    if l.Err? {
      return Err(l.error);
    }
    res := r.ReadFull(l.value);
  }

  method ReadNode(r: ByteReader, zeroLenAsEof: bool, max: nat) returns (res: Result<Block, IoError>)
    requires r.Valid()
    modifies r
    ensures r.Valid() && Agrees(res, NodeAt(r.data, old(r.pos), zeroLenAsEof, max), r.pos)
  {
    var payload := LdRead(r, zeroLenAsEof, max);
    if payload.Err? {
      return Err(payload.error);
    }
    CidWithin(payload.value);
    match CidFromBytes(payload.value)
    case Failed(e) => return Err(e);
    case Parsed(c, n) => return Ok(Block(c, payload.value[n..]));
  }

  // ---------------------------------------------------------------- writing

  class ByteWriter {
    var out: Bytes

    constructor ()
      ensures out == []
    {
      out := [];
    }

    method Write(d: Bytes)
      modifies this
      ensures out == old(out) + d
    {
      out := out + d;
    }
  }

  /** go-varint's PutUvarint: running off the end of the buffer is Go's index-out-of-range panic. */
  method PutUvarint(buf: array<byte>, value: nat) returns (r: Result<nat, IoError>)
    modifies buf
    ensures |Encode(value)| > buf.Length ==> r == Err(IndexOutOfRange)
    ensures |Encode(value)| <= buf.Length ==> r == Ok(|Encode(value)|) && buf[..|Encode(value)|] == Encode(value)
  {
    var x, i := value, 0;
    while x >= 0x80
      invariant 0 <= i <= buf.Length
      invariant buf[..i] + Encode(x) == Encode(value)
      decreases x
    {
      if i == buf.Length {
        return Err(IndexOutOfRange);
      }
      ghost var done := buf[..i];
      buf[i] := (x % 0x80 + 0x80) as byte;
      assert buf[..i + 1] == done + [buf[i]];
      x, i := x / 0x80, i + 1;
    }
    if i == buf.Length {
      return Err(IndexOutOfRange);
    }
    ghost var done := buf[..i];
    buf[i] := x as byte;
    assert buf[..i + 1] == done + [buf[i]];
    return Ok(i + 1);
  }

  /** The length loop LdWrite and LdSize share, in wrapping uint64 arithmetic. */
  method SumLengths(parts: seq<Bytes>) returns (sum: uint64)
    ensures sum == |Flatten(parts)| % TWO_64
  {
    sum := 0;
    for i := 0 to |parts|
      invariant sum == |Flatten(parts[..i])| % TWO_64
    {
      assert parts[..i + 1][..i] == parts[..i];
      sum := AddU64(sum, |parts[i]|);
    }
    assert parts[..|parts|] == parts;
  }

  /** Succeeds exactly when the length fits the eight-byte buffer, and then emits one frame; otherwise writes nothing. */
  method LdWrite(w: ByteWriter, parts: seq<Bytes>) returns (r: Result<(), IoError>)
    modifies w
    ensures r.Ok? <==> |Flatten(parts)| % TWO_64 < Pow128(8)
    ensures r.Ok? ==> w.out == old(w.out) + Encode(|Flatten(parts)| % TWO_64) + Flatten(parts)
    ensures r.Err? ==> r.error == IndexOutOfRange && w.out == old(w.out)
  {
    var sum := SumLengths(parts);
    var buf := new byte[8];
    var n := PutUvarint(buf, sum);
    EncodedLengthBound(sum, 8);
    if n.Err? {
      return Err(n.error);
    }
    w.Write(buf[..n.value]);
    ghost var written := w.out;
    for i := 0 to |parts|
      invariant w.out == written + Flatten(parts[..i])
    {
      assert parts[..i + 1][..i] == parts[..i];
      w.Write(parts[i]);
    }
    assert parts[..|parts|] == parts;
    return Ok(());
  }

  method LdSize(parts: seq<Bytes>) returns (size: uint64)
    ensures |Flatten(parts)| < TWO_63 ==> size == |Frame(Flatten(parts))|
  {
    hide Encode, BitLength, UvarintSize;
    var sum := SumLengths(parts);
    size := AddU64(sum, UvarintSize(sum));
    if |Flatten(parts)| < TWO_63 {
      SizeFits(sum);
    }
  }

  lemma SizeFits(n: nat)
    requires n < TWO_63
    ensures UvarintSize(n) == |Encode(n)| <= 9
  {
    SizeIsEncodedLength(n);
    Powers();
    EncodedLengthBound(n, 9);
  }

  /** Within the 2^56 limit of the length prefix, a block is written as exactly its section. */
  method WriteBlock(w: ByteWriter, c: Cid, data: Bytes) returns (r: Result<(), IoError>)
    modifies w
    ensures |CidBytes(c) + data| < Pow128(8) ==> r.Ok? && w.out == old(w.out) + Section(Block(c, data))
    ensures Pow128(8) <= |CidBytes(c) + data| < TWO_64 ==> r == Err(IndexOutOfRange) && w.out == old(w.out)
  {
    hide CidBytes;
    r := LdWrite(w, [CidBytes(c), data]);
    FlattenTwo(CidBytes(c), data);
    Powers();
    var total := |CidBytes(c) + data|;
    assert total < TWO_64 ==> total % TWO_64 == total;
  }

  lemma FlattenTwo(a: Bytes, b: Bytes)
    ensures Flatten([a, b]) == a + b
    ensures Flatten([a]) == a
  {
    assert [a][..0] == [];
    assert Flatten([a]) == [] + a == a;
    assert [a, b][..1] == [a];
  }
}
