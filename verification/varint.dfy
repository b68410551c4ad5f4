/** The unsigned varint of the multiformats specification: encoder, size formula and bounded reader. */
module Varint {
  import opened Base

  datatype IoError =
    | Eof
    | UnexpectedEof
    | Overflow
    | NotMinimal
    | SectionTooLarge
    | HeaderTooLarge
    | BadCid
    | BadHeader
    | BadVersion
    | NoRoots
    | HashMismatch
    | StoreFailure
    | IndexOutOfRange

  /** What a reader finds at a position: a value and the position after it, or an error. */
  datatype Parsed<+T> = Parsed(value: T, next: nat) | Failed(error: IoError)

  /** Seven bits a byte, least significant first, every byte but the last with its top bit set. */
  function Encode(n: nat): (b: Bytes)
    ensures |b| > 0
  {
    if n < 0x80 then [n as byte] else [(n % 0x80 + 0x80) as byte] + Encode(n / 0x80)
  }

  function BitLength(n: nat): nat {
    if n == 0 then 0 else 1 + BitLength(n / 2)
  }

  /** The size formula of go-varint: one byte for each seven significant bits, and one for zero. */
  function UvarintSize(n: nat): nat {
    var q, r := BitLength(n) / 7, BitLength(n) % 7;
    if r > 0 || q == 0 then q + 1 else q
  }

  /** Reads the varint at `p`, of which the first `i` bytes are already consumed; the value is that of the rest. */
  function ReadAt(d: Bytes, p: nat, i: nat): Parsed<nat>
    requires p <= |d|
    decreases |d| - p
  {
    if p == |d| then Failed(if i == 0 then Eof else UnexpectedEof)
    else if (i == 8 && d[p] >= 0x80) || i >= 9 then Failed(Overflow)
    else if d[p] < 0x80 then
      if d[p] == 0 && i > 0 then Failed(NotMinimal) else Parsed(d[p] as nat, p + 1)
    else match ReadAt(d, p + 1, i + 1)
      case Failed(e) => Failed(e)
      case Parsed(v, q) => Parsed(d[p] as nat - 0x80 + 0x80 * v, q)
  }

  lemma {:induction false} BitLengthShift(n: nat)
    requires n >= 0x80
    ensures BitLength(n) == 7 + BitLength(n / 0x80)
  {
    calc {
      BitLength(n);
      1 + BitLength(n / 2);
      { assert n / 2 / 2 == n / 4; }
      2 + BitLength(n / 4);
      { assert n / 4 / 2 == n / 8; }
      3 + BitLength(n / 8);
      { assert n / 8 / 2 == n / 16; }
      4 + BitLength(n / 16);
      { assert n / 16 / 2 == n / 32; }
      5 + BitLength(n / 32);
      { assert n / 32 / 2 == n / 64; }
      6 + BitLength(n / 64);
      { assert n / 64 / 2 == n / 128; }
      7 + BitLength(n / 128);
    }
  }

  /** The arithmetic size formula counts exactly the bytes the encoder emits. */
  lemma {:induction false} SizeIsEncodedLength(n: nat)
    ensures UvarintSize(n) == |Encode(n)|
  {
    if n >= 0x80 {
      SizeIsEncodedLength(n / 0x80);
      BitLengthShift(n);
    } else {
      SmallBitLength(n);
    }
  }

  lemma SmallBitLength(n: nat)
    requires n < 0x80
    ensures BitLength(n) <= 7
  {
    assert n / 2 < 64 && n / 4 < 32 && n / 8 < 16 && n / 16 < 8 && n / 32 < 4 && n / 64 < 2;
    assert BitLength(n / 64) <= 1;
    assert BitLength(n / 32) <= 2;
    assert BitLength(n / 16) <= 3;
    assert BitLength(n / 8) <= 4;
    assert BitLength(n / 4) <= 5;
    assert BitLength(n / 2) <= 6;
  }

  /** An encoding takes `k` bytes or fewer exactly when the value has at most `7k` bits. */
  lemma {:induction false} EncodedLengthBound(n: nat, k: nat)
    requires k > 0
    ensures |Encode(n)| <= k <==> n < Pow128(k)
    decreases k
  {
    if n < 0x80 {
      Pow128AtLeast(k);
    } else if k == 1 {
    } else {
      EncodedLengthBound(n / 0x80, k - 1);
    }
  }

  function Pow128(k: nat): nat {
    if k == 0 then 1 else 0x80 * Pow128(k - 1)
  }

  lemma {:induction false} Pow128AtLeast(k: nat)
    requires k > 0
    ensures Pow128(k) >= 0x80
  {
    if k > 1 {
      Pow128AtLeast(k - 1);
    }
  }

  lemma Powers()
    ensures Pow128(8) == 0x100_0000_0000_0000
    ensures Pow128(9) == TWO_63
  {
    assert Pow128(2) == 0x4000;
    assert Pow128(4) == 0x1000_0000;
    assert Pow128(6) == 0x400_0000_0000;
  }

  /** The number a byte string stands for: seven bits a byte, the least significant first. */
  function ValueOf(b: Bytes): nat {
    if b == [] then 0 else ValueOf(b[..|b| - 1]) + (b[|b| - 1] as nat % 0x80) * Pow128(|b| - 1)
  }

  lemma {:induction false} ValueFromFront(b: Bytes)
    requires b != []
    ensures ValueOf(b) == b[0] as nat % 0x80 + 0x80 * ValueOf(b[1..])
  {
    if |b| > 1 {
      var front, last := b[..|b| - 1], b[|b| - 1] as nat % 0x80;
      ValueFromFront(front);
      assert front[1..] == b[1..][..|b[1..]| - 1];
      assert last * Pow128(|b| - 1) == 0x80 * (last * Pow128(|b| - 2));
    } else {
      assert b[..0] == [] && b[1..] == [];
    }
  }

  ghost predicate Minimal(b: Bytes) {
    && b != [] && b[|b| - 1] < 0x80 && (|b| > 1 ==> b[|b| - 1] > 0)
    && forall i :: 0 <= i < |b| - 1 ==> b[i] >= 0x80
  }

  /** The encoding is the one minimal byte string with the number's value. */
  lemma {:induction false} EncodeExactly(n: nat, b: Bytes)
    ensures b == Encode(n) <==> Minimal(b) && ValueOf(b) == n
    decreases n + |b|
  {
    EncodeIsMinimal(n);
    if Minimal(b) && ValueOf(b) == n {
      ValueFromFront(b);
      assert ValueOf([]) == 0;
      if |b| > 1 {
        MinimalIsPositive(b[1..]);
        EncodeExactly(n / 0x80, b[1..]);
        assert b == [b[0]] + b[1..];
      } else {
        assert b[1..] == [];
      }
    }
  }

  lemma {:induction false} MinimalIsPositive(b: Bytes)
    requires Minimal(b) && b[|b| - 1] > 0
    ensures ValueOf(b) > 0
  {
    ValueFromFront(b);
    if |b| > 1 {
      MinimalIsPositive(b[1..]);
    }
  }

  lemma {:induction false} EncodeIsMinimal(n: nat)
    ensures Minimal(Encode(n)) && ValueOf(Encode(n)) == n && (n > 0 ==> Encode(n)[|Encode(n)| - 1] > 0)
  {
    ValueFromFront(Encode(n));
    if n >= 0x80 {
      EncodeIsMinimal(n / 0x80);
      assert Encode(n)[1..] == Encode(n / 0x80);
    } else {
      assert Encode(n)[1..] == [] && ValueOf([]) == 0;
    }
  }

  /** Reading back an encoding of at most nine bytes gives the value and stops right after it. */
  lemma {:induction false} ReadEncoded(d: Bytes, p: nat, i: nat, n: nat)
    requires p + |Encode(n)| <= |d| && d[p..p + |Encode(n)|] == Encode(n)
    requires i + |Encode(n)| <= 9 && (i > 0 ==> n > 0)
    ensures ReadAt(d, p, i) == Parsed(n, p + |Encode(n)|)
    decreases n
  {
    assert d[p] == Encode(n)[0];
    if n >= 0x80 {
      assert d[p + 1..p + |Encode(n)|] == Encode(n)[1..] == Encode(n / 0x80);
      ReadEncoded(d, p + 1, i + 1, n / 0x80);
    }
  }

  /** A stream that ends inside an encoding reads as a clean end before its first byte and an unclean one after. */
  lemma {:induction false} ReadCutShort(d: Bytes, p: nat, i: nat, n: nat)
    requires p <= |d| < p + |Encode(n)| && d[p..] == Encode(n)[..|d| - p]
    requires i + |Encode(n)| <= 9
    ensures ReadAt(d, p, i) == Failed(if p == |d| && i == 0 then Eof else UnexpectedEof)
    decreases n
  {
    if p < |d| {
      assert d[p] == d[p..][0] == Encode(n)[0];
      assert d[p + 1..] == d[p..][1..] == Encode(n / 0x80)[..|d| - p - 1];
      ReadCutShort(d, p + 1, i + 1, n / 0x80);
    }
  }

  /** What is read is the minimal encoding of the value, in nine bytes at most. */
  lemma {:induction false} ReadIsEncoded(d: Bytes, p: nat, i: nat)
    requires p <= |d|
    ensures match ReadAt(d, p, i)
            case Failed(_) => true
            case Parsed(v, q) => p < q <= |d| && d[p..q] == Encode(v) && i + (q - p) <= 9 && (i > 0 ==> v > 0)
    decreases |d| - p
  {
    if p < |d| && d[p] >= 0x80 {
      ReadIsEncoded(d, p + 1, i + 1);
      match ReadAt(d, p, i)
      case Failed(_) =>
      case Parsed(v, q) =>
        assert d[p..q] == [d[p]] + d[p + 1..q];
    }
  }

  /** Behind `m` bytes that ask for another one: which read fails, and how. */
  lemma {:induction false} ReadErrors(d: Bytes, p: nat, i: nat, m: nat)
    requires p + m <= |d| && i + m <= 9 && forall k :: p <= k < p + m ==> d[k] >= 0x80
    ensures i + m == 9 && m > 0 ==> ReadAt(d, p, i) == Failed(Overflow)
    ensures i + m < 9 && p + m == |d| ==> ReadAt(d, p, i) == Failed(if i + m == 0 then Eof else UnexpectedEof)
    ensures i + m < 9 && p + m < |d| && d[p + m] == 0 && i + m > 0 ==> ReadAt(d, p, i) == Failed(NotMinimal)
    ensures i + m < 9 && p + m < |d| && d[p + m] < 0x80 && (d[p + m] > 0 || i + m == 0)
      ==> ReadAt(d, p, i).Parsed? && ReadAt(d, p, i).next == p + m + 1
    decreases m
  {
    if m > 0 && i + 1 < 9 {
      ReadErrors(d, p + 1, i + 1, m - 1);
    }
  }

  /** The errors of a read; it ends cleanly only at the end of the stream, before its first byte. */
  lemma {:induction false} ReadErrorKinds(d: Bytes, p: nat, i: nat)
    requires p <= |d|
    ensures match ReadAt(d, p, i)
            case Parsed(_, _) => true
            case Failed(e) => (e == Eof <==> p == |d| && i == 0) && (e == Eof || e == UnexpectedEof || e == Overflow || e == NotMinimal)
    decreases |d| - p
  {
    if p < |d| && d[p] >= 0x80 {
      ReadErrorKinds(d, p + 1, i + 1);
    }
  }

  lemma {:induction false} ReadAdvances(d: Bytes, p: nat, i: nat)
    requires p <= |d|
    ensures ReadAt(d, p, i).Parsed? ==> p < ReadAt(d, p, i).next <= |d|
    decreases |d| - p
  {
    if p < |d| && d[p] >= 0x80 {
      ReadAdvances(d, p + 1, i + 1);
    }
  }
}
