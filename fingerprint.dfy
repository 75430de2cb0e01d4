/**
 * The fingerprint engine (readFile): a file is cut into consecutive blocks
 * of blockSize bytes, a short last block is right-padded with zero bytes,
 * and the hash of every block is appended in file order.
 */
module Fingerprints {
  import opened Types

  /** `n` zero bytes ('\0'). */
  function Zeros(n: nat): seq<byte>
  {
    seq(n, _ => 0)
  }

  /** `chunk` right-padded with zero bytes up to `size` bytes (std::string::resize(size, '\0')). */
  function PadRight(chunk: seq<byte>, size: nat): seq<byte>
    requires |chunk| <= size
  {
    chunk + Zeros(size - |chunk|)
  }

  /** ceil(n / b). */
  function CeilDiv(n: nat, b: nat): nat
    requires b > 0
  {
    (n + b - 1) / b
  }

  /** Block `i` of `data` as hashed: bytes [i*size, min((i+1)*size, |data|)), zero-padded to `size`. */
  function Block(data: seq<byte>, size: nat, i: nat): seq<byte>
    requires size > 0 && i * size < |data|
  {
    var lo := i * size;
    var hi := Min(lo + size, |data|);
    PadRight(data[lo..hi], size)
  }

  /** The fingerprint of `data`: the hash of each block, in file order. */
  function Fingerprint(crc: Hasher, data: seq<byte>, size: nat): seq<bv32>
    requires size > 0
    decreases |data|
  {
    if |data| == 0 then []
    else
      var k := Min(size, |data|);
      [crc(PadRight(data[..k], size))] + Fingerprint(crc, data[k..], size)
  }

  // ---------------------------------------------------------------------
  // Arithmetic helpers (Dafny's / and % are Euclidean; all operands here are
  // non-negative, where they agree with C++'s).

  lemma DivModUnique(a: int, b: int, q: int, r: int)
    requires b > 0 && 0 <= r < b && a == q * b + r
    ensures a / b == q && a % b == r
  {
    var q', r' := a / b, a % b;
    assert a == q' * b + r';
    if q' > q {
      assert (q' - q) * b == r - r';
      MulAtLeast(q' - q, b);
    } else if q' < q {
      assert (q - q') * b == r' - r;
      MulAtLeast(q - q', b);
    }
  }

  lemma MulAtLeast(x: int, b: int)
    requires x >= 1 && b > 0
    ensures x * b >= b
  {
    assert x * b == (x - 1) * b + b;
    assert (x - 1) * b >= 0;
  }

  lemma MulPred(i: int, b: int)
    ensures (i - 1) * b + b == i * b
  {
  }

  lemma CeilDivStep(n: nat, b: nat)
    requires b > 0 && n > b
    ensures CeilDiv(n, b) == CeilDiv(n - b, b) + 1
  {
    var x := n - b + b - 1;
    var q, r := x / b, x % b;
    assert x == q * b + r;
    assert n + b - 1 == (q + 1) * b + r;
    DivModUnique(n + b - 1, b, q + 1, r);
  }

  lemma CeilDivSmall(n: nat, b: nat)
    requires b > 0 && n <= b
    ensures CeilDiv(n, b) == if n == 0 then 0 else 1
  {
    if n == 0 {
      DivModUnique(b - 1, b, 0, b - 1);
    } else {
      DivModUnique(n + b - 1, b, 1, n - 1);
    }
  }

  // ---------------------------------------------------------------------
  // Properties of the fingerprint.

  /** A fingerprint has exactly ceil(|data| / size) hashes. */
  lemma {:induction false} FingerprintLength(crc: Hasher, data: seq<byte>, size: nat)
    requires size > 0
    ensures |Fingerprint(crc, data, size)| == CeilDiv(|data|, size)
    decreases |data|
  {
    if |data| <= size {
      CeilDivSmall(|data|, size);
    } else {
      FingerprintLength(crc, data[size..], size);
      CeilDivStep(|data|, size);
    }
  }

  /** An empty file has an empty fingerprint, and a file of exactly m blocks has
      m hashes: no extra hash for an empty trailing block. */
  lemma FingerprintOfWholeBlocks(crc: Hasher, data: seq<byte>, size: nat, m: nat)
    requires size > 0 && |data| == m * size
    ensures |Fingerprint(crc, data, size)| == m
    ensures |data| == 0 ==> Fingerprint(crc, data, size) == []
  {
    FingerprintLength(crc, data, size);
    DivModUnique(|data| + size - 1, size, m, size - 1);
  }

  /** Block i of `data` is block i - 1 of what follows its first block. */
  lemma BlockOfRest(data: seq<byte>, size: nat, i: nat)
    requires size > 0 && i >= 1 && |data| > size && (i - 1) * size < |data| - size
    ensures i * size < |data|
    ensures Block(data[size..], size, i - 1) == Block(data, size, i)
  {
    var rest := data[size..];
    var lo := (i - 1) * size;
    MulPred(i, size);
    var hi := Min(lo + size, |rest|);
    assert hi + size == Min(i * size + size, |data|);
    assert rest[lo..hi] == data[lo + size..hi + size];
  }

  /** Hash `i` of the fingerprint is the hash of zero-padded block `i`. */
  lemma {:induction false} FingerprintAt(crc: Hasher, data: seq<byte>, size: nat, i: nat)
    requires size > 0 && i < |Fingerprint(crc, data, size)|
    ensures i * size < |data|
    ensures Fingerprint(crc, data, size)[i] == crc(Block(data, size, i))
    decreases i
  {
    var k := Min(size, |data|);
    var fp := Fingerprint(crc, data, size);
    var rest := data[k..];
    assert fp == [crc(PadRight(data[..k], size))] + Fingerprint(crc, rest, size);
    if i == 0 {
      assert data[..k] == data[0..k];
    } else {
      assert fp[i] == Fingerprint(crc, rest, size)[i - 1];
      FingerprintAt(crc, rest, size, i - 1);
      assert k == size;
      BlockOfRest(data, size, i);
    }
  }

  /** Every hashed block is exactly `size` bytes: the real bytes of the block
      followed by zero bytes, never by bytes left over from an earlier block. */
  lemma BlockShape(data: seq<byte>, size: nat, i: nat)
    requires size > 0 && i * size < |data|
    ensures |Block(data, size, i)| == size
    ensures var len := Min(size, |data| - i * size);
      Block(data, size, i)[..len] == data[i * size..i * size + len] &&
      forall j :: len <= j < size ==> Block(data, size, i)[j] == 0
  {
  }

  /** Detection only: appending a zero byte inside a partial last block does not
      change the fingerprint, so such two files are reported as duplicates. */
  lemma {:induction false} TrailingZeroCollision(crc: Hasher, data: seq<byte>, size: nat)
    requires size > 0 && |data| % size != 0
    ensures Fingerprint(crc, data + [0], size) == Fingerprint(crc, data, size)
    decreases |data|
  {
    var longer := data + [0];
    if |data| < size {
      assert longer[..|longer|] == longer;
      assert longer[|longer|..] == [];
      assert data[..|data|] == data;
      assert data[|data|..] == [];
      assert PadRight(longer, size) == PadRight(data, size);
    } else if |data| == size {
      DivModUnique(|data|, size, 1, 0);
    } else {
      var q, m := |data| / size, |data| % size;
      assert |data| == q * size + m;
      assert |data| - size == (q - 1) * size + m;
      DivModUnique(|data| - size, size, q - 1, m);
      assert longer[..size] == data[..size];
      assert longer[size..] == data[size..] + [0];
      TrailingZeroCollision(crc, data[size..], size);
    }
  }

  // ---------------------------------------------------------------------
  // The input stream and readFile.

  /** An std::ifstream opened in binary mode: its bytes, the read position and
      whether the stream is still good (no failed read yet). */
  datatype InStream = InStream(data: seq<byte>, pos: nat, good: bool)

  /** The stream state, the buffer and gcount() after one istream::read call. */
  datatype ReadOutcome = ReadOutcome(stream: InStream, buffer: seq<byte>, gcount: nat)

  /** istream::read(&buffer[0], count): on a good stream copies the next up to
      `count` bytes over the front of `buffer` (the rest of the buffer keeps its
      old bytes) and fails the stream when fewer than `count` were available;
      on a failed stream reads nothing. */
  function Read(s: InStream, buffer: seq<byte>, count: nat): (r: ReadOutcome)
    requires s.pos <= |s.data| && count <= |buffer|
    ensures r.stream.data == s.data && s.pos <= r.stream.pos <= |s.data|
    ensures r.gcount == r.stream.pos - s.pos <= count
    ensures |r.buffer| == |buffer|
    ensures r.buffer[..r.gcount] == s.data[s.pos..r.stream.pos]
    ensures r.buffer[r.gcount..] == buffer[r.gcount..]
    ensures r.stream.good <==> s.good && s.pos + count <= |s.data|
    ensures s.good ==> r.gcount == Min(count, |s.data| - s.pos)
    ensures !s.good ==> r.gcount == 0
  {
    if !s.good then ReadOutcome(s, buffer, 0)
    else
      var k := Min(count, |s.data| - s.pos);
      ReadOutcome(InStream(s.data, s.pos + k, k == count), s.data[s.pos..s.pos + k] + buffer[k..], k)
  }

  /** One hash step of Fingerprint, seen from a read position: the hashes so far,
      the hash of the next (padded) block, and the fingerprint of what is left. */
  lemma FingerprintStep(crc: Hasher, data: seq<byte>, size: nat, pos: nat, hashes: seq<bv32>)
    requires size > 0 && pos < |data|
    requires hashes + Fingerprint(crc, data[pos..], size) == Fingerprint(crc, data, size)
    ensures var k := Min(size, |data| - pos);
      var hashes' := hashes + [crc(PadRight(data[pos..pos + k], size))];
      hashes' + Fingerprint(crc, data[pos + k..], size) == Fingerprint(crc, data, size) &&
      (pos + k == |data| ==> hashes' == Fingerprint(crc, data, size))
  {
    var k := Min(size, |data| - pos);
    assert data[pos..][..k] == data[pos..pos + k];
    assert data[pos..][k..] == data[pos + k..];
    assert pos + k == |data| ==> data[pos + k..] == [];
  }

  /** readFile: the fingerprint of an openable file, or the open error. */
  method ReadFile(crc: Hasher, filePath: Path, file: FileData, blockSize: nat) returns (r: Result<seq<bv32>>)
    requires blockSize > 0
    ensures file.Unopenable? ==> r == Err(CannotOpen(filePath))
    ensures file.Bytes? ==> r == Ok(Fingerprint(crc, file.data, blockSize))
    ensures file.Bytes? ==> |r.value| == CeilDiv(|file.data|, blockSize)
    ensures file.Bytes? ==> forall i :: 0 <= i < |r.value| ==>
              i * blockSize < |file.data| && r.value[i] == crc(Block(file.data, blockSize, i))
  {
    if file.Unopenable? {
      return Err(CannotOpen(filePath));
    }
    var data := file.data;
    var hashSequence: seq<bv32> := [];
    var stream := InStream(data, 0, true);
    var buffer := Zeros(blockSize);
    assert data[0..] == data;
    while true
      invariant stream.data == data && stream.pos <= |data| && |buffer| == blockSize
      invariant stream.good ==> hashSequence + Fingerprint(crc, data[stream.pos..], blockSize) == Fingerprint(crc, data, blockSize)
      invariant !stream.good ==> stream.pos == |data| && hashSequence == Fingerprint(crc, data, blockSize)
      decreases |data| - stream.pos
    {
      var before := stream;
      var rd := Read(stream, buffer, blockSize);
      stream, buffer := rd.stream, rd.buffer;
      if !(stream.good || rd.gcount > 0) {
        assert before.good ==> data[before.pos..] == [];
        assert hashSequence == Fingerprint(crc, data, blockSize);
        break;
      }
      var bytesRead := rd.gcount;
      buffer := buffer[..bytesRead];
      if bytesRead < blockSize {
        buffer := buffer + Zeros(blockSize - bytesRead);
      }
      assert before.good && before.pos < |data|;
      assert buffer == PadRight(data[before.pos..before.pos + bytesRead], blockSize);
      FingerprintStep(crc, data, blockSize, before.pos, hashSequence);
      hashSequence := hashSequence + [crc(buffer)];
    }
    r := Ok(hashSequence);
    FingerprintLength(crc, data, blockSize);
    forall i | 0 <= i < |hashSequence|
      ensures i * blockSize < |data| && hashSequence[i] == crc(Block(data, blockSize, i))
    {
      FingerprintAt(crc, data, blockSize, i);
    }
  }

  /** As written, a block size of 0 never ends the read loop: reading 0 bytes
      keeps the stream good, does not move it and gives gcount 0, so the loop
      condition `read || gcount > 0` holds again from the very same state. */
  lemma {:induction false} ZeroBlockSizeNeverEnds(s: InStream, buffer: seq<byte>)
    requires s.good && s.pos <= |s.data|
    ensures Read(s, buffer, 0).stream == s
    ensures Read(s, buffer, 0).stream.good && Read(s, buffer, 0).gcount == 0
  {
  }
}
