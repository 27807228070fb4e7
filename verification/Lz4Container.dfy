/**
 `lr_compress_if_beneficial` and `lr_decompress_if_needed`: raw copies, or an LZ4 block behind
 a 4-byte little-endian size.
 */
module Lz4Container {
  import opened Arithmetic
  import opened Wrappers
  import opened Bytes
  import opened Lz4Format
  import opened Lz4Finder
  import opened Lz4Codec

  const HEADER := 4
  const SMALL := 64

  function SizeBytes(n: nat): (s: seq<byte>)
    ensures |s| == HEADER
  {
    var w := n % 0x1_0000_0000;
    [(w % 0x100) as byte, (w / 0x100 % 0x100) as byte, (w / 0x1_0000 % 0x100) as byte, (w / 0x100_0000) as byte]
  }

  function LittleEndian(b0: byte, b1: byte, b2: byte, b3: byte): nat {
    b0 as int + 0x100 * b1 as int + 0x1_0000 * b2 as int + 0x100_0000 * b3 as int
  }

  function StoredSize(packed: seq<byte>): nat
    requires HEADER <= |packed|
  {
    LittleEndian(packed[0], packed[1], packed[2], packed[3])
  }

  lemma SizeReadBack(n: nat, rest: seq<byte>)
    requires n < 0x1_0000_0000
    ensures StoredSize(SizeBytes(n) + rest) == n
  {
    hide SizeBytes, LittleEndian;
    Digits(n);
  }

  lemma Digits(n: nat)
    requires n < 0x1_0000_0000
    ensures var s := SizeBytes(n); LittleEndian(s[0], s[1], s[2], s[3]) == n
  {
    DivisionIs(n, 0x1_0000_0000, 0, n);
    Divided(n, 0x100);
    Divided(n / 0x100, 0x100);
    DivDiv(n, 0x100, 0x100);
    Divided(n / 0x1_0000, 0x100);
    DivDiv(n, 0x1_0000, 0x100);
  }

  /**
   The contents of a compressed buffer, decoded over `scratch`; `None` where the C code gives NULL.
   The decoder reports a rejected block as size 0, which passes for a stored size of 0.
   */
  function Unpack(packed: seq<byte>, scratch: seq<byte>): Option<seq<byte>>
    requires HEADER <= |packed| && |scratch| == StoredSize(packed)
  {
    match Decode(packed[HEADER..], 0, [], scratch)
    case Done(out) => if |out| == |scratch| then Some(out) else None
    case Rejected => if |scratch| == 0 then Some([]) else None
    case OutOfInput => None
  }

  method CopyOf(data: array<byte>) returns (copy: array<byte>)
    ensures fresh(copy) && copy[..] == data[..]
  {
    copy := new byte[data.Length];
    for i := 0 to data.Length
      invariant copy[..i] == data[..i]
    {
      copy[i] := data[i];
    }
    assert copy[..] == copy[..data.Length] && data[..] == data[..data.Length];
  }

  lemma RatioKept(size: nat, n: nat, minRatio: real)
    requires n > 0
    ensures size as real / n as real <= minRatio <==> size as real <= minRatio * n as real
  {
    var ratio, m := size as real / n as real, n as real;
    assert size as real == ratio * m;
    if ratio <= minRatio {
      NotNegative(minRatio - ratio, m);
    } else {
      Positive(ratio - minRatio, m);
    }
  }

  lemma NotNegative(x: real, m: real)
    requires m > 0.0 && x >= 0.0
    ensures x * m >= 0.0
  {
  }

  lemma Positive(x: real, m: real)
    requires m > 0.0 && x > 0.0
    ensures x * m > 0.0
  {
  }

  /** A size header in front of a written block unpacks to what the block stands for. */
  lemma HeaderAndBlock(packed: seq<byte>, n: nat, block: Block)
    requires n < 0x1_0000_0000 && Valid(block) && AllEncodable(block.sequences) && |Expand(block)| == n
    requires packed == SizeBytes(n) + Emit(block)
    ensures StoredSize(packed) == n
    ensures forall scratch: seq<byte> :: |scratch| == n ==> Unpack(packed, scratch) == Some(Expand(block))
  {
    hide Emit, Expand, Decode, SizeBytes, StoredSize;
    SizeReadBack(n, Emit(block));
    assert packed[HEADER..] == Emit(block);
    forall scratch: seq<byte> | |scratch| == n
      ensures Unpack(packed, scratch) == Some(Expand(block))
    {
      EmitThenDecode(block, scratch);
    }
  }

  /** The lowest byte of the size comes first. */
  lemma SizeIsLittleEndian(n: nat)
    requires n < 0x1_0000_0000
    ensures var s := SizeBytes(n);
            n == s[0] as int + 256 * s[1] as int + 65536 * s[2] as int + 16777216 * s[3] as int
  {
    hide SizeBytes;
    Digits(n);
  }

  /** `memcpy` of the 4-byte size in front of the block. */
  method PutHeader(out: array<byte>, n: nat)
    requires HEADER <= out.Length
    modifies out
    ensures out[..] == SizeBytes(n) + old(out[HEADER..])
  {
    var header := SizeBytes(n);
    out[0], out[1], out[2], out[3] := header[0], header[1], header[2], header[3];
  }

  /** The result as the caller sees it: the first `outLen` bytes, and whether they are compressed. */
  method CompressIfBeneficial(data: array<byte>, minRatio: real)
    returns (out: array<byte>, outLen: nat, wasCompressed: bool)
    requires data.Length < 0x8000_0000
    ensures fresh(out) && outLen <= out.Length
    ensures wasCompressed <==>
              data.Length >= 64 && |Emit(Found(data[..]))| as real <= minRatio * data.Length as real
    ensures !wasCompressed ==> out[..outLen] == data[..]
    ensures wasCompressed ==>
      && HEADER < outLen && out[..outLen] == SizeBytes(data.Length) + Emit(Found(data[..]))
      && StoredSize(out[..outLen]) == data.Length
      && forall scratch: seq<byte> :: |scratch| == data.Length ==> Unpack(out[..outLen], scratch) == Some(data[..])
  {
    hide Unpack, StoredSize, SizeBytes, Valid, Expand, Emit, AllEncodable, Found;
    if data.Length < SMALL {
      out := CopyOf(data);
      return out, data.Length, false;
    }
    out := new byte[CompressBound(data.Length) + HEADER];
    var size, block := Compress(data, out, HEADER);
    RatioKept(size, data.Length, minRatio);
    assert |Emit(block)| == size;
    if size == 0 || size as real / data.Length as real > minRatio {
      out := CopyOf(data);
      return out, data.Length, false;
    }
    PutHeader(out, data.Length);
    outLen := size + HEADER;
    wasCompressed := true;
    assert out[..outLen] == SizeBytes(data.Length) + Emit(block);
    HeaderAndBlock(out[..outLen], data.Length, block);
  }

  method DecompressIfNeeded(data: seq<byte>, wasCompressed: bool) returns (r: Option<seq<byte>>)
    ensures !wasCompressed ==> r == Some(data)
    ensures wasCompressed && |data| < HEADER ==> r == None
    ensures wasCompressed && |data| >= HEADER ==>
      exists scratch: seq<byte> :: |scratch| == StoredSize(data) && r == Unpack(data, scratch)
  {
    hide Decode, StoredSize;
    if !wasCompressed {
      return Some(data);
    }
    if |data| < HEADER {
      return None;
    }
    var size := StoredSize(data);
    var buffer := new byte[size];
    ghost var scratch := buffer[..];
    var result := Decompress(data[HEADER..], buffer);
    if result != Size(size) {
      r := None;
    } else {
      r := Some(buffer[..]);
    }
    ghost var decoded := Decode(data[HEADER..], 0, [], scratch);
    assert decoded.Done? && |decoded.out| == size ==> buffer[..] == decoded.out + scratch[size..] == decoded.out;
    assert size == 0 ==> buffer[..] == [];
    assert r == Unpack(data, scratch);
  }

  /** Whichever branch was taken, unpacking gives the original bytes. */
  method ContainerRoundTrip(data: array<byte>, minRatio: real) returns (back: Option<seq<byte>>)
    requires data.Length < 0x8000_0000
    ensures back == Some(data[..])
  {
    var out, outLen, wasCompressed := CompressIfBeneficial(data, minRatio);
    back := DecompressIfNeeded(out[..outLen], wasCompressed);
  }
}
