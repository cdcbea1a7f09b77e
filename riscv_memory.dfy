/**
 * `MemoryRegion`: a (pointer, size) view of bytes, with the byte-at-a-time
 * little-endian LoadUnaligned and StoreUnaligned.  A region is an array of
 * bytes; a value of `n` bytes is a natural number below 2^(8n).
 */
module RiscvMemory {
  import opened Bits

  newtype byte = x: int | 0 <= x < 256

  /** The value of a little-endian byte string. */
  function DecodeLE(b: seq<byte>): nat
  {
    if |b| == 0 then 0 else b[0] as nat + 256 * DecodeLE(b[1..])
  }

  /** The n low bytes of v, least significant first. */
  function EncodeLE(v: nat, n: nat): (r: seq<byte>)
    ensures |r| == n
  {
    if n == 0 then [] else [(v % 256) as byte] + EncodeLE(v / 256, n - 1)
  }

  lemma Pow2Eight(n: nat)
    ensures Pow2(8) == 256
    ensures n > 0 ==> Pow2(8 * n) == 256 * Pow2(8 * (n - 1))
  {
    if n > 0 {
      Pow2Add(8, 8 * (n - 1));
    }
  }

  lemma {:induction false} DecodeBound(b: seq<byte>)
    ensures DecodeLE(b) < Pow2(8 * |b|)
  {
    Pow2Eight(|b|);
    if |b| > 0 {
      DecodeBound(b[1..]);
    }
  }

  /** Encoding then decoding gives the value back, for any value that fits. */
  lemma {:induction false} DecodeEncode(v: nat, n: nat)
    requires v < Pow2(8 * n)
    ensures DecodeLE(EncodeLE(v, n)) == v
  {
    Pow2Eight(n);
    if n > 0 {
      var e := EncodeLE(v, n);
      assert e[1..] == EncodeLE(v / 256, n - 1);
      DecodeEncode(v / 256, n - 1);
    }
  }

  /** Decoding then encoding gives the bytes back. */
  lemma {:induction false} EncodeDecode(b: seq<byte>)
    ensures EncodeLE(DecodeLE(b), |b|) == b
  {
    if |b| > 0 {
      EncodeDecode(b[1..]);
      assert [b[0]] + b[1..] == b;
    }
  }

  /** Byte i of the encoding is `(v >> 8i) & 0xFF`. */
  lemma {:induction false} EncodeAt(v: nat, n: nat, i: nat)
    requires i < n
    ensures EncodeLE(v, n)[i] as nat == (v / Pow2(8 * i)) % 256
  {
    Pow2Eight(i);
    if i > 0 {
      EncodeAt(v / 256, n - 1, i - 1);
      DivOfDiv(v, 256, Pow2(8 * (i - 1)));
    }
  }

  /** Appending a byte adds it at weight 2^(8|s|). */
  lemma {:induction false} DecodeAppend(s: seq<byte>, x: byte)
    ensures DecodeLE(s + [x]) == DecodeLE(s) + x as nat * Pow2(8 * |s|)
  {
    if |s| > 0 {
      Pow2Eight(|s|);
      var t := s[1..];
      assert (s + [x])[1..] == t + [x];
      DecodeAppend(t, x);
      var p := Pow2(8 * |t|);
      calc {
        DecodeLE(s + [x]);
        s[0] as nat + 256 * (DecodeLE(t) + x as nat * p);
        s[0] as nat + 256 * DecodeLE(t) + x as nat * (256 * p);
      }
    }
  }

  /** The bytes d with v written little-endian over d[offset .. offset + n]. */
  function Stored(d: seq<byte>, offset: nat, v: nat, n: nat): (r: seq<byte>)
    requires offset + n <= |d|
    ensures |r| == |d|
  {
    d[..offset] + EncodeLE(v, n) + d[offset + n..]
  }

  /** A store changes exactly the n bytes at offset. */
  lemma StoredAt(d: seq<byte>, offset: nat, v: nat, n: nat, j: nat)
    requires offset + n <= |d| && j < |d|
    ensures Stored(d, offset, v, n)[j] == if offset <= j < offset + n then EncodeLE(v, n)[j - offset] else d[j]
  {
  }

  /** Reading the n bytes just stored gives the value back. */
  lemma LoadAfterStore(d: seq<byte>, offset: nat, v: nat, n: nat)
    requires offset + n <= |d| && v < Pow2(8 * n)
    ensures DecodeLE(Stored(d, offset, v, n)[offset..offset + n]) == v
  {
    assert Stored(d, offset, v, n)[offset..offset + n] == EncodeLE(v, n);
    DecodeEncode(v, n);
  }

  /** Storing what is already there changes nothing. */
  lemma StoreLoaded(d: seq<byte>, offset: nat, n: nat)
    requires offset + n <= |d|
    ensures Stored(d, offset, DecodeLE(d[offset..offset + n]), n) == d
  {
    EncodeDecode(d[offset..offset + n]);
    assert d[..offset] + d[offset..offset + n] + d[offset + n..] == d;
  }

  class MemoryRegion {
    const data: array<byte>

    constructor(data: array<byte>)
      ensures this.data == data
    {
      this.data := data;
    }

    function Size(): nat
    {
      data.Length
    }

    /**
     * LoadUnaligned<T>: the sum of byte i shifted left by 8i, each byte read
     * through ComputeInternalPointer<uint8_t> (CHECK: offset + i < size).
     * Each byte is promoted to `int` before the shift, so only types of at
     * most four bytes are covered.
     */
    method LoadUnaligned(offset: nat, n: nat) returns (v: nat)
      requires n == 1 || n == 2 || n == 4
      requires offset + n <= data.Length
      ensures v == DecodeLE(data[offset..offset + n])
      ensures v < Pow2(8 * n)
    {
      v := 0;
      for i := 0 to n
        invariant v == DecodeLE(data[offset..offset + i])
      {
        var b := data[offset + i];
        ghost var before := data[offset..offset + i];
        assert data[offset..offset + i + 1] == before + [b];
        DecodeAppend(before, b);
        DecodeBound(before + [b]);
        Pow2Mono(8 * (i + 1), 8 * n);
        var sum := v + b as nat * Pow2(8 * i);
        assert sum == DecodeLE(before + [b]);
        ModSmall(sum, Pow2(8 * n));
        v := sum % Pow2(8 * n);
      }
      DecodeBound(data[offset..offset + n]);
    }

    /**
     * StoreUnaligned<T>: byte i of the region becomes `(value >> 8i) & 0xFF`
     * (CHECK: offset + i < size for every byte written).
     */
    method StoreUnaligned(offset: nat, value: nat, n: nat)
      requires n == 1 || n == 2 || n == 4 || n == 8
      requires value < Pow2(8 * n)
      requires offset + n <= data.Length
      modifies data
      ensures data[..] == Stored(old(data[..]), offset, value, n)
    {
      ghost var d := data[..];
      for i := 0 to n
        invariant forall j :: 0 <= j < data.Length ==>
          data[j] == if offset <= j < offset + i then EncodeLE(value, n)[j - offset] else d[j]
      {
        AndMask(Shr(value, 8 * i), 8);
        Pow2Eight(0);
        EncodeAt(value, n, i);
        data[offset + i] := And(Shr(value, 8 * i), Mask(8)) as byte;
      }
      forall j | 0 <= j < data.Length
        ensures data[..][j] == Stored(d, offset, value, n)[j]
      {
        StoredAt(d, offset, value, n, j);
      }
    }
  }

  /** A store followed by a load at the same offset returns the stored value. */
  method StoreThenLoad(region: MemoryRegion, offset: nat, value: nat, n: nat) returns (v: nat)
    requires n == 1 || n == 2 || n == 4
    requires value < Pow2(8 * n) && offset + n <= region.data.Length
    modifies region.data
    ensures v == value
  {
    region.StoreUnaligned(offset, value, n);
    LoadAfterStore(old(region.data[..]), offset, value, n);
    v := region.LoadUnaligned(offset, n);
  }
}
