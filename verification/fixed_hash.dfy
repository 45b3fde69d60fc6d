/** FixedHash<N>: a fixed-size array of N bytes standing for a hash or an address. Byte 0 is the
    most significant byte of the N*8-bit unsigned integer the bytes denote. The size N is the
    length of the array; operations that take a second hash of the same type require equal
    lengths, which the C++ template enforces at compile time. */
module FixedHashes {
  import opened BigEndian
  import opened HashBytes

  /** The copy loops of the resizing and byte-vector constructors: into a zero-filled buffer of
      N bytes, copy min(M, N) bytes of the M-byte source, mirrored from the right end when the
      policy is AlignRight and from the left end otherwise. */
  method CopyAligned(dst: array<bv8>, src: seq<bv8>, t: Align)
    requires forall k :: 0 <= k < dst.Length ==> dst[k] == 0
    modifies dst
    ensures dst[..] == Resized(src, dst.Length, t)
  {
    var c := Min(|src|, dst.Length);
    AlignedCopyStart(dst[..], src, t);
    for i := 0 to c
      invariant AlignedCopyProgress(dst[..], src, i, t)
    {
      AlignedCopyStep(dst[..], src, i, t);
      if t == AlignRight {
        dst[dst.Length - 1 - i] := src[|src| - 1 - i];
      } else {
        dst[i] := src[i];
      }
    }
    AlignedCopyDone(dst[..], src, t);
  }

  /** memcpy(dst, src + offset, dst.Length): dst receives the dst.Length source bytes that start
      at offset. */
  method MemCopy(dst: array<bv8>, src: array<bv8>, offset: nat)
    requires offset + dst.Length <= src.Length && dst != src
    modifies dst
    ensures dst[..] == src[offset..offset + dst.Length]
  {
    for i := 0 to dst.Length
      invariant forall j :: 0 <= j < i ==> dst[j] == src[offset + j]
    {
      dst[i] := src[offset + i];
    }
  }

  class FixedHash {
    /** m_data: the N bytes. */
    const data: array<bv8>

    /** The bytes, as a value. */
    function Bytes(): (s: seq<bv8>)
      reads data
      ensures |s| == data.Length
    {
      data[..]
    }

    /** operator Arith(): the bytes read big-endian, an integer of N*8 bits. */
    function Value(): (v: nat)
      reads data
      ensures v < Pow256(data.Length)
    {
      BigEndianValue(data[..])
    }

    /** FixedHash(): the empty hash, all N bytes zero. */
    constructor Zero(n: nat)
      ensures fresh(data) && data.Length == n
      ensures Bytes() == Zeros(n) && Value() == 0
    {
      data := new bv8[n](_ => 0);
      new;
      ValueOfZeros(n, []);
      assert Zeros(n) + [] == Zeros(n);
    }

    /** The implicit copy constructor, used by the binary operators. */
    constructor Copy(h: FixedHash)
      ensures fresh(data) && Bytes() == h.Bytes()
    {
      var s := h.data[..];
      data := new bv8[|s|](i requires 0 <= i < |s| => s[i]);
    }

    /** FixedHash(unsigned): the unsigned value written big-endian into the N bytes. */
    constructor FromUnsigned(n: nat, u: nat)
      requires u < 0x1_0000_0000
      ensures fresh(data) && data.Length == n
      ensures Bytes() == BigEndianBytes(u, n)
      ensures Value() == u % Pow256(n)
    {
      var buf := new bv8[n];
      ToBigEndian(u, buf);
      data := buf;
    }

    /** FixedHash(FixedHash<M>, t): zero-filled, then min(M, N) bytes of h copied with the
        alignment t (any policy but AlignRight copies from the left). */
    constructor Resize(n: nat, h: FixedHash, t: Align := AlignLeft)
      ensures fresh(data) && data.Length == n
      ensures Bytes() == Resized(h.Bytes(), n, t)
    {
      var buf := new bv8[n](_ => 0);
      CopyAligned(buf, h.data[..], t);
      data := buf;
    }

    /** FixedHash(bytes, t) and FixedHash(bytesConstRef, t): an exact copy when the vector has N
        bytes; otherwise zero-filled, and for AlignLeft or AlignRight the aligned copy. */
    constructor FromVector(n: nat, b: seq<bv8>, t: Align := FailIfDifferent)
      ensures fresh(data) && data.Length == n
      ensures Bytes() == FromByteVector(b, n, t)
    {
      if |b| == n {
        data := new bv8[|b|](i requires 0 <= i < |b| => b[i]);
      } else {
        var buf := new bv8[n](_ => 0);
        if t != FailIfDifferent {
          CopyAligned(buf, b, t);
        }
        data := buf;
      }
    }

    /** operator bool: some byte is non-zero, i.e. the hash is not the empty hash. */
    predicate NonZero()
      reads data
      ensures NonZero() <==> Value() != 0
    {
      ValueZeroIff(data[..]);
      exists i :: 0 <= i < data.Length && data[i] != 0
    }

    /** operator==: byte-wise equality, the same as equality of the integers. */
    predicate Equals(c: FixedHash)
      requires c.data.Length == data.Length
      reads data, c.data
      ensures Equals(c) <==> Value() == c.Value()
    {
      ValueInjective(data[..], c.data[..]);
      data[..] == c.data[..]
    }

    /** operator!=. */
    predicate NotEquals(c: FixedHash)
      requires c.data.Length == data.Length
      reads data, c.data
      ensures NotEquals(c) <==> Value() != c.Value()
    {
      ValueInjective(data[..], c.data[..]);
      data[..] != c.data[..]
    }

    /** operator<: the first differing byte decides; equal hashes are not less. */
    method Less(c: FixedHash) returns (r: bool)
      requires c.data.Length == data.Length
      ensures r == LexLess(Bytes(), c.Bytes())
      ensures r <==> Value() < c.Value()
    {
      LexLessIffValueLess(data[..], c.data[..]);
      var i := 0;
      while i < data.Length
        invariant 0 <= i <= data.Length
        invariant LexLess(data[..], c.data[..]) == LexLess(data[i..], c.data[i..])
      {
        if data[i] < c.data[i] {
          return true;
        } else if data[i] > c.data[i] {
          return false;
        }
        assert data[i..][1..] == data[i + 1..] && c.data[i..][1..] == c.data[i + 1..];
        i := i + 1;
      }
      return false;
    }

    /** operator>=: not less. */
    method GreaterOrEqual(c: FixedHash) returns (r: bool)
      requires c.data.Length == data.Length
      ensures r <==> !LexLess(Bytes(), c.Bytes())
      ensures r <==> Value() >= c.Value()
    {
      var lt := Less(c);
      r := !lt;
    }

    /** operator<=: equal or less. */
    method LessOrEqual(c: FixedHash) returns (r: bool)
      requires c.data.Length == data.Length
      ensures r <==> Bytes() == c.Bytes() || LexLess(Bytes(), c.Bytes())
      ensures r <==> Value() <= c.Value()
    {
      if Equals(c) {
        r := true;
      } else {
        r := Less(c);
      }
    }

    /** operator>: not less-or-equal, which is c < this. */
    method Greater(c: FixedHash) returns (r: bool)
      requires c.data.Length == data.Length
      ensures r <==> LexLess(c.Bytes(), Bytes())
      ensures r <==> Value() > c.Value()
    {
      var le := LessOrEqual(c);
      r := !le;
      Trichotomy(data[..], c.data[..]);
    }

    /** operator^=. The source may be this very hash. */
    method XorWith(c: FixedHash)
      requires c.data.Length == data.Length
      modifies data
      ensures Bytes() == XorBytes(old(Bytes()), old(c.Bytes()))
    {
      for i := 0 to data.Length
        invariant forall k :: 0 <= k < i ==> data[k] == old(data[k]) ^ old(c.data[k])
        invariant forall k :: i <= k < data.Length ==> data[k] == old(data[k]) && c.data[k] == old(c.data[k])
      {
        data[i] := data[i] ^ c.data[i];
      }
    }

    /** operator|=. */
    method OrWith(c: FixedHash)
      requires c.data.Length == data.Length
      modifies data
      ensures Bytes() == OrBytes(old(Bytes()), old(c.Bytes()))
    {
      for i := 0 to data.Length
        invariant forall k :: 0 <= k < i ==> data[k] == old(data[k]) | old(c.data[k])
        invariant forall k :: i <= k < data.Length ==> data[k] == old(data[k]) && c.data[k] == old(c.data[k])
      {
        data[i] := data[i] | c.data[i];
      }
    }

    /** operator&=. */
    method AndWith(c: FixedHash)
      requires c.data.Length == data.Length
      modifies data
      ensures Bytes() == AndBytes(old(Bytes()), old(c.Bytes()))
    {
      for i := 0 to data.Length
        invariant forall k :: 0 <= k < i ==> data[k] == old(data[k]) & old(c.data[k])
        invariant forall k :: i <= k < data.Length ==> data[k] == old(data[k]) && c.data[k] == old(c.data[k])
      {
        data[i] := data[i] & c.data[i];
      }
    }

    /** operator^: a copy of this, then ^= c. */
    method Xor(c: FixedHash) returns (r: FixedHash)
      requires c.data.Length == data.Length
      ensures fresh(r) && fresh(r.data)
      ensures r.Bytes() == XorBytes(Bytes(), c.Bytes())
    {
      r := new FixedHash.Copy(this);
      r.XorWith(c);
    }

    /** operator|. */
    method Or(c: FixedHash) returns (r: FixedHash)
      requires c.data.Length == data.Length
      ensures fresh(r) && fresh(r.data)
      ensures r.Bytes() == OrBytes(Bytes(), c.Bytes())
    {
      r := new FixedHash.Copy(this);
      r.OrWith(c);
    }

    /** operator&. */
    method And(c: FixedHash) returns (r: FixedHash)
      requires c.data.Length == data.Length
      ensures fresh(r) && fresh(r.data)
      ensures r.Bytes() == AndBytes(Bytes(), c.Bytes())
    {
      r := new FixedHash.Copy(this);
      r.AndWith(c);
    }

    /** operator~: every byte complemented; as an integer, 256^N - 1 minus this. */
    method Complement() returns (r: FixedHash)
      ensures fresh(r) && fresh(r.data)
      ensures r.Bytes() == NotBytes(Bytes())
      ensures r.Value() == Pow256(data.Length) - 1 - Value()
    {
      r := new FixedHash.Zero(data.Length);
      for i := 0 to data.Length
        invariant forall k :: 0 <= k < i ==> r.data[k] == !data[k]
      {
        r.data[i] := !data[i];
      }
      assert r.Bytes() == NotBytes(Bytes());
      ComplementValue(data[..]);
    }

    /** operator++: big-endian increment. The last byte goes up by one; while a byte wraps to
        zero, the carry moves to the byte before it. */
    method Increment()
      modifies data
      ensures Bytes() == Incremented(old(Bytes()))
      ensures Value() == (old(Value()) + 1) % Pow256(data.Length)
    {
      ghost var orig := data[..];
      var i := data.Length;
      var carry := true;
      IncrementStart(orig);
      while i > 0 && carry
        invariant 0 <= i <= data.Length
        invariant IncrementProgress(orig, data[..], i, carry)
      {
        i := i - 1;
        IncrementLoopStep(orig, data[..], i);
        data[i] := data[i] + 1;
        carry := data[i] == 0;
      }
      IncrementedValue(orig);
    }

    /** contains: `(*this & c) == c`, i.e. every 1-bit of c is set in this. */
    method Contains(c: FixedHash) returns (r: bool)
      requires c.data.Length == data.Length
      ensures r <==> AndBytes(Bytes(), c.Bytes()) == c.Bytes()
      ensures r <==> Covers(Bytes(), c.Bytes())
    {
      var t := And(c);
      r := t.Equals(c);
      ValueInjective(t.data[..], c.data[..]);
      ContainsIffCovers(data[..], c.data[..]);
    }

    /** The const operator[]: byte i, which is digit N-1-i of the integer in base 256. */
    function At(i: nat): (b: bv8)
      requires i < data.Length
      reads data
      ensures b as nat == (Value() / Pow256(data.Length - 1 - i)) % 256
    {
      ByteIsDigit(data[..], i);
      data[i]
    }

    /** A write through the reference the non-const operator[] returns. */
    method SetAt(i: nat, b: bv8)
      requires i < data.Length
      modifies data
      ensures Bytes() == old(Bytes())[i := b]
    {
      data[i] := b;
    }

    /** clear: fill with zeros. */
    method Clear()
      modifies data
      ensures Bytes() == Zeros(data.Length)
      ensures Value() == 0 && !NonZero()
    {
      forall i | 0 <= i < data.Length {
        data[i] := 0;
      }
      ValueOfZeros(data.Length, []);
      assert Zeros(data.Length) + [] == Zeros(data.Length);
    }

    /** One iteration of bloomPart's outer loop: fold the c_bloomBytes bytes at the cursor into
        an index, big-endian, mask it to M*8 - 1 and set bit `index % 8` of byte
        `M - 1 - index / 8` of ret. */
    method BloomPartStep(ret: FixedHash, cursor: nat, m: nat) returns (index: nat)
      requires m >= 1
      requires cursor + BloomBytes(m) <= data.Length
      requires ret.data.Length == m && ret.data != data
      modifies ret.data
      ensures index == BigEndianValue(Bytes()[cursor..cursor + BloomBytes(m)]) % (8 * m)
      ensures ret.Bytes() == SetBloomBit(old(ret.Bytes()), index)
    {
      var bloomBits := m * 8;
      var bloomBytes := BloomBytes(m);
      index := 0;
      for j := 0 to bloomBytes
        invariant index == BigEndianValue(data[cursor..cursor + j])
      {
        assert data[cursor..cursor + j + 1][..j] == data[cursor..cursor + j];
        index := index * 256 + data[cursor + j] as nat;
      }
      assert data[cursor..cursor + bloomBytes] == Bytes()[cursor..cursor + BloomBytes(m)];
      index := index % bloomBits;
      var k := m - 1 - index / 8;
      ret.data[k] := ret.data[k] | BloomBit(index);
    }

    /** bloomPart<P, M>: P iterations of BloomPartStep from an M-byte zero hash, the cursor
        advancing by c_bloomBytes each time. */
    method BloomPart(p: nat, m: nat) returns (ret: FixedHash)
      requires BloomParams(data.Length, p, m)
      ensures fresh(ret) && fresh(ret.data)
      ensures ret.Bytes() == BloomProjection(Bytes(), p, m)
    {
      ret := new FixedHash.Zero(m);
      var cursor: nat := 0;
      BloomPartStart(data[..], p, m);
      for i := 0 to p
        invariant fresh(ret) && fresh(ret.data) && ret.data.Length == m
        invariant BloomPartProgress(data[..], i, m, cursor, ret.data[..])
      {
        BloomPartRoom(data[..], i, p, m, cursor, ret.data[..]);
        ghost var before := ret.data[..];
        var index := BloomPartStep(ret, cursor, m);
        BloomPartAdvance(data[..], i, p, m, cursor, before, index, ret.data[..]);
        cursor := cursor + BloomBytes(m);
      }
    }

    /** shiftBloom<P, M>: or the bloom projection of h into this hash. No bit is cleared, and
        afterwards every bit of h's projection is set. */
    method ShiftBloom(p: nat, h: FixedHash)
      requires BloomParams(h.data.Length, p, data.Length)
      modifies data
      ensures Bytes() == OrBytes(old(Bytes()), BloomProjection(old(h.Bytes()), p, data.Length))
      ensures Covers(Bytes(), old(Bytes()))
      ensures Covers(Bytes(), BloomProjection(old(h.Bytes()), p, data.Length))
    {
      var part := h.BloomPart(p, data.Length);
      OrWith(part);
      OrCovers(old(data[..]), part.data[..]);
    }

    /** containsBloom<P, M>: every bit of h's bloom projection is set in this hash. */
    method ContainsBloom(p: nat, h: FixedHash) returns (r: bool)
      requires BloomParams(h.data.Length, p, data.Length)
      ensures r <==> Covers(Bytes(), BloomProjection(h.Bytes(), p, data.Length))
    {
      var part := h.BloomPart(p, data.Length);
      r := Contains(part);
    }

    /** firstBitSet: the index of the first 1-bit, counting from the most significant bit of
        byte 0, or N*8 when no bit is set. */
    method FirstBitSet() returns (r: nat)
      ensures IsFirstBit(Bytes(), r)
    {
      ghost var s := data[..];
      r := 0;
      var k := 0;
      while k < data.Length
        invariant 0 <= k <= data.Length && r == 8 * k && ZeroPrefix(s, k)
      {
        var d := data[k];
        if d != 0 {
          var t := LeadingZeroBits(d);
          FirstBitInByte(s, k, t);
          return r + t;
        }
        ZeroByteNoBits(s, k);
        r := r + 8;
        k := k + 1;
      }
      AllZeroFirstBit(s);
    }

    /** firstBitSet returns N*8 exactly when operator bool is false. */
    lemma FirstBitSetEmptyIff(r: nat)
      requires IsFirstBit(Bytes(), r)
      ensures r == 8 * data.Length <==> !NonZero()
    {
      FirstBitNoneIffZero(data[..], r);
    }
  }

  /** The inner loop of firstBitSet: shift a non-zero byte left until its top bit is set; the
      number of shifts is the number of leading zero bits. */
  method LeadingZeroBits(d0: bv8) returns (t: nat)
    requires d0 != 0
    ensures t < 8 && d0 & MsbMask(t) != 0 && HighBitsClear(d0, t)
  {
    var d := d0;
    t := 0;
    while true
      invariant t < 8 && d == ShiftLeft(d0, t) && d != 0 && HighBitsClear(d0, t)
      decreases 8 - t
    {
      if d & 0x80 != 0 {
        LeadingZeroFound(d0, t);
        return;
      }
      LeadingZeroStep(d0, t);
      t, d := t + 1, d << 1;
    }
  }

  /** right160: the low-order 20 bytes (bytes 12..31) of a 32-byte hash, i.e. its value modulo
      2^160, which is the AlignRight resize to 20 bytes. */
  method Right160(t: FixedHash) returns (ret: FixedHash)
    requires t.data.Length == 32
    ensures fresh(ret) && fresh(ret.data)
    ensures ret.Bytes() == t.Bytes()[12..]
    ensures ret.Bytes() == Resized(t.Bytes(), 20, AlignRight)
    ensures ret.Value() == t.Value() % Pow256(20)
  {
    ret := new FixedHash.Zero(20);
    MemCopy(ret.data, t.data, 12);
    ghost var src := t.data[..];
    assert src[12..12 + 20] == src[12..];
    LowBytes(src, 20);
  }

  /** A bloom filter that has been shifted with a hash reports that hash as contained. */
  method ShiftThenContains(filter: FixedHash, p: nat, h: FixedHash) returns (r: bool)
    requires BloomParams(h.data.Length, p, filter.data.Length)
    requires h.data != filter.data
    modifies filter.data
    ensures r
  {
    filter.ShiftBloom(p, h);
    r := filter.ContainsBloom(p, h);
  }
}
