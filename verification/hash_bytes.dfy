/** What the operations of FixedHash<N> do to its N bytes, stated as functions on byte sequences,
    and the properties the hash type relies on. Byte 0 is the most significant byte. */
module HashBytes {
  import opened BigEndian
  import opened Log2

  // ---------------------------------------------------------------------------------------------
  // Single bytes

  /** The byte whose only set bit is bit t counted from the most significant end (t = 0 is 0x80). */
  function MsbMask(t: nat): bv8
    requires t < 8
  {
    0x80 >> t
  }

  lemma MsbMaskValues()
    ensures MsbMask(0) == 0x80 && MsbMask(1) == 0x40 && MsbMask(2) == 0x20 && MsbMask(3) == 0x10
    ensures MsbMask(4) == 0x08 && MsbMask(5) == 0x04 && MsbMask(6) == 0x02 && MsbMask(7) == 0x01
  {
  }

  lemma ByteAndAllBits(x: bv8, y: bv8)
    requires y & 0x80 != 0 ==> x & 0x80 != 0
    requires y & 0x40 != 0 ==> x & 0x40 != 0
    requires y & 0x20 != 0 ==> x & 0x20 != 0
    requires y & 0x10 != 0 ==> x & 0x10 != 0
    requires y & 0x08 != 0 ==> x & 0x08 != 0
    requires y & 0x04 != 0 ==> x & 0x04 != 0
    requires y & 0x02 != 0 ==> x & 0x02 != 0
    requires y & 0x01 != 0 ==> x & 0x01 != 0
    ensures x & y == y
  {
  }

  lemma ByteAndOneBit(x: bv8, y: bv8, t: nat)
    requires x & y == y && t < 8
    ensures y & MsbMask(t) != 0 ==> x & MsbMask(t) != 0
  {
  }

  /** Every 1-bit of byte y is set in byte x. */
  predicate ByteCovers(x: bv8, y: bv8)
  {
    forall t: nat :: t < 8 && y & MsbMask(t) != 0 ==> x & MsbMask(t) != 0
  }

  /** x & y == y exactly when every 1-bit of y is also set in x. */
  lemma ByteContains(x: bv8, y: bv8)
    ensures x & y == y <==> ByteCovers(x, y)
  {
    if ByteCovers(x, y) {
      MsbMaskValues();
      ByteAndAllBits(x, y);
    }
    if x & y == y {
      forall t: nat | t < 8 ensures y & MsbMask(t) != 0 ==> x & MsbMask(t) != 0 {
        ByteAndOneBit(x, y, t);
      }
    }
  }

  /** Setting bit k (bit 0 least significant) of a byte changes no other bit. */
  lemma ByteSetBit(b: bv8, k: nat, t: nat)
    requires k < 8 && t < 8
    ensures (b | ((1 as bv8) << k)) & MsbMask(7 - t) != 0 <==> b & MsbMask(7 - t) != 0 || t == k
  {
  }

  lemma ByteOrKeeps(x: bv8, y: bv8, t: nat)
    requires t < 8
    ensures x & MsbMask(t) != 0 ==> (x | y) & MsbMask(t) != 0
    ensures y & MsbMask(t) != 0 ==> (x | y) & MsbMask(t) != 0
  {
  }

  lemma ByteComplementValue(b: bv8)
    ensures (!b) as nat == 255 - b as nat
  {
  }

  /** A byte shifted left by t has its top bit set iff the byte has bit t (from the top) set. */
  lemma ShiftedTopBit(b: bv8, t: nat)
    requires t < 8
    ensures (b << t) & 0x80 != 0 <==> b & MsbMask(t) != 0
  {
  }

  lemma ShiftAgain(b: bv8, t: nat)
    requires t < 7
    ensures (b << t) << 1 == b << (t + 1)
  {
  }

  /** Once bits 0..t-1 from the top are clear, a non-zero byte shifted by t is non-zero; and if its
      top bit is clear too, one more shift keeps it non-zero and t + 1 < 8. */
  lemma ShiftedNonZero(b: bv8, t: nat)
    requires t < 8 && b << t != 0 && (b << t) & 0x80 == 0
    ensures t < 7 && (b << t) << 1 != 0
  {
  }

  /** The t highest bits of b are clear. */
  predicate HighBitsClear(b: bv8, t: nat)
    requires t <= 8
  {
    forall u :: 0 <= u < t ==> b & MsbMask(u) == 0
  }

  /** b shifted left by one bit, t times, as the scan `d <<= 1` does. */
  function ShiftLeft(b: bv8, t: nat): bv8
  {
    if t == 0 then b else ShiftLeft(b, t - 1) << 1
  }

  lemma {:induction false} ShiftLeftIs(b: bv8, t: nat)
    requires t < 8
    ensures ShiftLeft(b, t) == b << t
  {
    if t > 0 {
      ShiftLeftIs(b, t - 1);
      ShiftAgain(b, t - 1);
    }
  }

  /** The scan stops at t: its top bit is bit t of b. */
  lemma LeadingZeroFound(b: bv8, t: nat)
    requires t < 8 && ShiftLeft(b, t) & 0x80 != 0
    ensures b & MsbMask(t) != 0
  {
    ShiftLeftIs(b, t);
    ShiftedTopBit(b, t);
  }

  /** One step of the leading-zero scan: with b shifted by t non-zero and its top bit clear, bit t
      of b is clear, and b shifted by t + 1 is still non-zero. */
  lemma LeadingZeroStep(b: bv8, t: nat)
    requires t < 8 && ShiftLeft(b, t) != 0 && ShiftLeft(b, t) & 0x80 == 0 && HighBitsClear(b, t)
    ensures t < 7 && ShiftLeft(b, t + 1) != 0 && HighBitsClear(b, t + 1)
  {
    ShiftLeftIs(b, t);
    ShiftedTopBit(b, t);
    ShiftedNonZero(b, t);
  }

  // ---------------------------------------------------------------------------------------------
  // Bit positions

  /** Bit `pos` of a byte sequence, counted from the most significant bit of byte 0
      (the numbering of firstBitSet). */
  predicate BitAt(s: seq<bv8>, pos: nat)
    requires pos < 8 * |s|
  {
    s[pos / 8] & MsbMask(pos % 8) != 0
  }

  /** Bit `idx` of the integer the sequence denotes, bit 0 least significant
      (the numbering of the bloom projection). */
  predicate ValueBit(s: seq<bv8>, idx: nat)
    requires idx < 8 * |s|
  {
    BitAt(s, 8 * |s| - 1 - idx)
  }

  /** Positions of a sequence's 1-bits, in the integer numbering. */
  function SetBits(s: seq<bv8>): set<nat>
  {
    set idx: nat | idx < 8 * |s| && ValueBit(s, idx)
  }

  /** Every 1-bit of c is set in a. */
  predicate Covers(a: seq<bv8>, c: seq<bv8>)
    requires |a| == |c|
  {
    forall pos: nat :: pos < 8 * |c| && BitAt(c, pos) ==> BitAt(a, pos)
  }

  lemma PositionSplit(i: nat, t: nat)
    requires t < 8
    ensures (8 * i + t) / 8 == i && (8 * i + t) % 8 == t
  {
    DivModUnique(8 * i + t, 8, i, t);
  }

  /** Integer bit idx lives in byte n-1-idx/8, at bit idx%8 from the bottom. */
  lemma ValueBitByte(s: seq<bv8>, idx: nat)
    requires idx < 8 * |s|
    ensures ValueBit(s, idx) <==> s[|s| - 1 - idx / 8] & MsbMask(7 - idx % 8) != 0
  {
    var n := |s|;
    assert 8 * n - 1 - idx == 8 * (n - 1 - idx / 8) + (7 - idx % 8);
    PositionSplit(n - 1 - idx / 8, 7 - idx % 8);
  }
  /** No 1-bit at positions 0 .. r-1. */
  predicate NoBitBefore(s: seq<bv8>, r: nat)
    requires r <= 8 * |s|
  {
    forall q: nat :: q < r ==> !BitAt(s, q)
  }

  /** The first k bytes are zero, so no 1-bit precedes position 8k. */
  predicate ZeroPrefix(s: seq<bv8>, k: nat)
    requires k <= |s|
  {
    (forall j :: 0 <= j < k ==> s[j] == 0) && NoBitBefore(s, 8 * k)
  }

  /** A zero byte k contributes no 1-bit at positions 8k .. 8k+7. */
  lemma ZeroByteNoBits(s: seq<bv8>, k: nat)
    requires k < |s| && s[k] == 0 && ZeroPrefix(s, k)
    ensures ZeroPrefix(s, k + 1)
  {
    forall q: nat | 8 * k <= q < 8 * k + 8 ensures !BitAt(s, q) {
      PositionSplit(k, q - 8 * k);
    }
  }

  /** With every byte zero, the answer is 8 * |s|. */
  lemma AllZeroFirstBit(s: seq<bv8>)
    requires ZeroPrefix(s, |s|)
    ensures IsFirstBit(s, 8 * |s|)
  {
  }

  /** Leading zero bits of byte k locate the sequence's first 1-bit, once the bytes before k
      are known to have none. */
  lemma FirstBitInByte(s: seq<bv8>, k: nat, t: nat)
    requires k < |s| && t < 8 && NoBitBefore(s, 8 * k)
    requires s[k] & MsbMask(t) != 0 && HighBitsClear(s[k], t)
    ensures 8 * k + t < 8 * |s| && IsFirstBit(s, 8 * k + t)
  {
    PositionSplit(k, t);
    forall q: nat | 8 * k <= q < 8 * k + t ensures !BitAt(s, q) {
      PositionSplit(k, q - 8 * k);
    }
  }

  /** firstBitSet's answer for s: no 1-bit precedes position r, and there is a 1-bit at r unless
      r is 8 * |s|. */
  predicate IsFirstBit(s: seq<bv8>, r: nat)
  {
    r <= 8 * |s| && NoBitBefore(s, r) && (r < 8 * |s| ==> BitAt(s, r))
  }

  /** At most one position answers firstBitSet. */
  lemma FirstBitUnique(s: seq<bv8>, r: nat, r': nat)
    requires IsFirstBit(s, r) && IsFirstBit(s, r')
    ensures r == r'
  {
  }

  /** The answer is 8 * |s| exactly when every byte is zero. */
  lemma FirstBitNoneIffZero(s: seq<bv8>, r: nat)
    requires IsFirstBit(s, r)
    ensures r == 8 * |s| <==> forall i :: 0 <= i < |s| ==> s[i] == 0
  {
    if r == 8 * |s| {
      forall i | 0 <= i < |s| ensures s[i] == 0 {
        ZeroByteOfNoBits(s, i);
      }
    } else {
      assert s[r / 8] != 0;
    }
  }

  /** A byte none of whose eight positions holds a 1-bit is zero. */
  lemma ZeroByteOfNoBits(s: seq<bv8>, i: nat)
    requires i < |s| && NoBitBefore(s, 8 * |s|)
    ensures s[i] == 0
  {
    forall t: nat | t < 8 ensures s[i] & MsbMask(t) == 0 {
      PositionSplit(i, t);
      assert !BitAt(s, 8 * i + t);
    }
    MsbMaskValues();
    ByteAndAllBits(0, s[i]);
  }

  // ---------------------------------------------------------------------------------------------
  // Bitwise algebra: ^, |, & and ~ act byte by byte

  function XorBytes(a: seq<bv8>, b: seq<bv8>): (r: seq<bv8>)
    requires |a| == |b|
    ensures |r| == |a|
  {
    seq(|a|, i requires 0 <= i < |a| => a[i] ^ b[i])
  }

  function OrBytes(a: seq<bv8>, b: seq<bv8>): (r: seq<bv8>)
    requires |a| == |b|
    ensures |r| == |a|
  {
    seq(|a|, i requires 0 <= i < |a| => a[i] | b[i])
  }

  function AndBytes(a: seq<bv8>, b: seq<bv8>): (r: seq<bv8>)
    requires |a| == |b|
    ensures |r| == |a|
  {
    seq(|a|, i requires 0 <= i < |a| => a[i] & b[i])
  }

  function NotBytes(a: seq<bv8>): (r: seq<bv8>)
    ensures |r| == |a|
  {
    seq(|a|, i requires 0 <= i < |a| => !a[i])
  }

  /** a ^ a is zero, and ^ b undoes ^ b. */
  lemma XorProperties(a: seq<bv8>, b: seq<bv8>)
    requires |a| == |b|
    ensures XorBytes(a, a) == Zeros(|a|)
    ensures XorBytes(XorBytes(a, b), b) == a
  {
  }

  /** a & 0 is zero, a | 0 is a, and ~~a is a. */
  lemma ZeroAndComplementIdentities(a: seq<bv8>)
    ensures AndBytes(a, Zeros(|a|)) == Zeros(|a|)
    ensures OrBytes(a, Zeros(|a|)) == a
    ensures NotBytes(NotBytes(a)) == a
  {
  }

  /** ~a, read as an integer, is 256^N - 1 - a. */
  lemma {:induction false} ComplementValue(a: seq<bv8>)
    ensures BigEndianValue(NotBytes(a)) == Pow256(|a|) - 1 - BigEndianValue(a)
  {
    if |a| > 0 {
      var init := a[..|a| - 1];
      assert NotBytes(a)[..|a| - 1] == NotBytes(init);
      ComplementValue(init);
      ByteComplementValue(a[|a| - 1]);
    }
  }

  /** contains: `(a & c) == c` holds exactly when every 1-bit of c is set in a. */
  lemma ContainsIffCovers(a: seq<bv8>, c: seq<bv8>)
    requires |a| == |c|
    ensures AndBytes(a, c) == c <==> Covers(a, c)
  {
    if AndBytes(a, c) == c {
      forall pos: nat | pos < 8 * |c| && BitAt(c, pos) ensures BitAt(a, pos) {
        ContainedBit(a, c, pos);
      }
    }
    if Covers(a, c) {
      forall i | 0 <= i < |c| ensures AndBytes(a, c)[i] == c[i] {
        CoveredByte(a, c, i);
      }
    }
  }

  lemma ContainedBit(a: seq<bv8>, c: seq<bv8>, pos: nat)
    requires |a| == |c| && AndBytes(a, c) == c && pos < 8 * |c| && BitAt(c, pos)
    ensures BitAt(a, pos)
  {
    var i := pos / 8;
    assert AndBytes(a, c)[i] == a[i] & c[i];
    ByteContains(a[i], c[i]);
  }

  lemma CoveredByte(a: seq<bv8>, c: seq<bv8>, i: nat)
    requires |a| == |c| && Covers(a, c) && i < |c|
    ensures a[i] & c[i] == c[i]
  {
    forall t: nat | t < 8 && c[i] & MsbMask(t) != 0 ensures a[i] & MsbMask(t) != 0 {
      PositionSplit(i, t);
      assert BitAt(c, 8 * i + t);
    }
    ByteContains(a[i], c[i]);
  }

  /** a.contains(a) and a.contains(zero) always hold; zero contains only zero. */
  lemma ContainsSelfAndZero(a: seq<bv8>)
    ensures AndBytes(a, a) == a
    ensures AndBytes(a, Zeros(|a|)) == Zeros(|a|)
    ensures AndBytes(Zeros(|a|), a) == a <==> a == Zeros(|a|)
  {
    if AndBytes(Zeros(|a|), a) == a {
      forall i | 0 <= i < |a| ensures a[i] == 0 {
        assert AndBytes(Zeros(|a|), a)[i] == 0;
      }
    }
  }

  /** a | b has every 1-bit of a and every 1-bit of b: or-ing never clears a bit. */
  lemma OrCovers(a: seq<bv8>, b: seq<bv8>)
    requires |a| == |b|
    ensures Covers(OrBytes(a, b), a) && Covers(OrBytes(a, b), b)
    ensures AndBytes(OrBytes(a, b), b) == b
  {
    forall pos: nat | pos < 8 * |a| ensures (BitAt(a, pos) || BitAt(b, pos)) ==> BitAt(OrBytes(a, b), pos) {
      ByteOrKeeps(a[pos / 8], b[pos / 8], pos % 8);
    }
    ContainsIffCovers(OrBytes(a, b), b);
  }

  // ---------------------------------------------------------------------------------------------
  // Ordering

  /** `<`: strict lexicographic order on equal-length byte sequences, byte 0 first. */
  predicate LexLess(a: seq<bv8>, b: seq<bv8>)
    requires |a| == |b|
  {
    if |a| == 0 then false
    else if a[0] < b[0] then true
    else if a[0] > b[0] then false
    else LexLess(a[1..], b[1..])
  }

  lemma ValueOfHead(s: seq<bv8>)
    requires |s| > 0
    ensures BigEndianValue(s) == s[0] as nat * Pow256(|s| - 1) + BigEndianValue(s[1..])
  {
    var h, t := s[0], s[1..];
    assert s == [h] + t;
    ValueOfSingle(h);
    ValueOfConcat([h], t);
  }

  lemma ValueOfSingle(h: bv8)
    ensures BigEndianValue([h]) == h as nat
  {
    assert [h][..0] == [];
  }

  /** The lexicographic order is the order of the big-endian integers. */
  lemma {:induction false} LexLessIffValueLess(a: seq<bv8>, b: seq<bv8>)
    requires |a| == |b|
    ensures LexLess(a, b) <==> BigEndianValue(a) < BigEndianValue(b)
  {
    if |a| > 0 {
      var p := Pow256(|a| - 1);
      ValueOfHead(a);
      ValueOfHead(b);
      var x, y := a[0] as nat, b[0] as nat;
      if x < y {
        HeadDominates(x, y, p, BigEndianValue(a[1..]), BigEndianValue(b[1..]));
      } else if x > y {
        HeadDominates(y, x, p, BigEndianValue(b[1..]), BigEndianValue(a[1..]));
      } else {
        LexLessIffValueLess(a[1..], b[1..]);
      }
    }
  }

  /** A smaller leading digit decides the comparison. */
  lemma HeadDominates(x: nat, y: nat, p: nat, u: nat, w: nat)
    requires x < y && u < p
    ensures x * p + u < y * p + w
  {
    MulMonotone(x + 1, y, p);
  }

  /** Exactly one of a < b, a == b, b < a holds. */
  lemma Trichotomy(a: seq<bv8>, b: seq<bv8>)
    requires |a| == |b|
    ensures LexLess(a, b) || a == b || LexLess(b, a)
    ensures !(LexLess(a, b) && a == b) && !(LexLess(b, a) && a == b) && !(LexLess(a, b) && LexLess(b, a))
  {
    LexLessIffValueLess(a, b);
    LexLessIffValueLess(b, a);
    ValueInjective(a, b);
  }

  /** The h256 fast path compares the 32 bytes as four 8-byte words; a word is read from its
      8 bytes by a fixed bijection, here the big-endian one. */
  predicate WordwiseEqual(a: seq<bv8>, b: seq<bv8>)
    requires |a| == 32 && |b| == 32
  {
    BigEndianValue(a[0..8]) == BigEndianValue(b[0..8]) && BigEndianValue(a[8..16]) == BigEndianValue(b[8..16]) &&
    BigEndianValue(a[16..24]) == BigEndianValue(b[16..24]) && BigEndianValue(a[24..32]) == BigEndianValue(b[24..32])
  }

  /** Comparing four words gives the same answer as comparing the 32 bytes. */
  lemma WordwiseEqualIffEqual(a: seq<bv8>, b: seq<bv8>)
    requires |a| == 32 && |b| == 32
    ensures WordwiseEqual(a, b) <==> a == b
  {
    if WordwiseEqual(a, b) {
      WordEqual(a, b, 0);
      WordEqual(a, b, 8);
      WordEqual(a, b, 16);
      WordEqual(a, b, 24);
      assert forall i :: 0 <= i < 32 ==> a[i] == b[i];
    }
  }

  /** Two 8-byte words with the same value have the same bytes. */
  lemma WordEqual(a: seq<bv8>, b: seq<bv8>, lo: nat)
    requires lo + 8 <= |a| == |b|
    requires BigEndianValue(a[lo..lo + 8]) == BigEndianValue(b[lo..lo + 8])
    ensures forall i :: lo <= i < lo + 8 ==> a[i] == b[i]
  {
    ValueInjective(a[lo..lo + 8], b[lo..lo + 8]);
    forall i | lo <= i < lo + 8 ensures a[i] == b[i] {
      assert a[lo..lo + 8][i - lo] == b[lo..lo + 8][i - lo];
    }
  }

  // ---------------------------------------------------------------------------------------------
  // Big-endian increment

  /** `++`: add one to the last byte; a byte that wraps to zero carries into the byte before it. */
  function Incremented(s: seq<bv8>): (r: seq<bv8>)
    ensures |r| == |s|
  {
    if |s| == 0 then []
    else if s[|s| - 1] == 0xFF then Incremented(s[..|s| - 1]) + [0]
    else s[..|s| - 1] + [s[|s| - 1] + 1]
  }

  /** The last byte either wraps to zero and carries into the rest, or absorbs the increment. */
  lemma IncrementLast(s: seq<bv8>)
    requires |s| > 0
    ensures s[|s| - 1] == 0xFF ==> s[|s| - 1] + 1 == 0 && Incremented(s) == Incremented(s[..|s| - 1]) + [0]
    ensures s[|s| - 1] != 0xFF ==> s[|s| - 1] + 1 != 0 && Incremented(s) == s[..|s| - 1] + [s[|s| - 1] + 1]
  {
  }

  /** The state of the in-place increment of orig, cur being the bytes so far: while a carry is
      pending into byte i - 1, bytes i.. hold the incremented tail and the rest is untouched;
      once no carry is pending, cur is the incremented sequence. */
  predicate IncrementProgress(orig: seq<bv8>, cur: seq<bv8>, i: nat, carry: bool)
    requires i <= |orig| == |cur|
  {
    && (carry ==> cur[..i] == orig[..i] && Incremented(orig) == Incremented(orig[..i]) + cur[i..])
    && (!carry ==> cur == Incremented(orig))
  }

  /** Before the first step nothing is pending but the carry into the last byte. */
  lemma IncrementStart(orig: seq<bv8>)
    ensures IncrementProgress(orig, orig, |orig|, true)
  {
    assert orig[..|orig|] == orig && orig[|orig|..] == [] && Incremented(orig) + [] == Incremented(orig);
  }

  /** One step of the in-place increment at byte i: the byte goes up by one and either wraps to
      zero, passing the carry on, or the whole increment is done. */
  lemma IncrementLoopStep(orig: seq<bv8>, before: seq<bv8>, i: nat)
    requires i < |orig| == |before| && IncrementProgress(orig, before, i + 1, true)
    ensures var after := before[i := before[i] + 1];
      IncrementProgress(orig, after, i, after[i] == 0)
  {
    var prefix := orig[..i + 1];
    IncrementLast(prefix);
    assert prefix[..i] == orig[..i] && prefix[i] == before[i];
    UpdateSlices(before, i, before[i] + 1);
  }

  /** The pieces of a sequence with element i replaced by x. */
  lemma UpdateSlices(s: seq<bv8>, i: nat, x: bv8)
    requires i < |s|
    ensures s[i := x][..i] == s[..i] && s[i := x][i + 1..] == s[i + 1..]
    ensures s[i := x][i..] == [x] + s[i + 1..]
    ensures s[i := x] == s[..i] + [x] + s[i + 1..]
  {
  }

  /** Incrementing adds one modulo 256^N. */
  lemma {:induction false} IncrementedValue(s: seq<bv8>)
    ensures BigEndianValue(Incremented(s)) == (BigEndianValue(s) + 1) % Pow256(|s|)
  {
    if |s| > 0 {
      var init := s[..|s| - 1];
      if s[|s| - 1] == 0xFF {
        IncrementedValue(init);
        IncrementCarry(s);
      } else {
        assert init + [s[|s| - 1]] == s;
        IncrementNoCarry(init, s[|s| - 1]);
      }
    }
  }

  /** Last byte 0xFF: it becomes zero and the carry goes into the bytes before it. */
  lemma IncrementCarry(s: seq<bv8>)
    requires |s| > 0 && s[|s| - 1] == 0xFF
    requires BigEndianValue(Incremented(s[..|s| - 1])) == (BigEndianValue(s[..|s| - 1]) + 1) % Pow256(|s| - 1)
    ensures BigEndianValue(Incremented(s)) == (BigEndianValue(s) + 1) % Pow256(|s|)
  {
    var init := s[..|s| - 1];
    CarryDigits(s);
    ModScale(BigEndianValue(init) + 1, Pow256(|s| - 1));
  }

  lemma CarryDigits(s: seq<bv8>)
    requires |s| > 0 && s[|s| - 1] == 0xFF
    ensures BigEndianValue(Incremented(s)) == BigEndianValue(Incremented(s[..|s| - 1])) * 256
    ensures BigEndianValue(s) + 1 == (BigEndianValue(s[..|s| - 1]) + 1) * 256
  {
    var r := Incremented(s);
    assert r[..|r| - 1] == Incremented(s[..|s| - 1]);
  }

  /** Last byte below 0xFF: it goes up by one and nothing wraps. */
  lemma IncrementNoCarry(init: seq<bv8>, last: bv8)
    requires last != 0xFF
    ensures BigEndianValue(Incremented(init + [last])) == (BigEndianValue(init + [last]) + 1) % Pow256(|init| + 1)
  {
    NoCarryDigits(init, last);
    ModOfSmall(BigEndianValue(init + [last]) + 1, Pow256(|init| + 1));
  }

  lemma NoCarryDigits(init: seq<bv8>, last: bv8)
    requires last != 0xFF
    ensures Incremented(init + [last]) == init + [last + 1]
    ensures BigEndianValue(init + [last + 1]) == BigEndianValue(init + [last]) + 1
    ensures BigEndianValue(init + [last]) + 1 < Pow256(|init| + 1)
  {
    assert (init + [last])[..|init|] == init;
    ValueOfSnoc(init, last);
    ValueOfSnoc(init, last + 1);
    ByteSucc(last);
    DigitBound(BigEndianValue(init), last as nat + 1, Pow256(|init|));
  }

  lemma ModOfSmall(x: nat, p: nat)
    requires x < p
    ensures x % p == x
  {
  }

  lemma ByteSucc(b: bv8)
    requires b != 0xFF
    ensures (b + 1) as nat == b as nat + 1
  {
  }

  /** Scaling by 256 scales the remainder: (x mod p) * 256 == (x * 256) mod 256p. */
  lemma ModScale(x: nat, p: nat)
    requires p >= 1
    ensures (x % p) * 256 == (x * 256) % (256 * p)
  {
    DivModUnique(x * 256, 256, x, 0);
    ModOfShifted(x * 256, p);
  }

  /** The bytes before the last byte that does not wrap are unchanged; that byte goes up by
      one and every byte after it (each 0xFF) becomes zero. */
  lemma {:induction false} IncrementedShape(s: seq<bv8>, k: nat)
    requires k < |s| && s[k] != 0xFF
    requires forall j :: k < j < |s| ==> s[j] == 0xFF
    ensures Incremented(s) == s[..k] + [s[k] + 1] + Zeros(|s| - k - 1)
  {
    if k < |s| - 1 {
      var init := s[..|s| - 1];
      PrefixOfInit(s, k);
      IncrementedShape(init, k);
      CarryShape(s, s[..k] + [s[k] + 1]);
    } else {
      NoCarryShape(s);
    }
  }

  lemma PrefixOfInit(s: seq<bv8>, k: nat)
    requires k < |s| - 1
    ensures s[..|s| - 1][..k] == s[..k] && s[..|s| - 1][k] == s[k]
  {
  }

  /** When the last byte is not 0xFF, it alone changes. */
  lemma NoCarryShape(s: seq<bv8>)
    requires |s| > 0 && s[|s| - 1] != 0xFF
    ensures Incremented(s) == s[..|s| - 1] + [s[|s| - 1] + 1] + Zeros(0)
  {
    IncrementLast(s);
    var head := s[..|s| - 1] + [s[|s| - 1] + 1];
    assert head + Zeros(0) == head;
  }

  /** When the last byte is 0xFF, a zero byte is appended to the increment of the rest. */
  lemma CarryShape(s: seq<bv8>, head: seq<bv8>)
    requires |s| > |head| && s[|s| - 1] == 0xFF
    requires Incremented(s[..|s| - 1]) == head + Zeros(|s| - 1 - |head|)
    ensures Incremented(s) == head + Zeros(|s| - |head|)
  {
    var a := |s| - 1 - |head|;
    IncrementLast(s);
    ZerosSnoc(a);
    assert head + Zeros(a) + [0] == head + (Zeros(a) + [0]);
  }

  lemma ZerosSnoc(a: nat)
    ensures Zeros(a) + [0] == Zeros(a + 1)
  {
    assert forall i :: 0 <= i < a + 1 ==> (Zeros(a) + [0])[i] == 0;
  }

  /** The all-0xFF value wraps to all zeros. */
  lemma {:induction false} IncrementedAllOnes(s: seq<bv8>)
    requires forall j :: 0 <= j < |s| ==> s[j] == 0xFF
    ensures Incremented(s) == Zeros(|s|)
  {
    if |s| > 0 {
      IncrementedAllOnes(s[..|s| - 1]);
      assert Zeros(|s| - 1) + [0] == Zeros(|s|);
    }
  }

  // ---------------------------------------------------------------------------------------------
  // Construction from a differently sized source

  /** ConstructFromHashType. */
  datatype Align = AlignLeft | AlignRight | FailIfDifferent

  function Min(a: nat, b: nat): nat
  {
    if a < b then a else b
  }

  /** The resizing constructor FixedHash<N>(FixedHash<M>, t): zero-filled, with min(M, N)
      source bytes copied to the right end when t is AlignRight and to the left end otherwise. */
  function Resized(src: seq<bv8>, n: nat, t: Align): (r: seq<bv8>)
    ensures |r| == n
  {
    var c := Min(|src|, n);
    if t == AlignRight then Zeros(n - c) + src[|src| - c..] else src[..c] + Zeros(n - c)
  }

  /** Where each copied byte lands, and that all other bytes are zero. */
  lemma ResizedBytes(src: seq<bv8>, n: nat, t: Align)
    ensures var r, c := Resized(src, n, t), Min(|src|, n);
      if t == AlignRight then
        (forall j :: n - c <= j < n ==> r[j] == src[|src| - n + j]) && (forall j :: 0 <= j < n - c ==> r[j] == 0)
      else
        (forall i :: 0 <= i < c ==> r[i] == src[i]) && (forall j :: c <= j < n ==> r[j] == 0)
  {
    var c := Min(|src|, n);
    if t == AlignRight {
      ResizedRightBytes(src, n, c);
    } else {
      ResizedLeftBytes(src, n, c);
    }
  }

  lemma ResizedRightBytes(src: seq<bv8>, n: nat, c: nat)
    requires c == Min(|src|, n)
    ensures forall j :: n - c <= j < n ==> Resized(src, n, AlignRight)[j] == src[|src| - n + j]
    ensures forall j :: 0 <= j < n - c ==> Resized(src, n, AlignRight)[j] == 0
  {
    var z, tail := Zeros(n - c), src[|src| - c..];
    var r := Resized(src, n, AlignRight);
    assert r == z + tail;
    forall j | n - c <= j < n ensures r[j] == src[|src| - n + j] {
      assert r[j] == tail[j - (n - c)];
    }
  }

  lemma ResizedLeftBytes(src: seq<bv8>, n: nat, c: nat)
    requires c == Min(|src|, n)
    ensures forall i :: 0 <= i < c ==> Resized(src, n, AlignLeft)[i] == src[i]
    ensures forall j :: c <= j < n ==> Resized(src, n, AlignLeft)[j] == 0
  {
    var head, z := src[..c], Zeros(n - c);
    assert Resized(src, n, AlignLeft) == head + z;
  }

  /** The buffer d after the first i iterations of the aligned copy loop: the last i bytes of the
      source at the right end (AlignRight) or its first i bytes at the left end, zero elsewhere. */
  predicate AlignedCopyProgress(d: seq<bv8>, src: seq<bv8>, i: nat, t: Align)
    requires i <= |src| && i <= |d|
  {
    if t == AlignRight then
      forall k :: 0 <= k < |d| ==> d[k] == if k >= |d| - i then src[|src| - |d| + k] else 0
    else
      forall k :: 0 <= k < |d| ==> d[k] == if k < i then src[k] else 0
  }

  /** The destination byte iteration i writes. */
  function AlignedTarget(n: nat, i: nat, t: Align): nat
    requires i < n
  {
    if t == AlignRight then n - 1 - i else i
  }

  /** The source byte iteration i reads. */
  function AlignedSource(src: seq<bv8>, i: nat, t: Align): bv8
    requires i < |src|
  {
    if t == AlignRight then src[|src| - 1 - i] else src[i]
  }

  lemma AlignedCopyStart(d: seq<bv8>, src: seq<bv8>, t: Align)
    requires forall k :: 0 <= k < |d| ==> d[k] == 0
    ensures AlignedCopyProgress(d, src, 0, t)
  {
  }

  lemma AlignedCopyStep(d: seq<bv8>, src: seq<bv8>, i: nat, t: Align)
    requires i < |src| && i < |d| && AlignedCopyProgress(d, src, i, t)
    ensures AlignedCopyProgress(d[AlignedTarget(|d|, i, t) := AlignedSource(src, i, t)], src, i + 1, t)
  {
  }

  /** Once min(M, N) bytes are copied, the buffer is the resized source. */
  lemma AlignedCopyDone(d: seq<bv8>, src: seq<bv8>, t: Align)
    requires Min(|src|, |d|) <= |src| && AlignedCopyProgress(d, src, Min(|src|, |d|), t)
    ensures d == Resized(src, |d|, t)
  {
    ResizedBytes(src, |d|, t);
  }

  /** Narrowing with AlignRight keeps the last n bytes. */
  lemma ResizedRightTail(src: seq<bv8>, n: nat)
    requires n <= |src|
    ensures Resized(src, n, AlignRight) == src[|src| - n..]
  {
    assert Zeros(0) + src[|src| - n..] == src[|src| - n..];
  }

  /** The last n bytes of a buffer are its AlignRight narrowing, and denote its value modulo
      256^n. */
  lemma LowBytes(src: seq<bv8>, n: nat)
    requires n <= |src|
    ensures Resized(src, n, AlignRight) == src[|src| - n..]
    ensures BigEndianValue(src[|src| - n..]) == BigEndianValue(src) % Pow256(n)
  {
    ResizedRightTail(src, n);
    TailValue(src, n);
  }

  /** The last n bytes of a buffer denote its value modulo 256^n. */
  lemma TailValue(src: seq<bv8>, n: nat)
    requires n <= |src|
    ensures BigEndianValue(src[|src| - n..]) == BigEndianValue(src) % Pow256(n)
  {
    var hi, lo := src[..|src| - n], src[|src| - n..];
    assert src == hi + lo;
    ValueOfConcat(hi, lo);
    DivModUnique(BigEndianValue(src), Pow256(n), BigEndianValue(hi), BigEndianValue(lo));
  }

  /** Widening with AlignRight prepends zero bytes, which leave the value below 256^n unchanged. */
  lemma ResizedRightWiden(src: seq<bv8>, n: nat)
    requires n >= |src|
    ensures BigEndianValue(Resized(src, n, AlignRight)) == BigEndianValue(src) % Pow256(n)
  {
    var m := |src|;
    assert src[m - m..] == src;
    ValueOfZeros(n - m, src);
    Pow256Monotone(m, n);
    DivModUnique(BigEndianValue(src), Pow256(n), 0, BigEndianValue(src));
  }

  /** Narrowing with AlignLeft keeps the first n bytes. */
  lemma ResizedLeftHead(src: seq<bv8>, n: nat)
    requires n <= |src|
    ensures Resized(src, n, AlignLeft) == src[..n]
  {
    assert src[..n] + Zeros(0) == src[..n];
  }

  /** AlignRight keeps the integer value modulo 256^N: it zero-extends a narrower source and keeps
      the low-order bytes of a wider one. */
  lemma ResizedRightValue(src: seq<bv8>, n: nat)
    ensures BigEndianValue(Resized(src, n, AlignRight)) == BigEndianValue(src) % Pow256(n)
  {
    if n >= |src| {
      ResizedRightWiden(src, n);
    } else {
      ResizedRightTail(src, n);
      TailValue(src, n);
    }
  }

  /** AlignLeft scales the integer value: widening appends zero bytes (multiplies by 256^(N-M)),
      narrowing drops the low-order bytes (divides by 256^(M-N)). */
  lemma ResizedLeftValue(src: seq<bv8>, n: nat)
    ensures n >= |src| ==> BigEndianValue(Resized(src, n, AlignLeft)) == BigEndianValue(src) * Pow256(n - |src|)
    ensures n < |src| ==> BigEndianValue(Resized(src, n, AlignLeft)) == BigEndianValue(src) / Pow256(|src| - n)
  {
    if n >= |src| {
      ResizedLeftWiden(src, n);
    } else {
      ResizedLeftHead(src, n);
      HighPart(src, n);
    }
  }

  /** Widening with AlignLeft appends zero bytes. */
  lemma ResizedLeftWiden(src: seq<bv8>, n: nat)
    requires n >= |src|
    ensures BigEndianValue(Resized(src, n, AlignLeft)) == BigEndianValue(src) * Pow256(n - |src|)
  {
    var m := |src|;
    assert src[..m] == src;
    ValueOfConcat(src, Zeros(n - m));
    ValueOfZeros(n - m, []);
    assert Zeros(n - m) + [] == Zeros(n - m);
  }

  /** Widening and then narrowing back with the same alignment restores the source. */
  lemma ResizedRoundTrip(src: seq<bv8>, n: nat, t: Align)
    requires n >= |src|
    ensures Resized(Resized(src, n, t), |src|, t) == src
  {
    var m := |src|;
    var w := Resized(src, n, t);
    if t == AlignRight {
      assert src[m - m..] == src;
      assert w == Zeros(n - m) + src;
      assert w[n - m..] == src;
      ResizedRightTail(w, m);
    } else {
      assert src[..m] == src;
      assert w == src + Zeros(n - m);
      assert w[..m] == src;
      ResizedLeftHead(w, m);
    }
  }

  /** The byte-vector constructor FixedHash<N>(bytes, t): an exact copy when the length is N;
      otherwise zero when t is FailIfDifferent, and the aligned copy when it is not. */
  function FromByteVector(b: seq<bv8>, n: nat, t: Align): (r: seq<bv8>)
    ensures |r| == n
  {
    if |b| == n then b
    else if t == FailIfDifferent then Zeros(n)
    else Resized(b, n, t)
  }

  /** With AlignLeft or AlignRight the byte-vector constructor builds what the resizing
      constructor builds; with FailIfDifferent it builds zero unless the length is N. */
  lemma FromByteVectorCases(b: seq<bv8>, n: nat, t: Align)
    ensures t != FailIfDifferent ==> FromByteVector(b, n, t) == Resized(b, n, t)
    ensures t == FailIfDifferent ==> FromByteVector(b, n, t) == if |b| == n then b else Zeros(n)
  {
    if |b| == n {
      assert b[..n] == b && b[0..] == b;
      assert Zeros(0) + b == b && b + Zeros(0) == b;
    }
  }

  // ---------------------------------------------------------------------------------------------
  // Bloom projection

  /** c_bloomBytes: the number of source bytes folded into one bit index of an M-byte bloom. */
  function BloomBytes(m: nat): (r: nat)
    requires m >= 1
    ensures r >= 1
  {
    StaticLog2Times8(m);
    (StaticLog2(8 * m) + 7) / 8
  }

  /** The compile-time conditions of bloomPart<P, M> on an N-byte hash: M a power of two, M * 8
      representable as an unsigned (otherwise StaticLog2 of zero does not compile), and the P
      indices fitting in the N bytes. */
  predicate BloomParams(n: nat, p: nat, m: nat)
    ensures BloomParams(n, p, m) ==> m >= 1 && 8 * m < 0x1_0000_0000 && p <= n
  {
    IsPow2(m) && 8 * m < 0x1_0000_0000 && p * BloomBytes(m) <= n
  }

  /** 256^j == 2^(8j). */
  lemma {:induction false} Pow256IsPow2(j: nat)
    ensures Pow256(j) == Pow2(8 * j)
  {
    if j > 0 {
      Pow256IsPow2(j - 1);
      Pow2Add(8 * (j - 1), 8);
      assert Pow2(8) == 256;
    }
  }

  /** c_bloomBytes is the fewest bytes whose big-endian fold reaches every index below M*8. */
  lemma BloomBytesFit(m: nat)
    requires IsPow2(m)
    ensures 8 * m <= Pow256(BloomBytes(m)) && Pow256(BloomBytes(m) - 1) < 8 * m
  {
    var k: nat :| k <= m && Pow2(k) == m;
    var l := k + 3;
    Pow2Add(k, 3);
    assert Pow2(3) == 8;
    assert Pow2(l) == 8 * m;
    StaticLog2OfPow2(l);
    var r := BloomBytes(m);
    assert r == (l + 7) / 8;
    CeilDiv8(l);
    Pow256IsPow2(r);
    Pow256IsPow2(r - 1);
    Pow2Monotone(l, 8 * r);
    Pow2Monotone(8 * (r - 1), l);
  }

  /** (l + 7) / 8 bytes hold l bits, and one byte fewer does not. */
  lemma CeilDiv8(l: nat)
    requires l >= 1
    ensures l <= 8 * ((l + 7) / 8) && 8 * ((l + 7) / 8 - 1) < l
  {
  }


  /** Under the compile-time conditions, each index is folded from at most 4 bytes, so the
      `unsigned index` of bloomPart never overflows. */
  lemma BloomIndexFits(n: nat, p: nat, m: nat)
    requires BloomParams(n, p, m)
    ensures BloomBytes(m) <= 4
  {
    BloomBytesFit(m);
    assert Pow256(4) == 0x1_0000_0000;
    Pow256Below(BloomBytes(m) - 1, 4);
  }

  lemma Pow256Below(a: nat, b: nat)
    requires Pow256(a) < Pow256(b)
    ensures a < b
  {
    if b <= a {
      Pow256Monotone(b, a);
    }
  }

  /** shiftBloom with the filter itself breaks containsBloom: from the 1-byte filter [0] with P = 1,
      index 0 sets bit 0, and the projection of the new filter [1] is then bit 1, which is not set. */
  lemma SelfShiftLosesContainment()
    ensures BloomParams(1, 1, 1)
    ensures var f := OrBytes([0], BloomProjection([0], 1, 1));
      AndBytes(f, BloomProjection(f, 1, 1)) != BloomProjection(f, 1, 1)
  {
    assert Pow2(0) == 1;
    StaticLog2OfPow2(3);
    assert Pow2(3) == 8;
    assert BloomBytes(1) == 1;
    var z: seq<bv8> := [0];
    assert Zeros(1) == z;
    assert z[0..1] == z;
    assert BloomIndex(z, 0, 1) == 0;
    assert BloomIndexList(z, 1, 1) == [0];
    assert SetBloomBit(z, 0) == [1];
    assert SetBloomBits(z, [0]) == [1];
    var f: seq<bv8> := [1];
    assert BloomProjection(z, 1, 1) == f;
    assert OrBytes(z, f) == f;
    assert f[0..1] == f;
    assert BloomIndex(f, 0, 1) == 1;
    assert BloomIndexList(f, 1, 1) == [1];
    assert SetBloomBit(z, 1) == [2];
    assert SetBloomBits(z, [1]) == [2];
    assert BloomProjection(f, 1, 1) == [2];
    assert AndBytes(f, [2]) == [0];
  }


  /** The log bloom of a 32-byte hash, bloomPart<3, 256>: the instantiation compiles, and each of
      its three 11-bit indices is folded from 2 bytes, so it reads the first 6 bytes. */
  lemma LogBloomShape()
    ensures BloomParams(32, 3, 256)
    ensures BloomBytes(256) == 2 && 3 * BloomBytes(256) == 6
  {
    assert Pow2(8) == 256;
    assert Pow2(11) == 2048;
    StaticLog2OfPow2(11);
  }

  lemma BloomParamsFewer(n: nat, q: nat, p: nat, m: nat)
    requires BloomParams(n, p, m) && q <= p
    ensures BloomParams(n, q, m)
  {
    MulMonotone(q, p, BloomBytes(m));
  }

  lemma MulPred(p: nat, b: nat)
    requires p >= 1
    ensures (p - 1) * b + b == p * b
  {
  }

  /** One more iteration of the index loop, with the cursor at i * c_bloomBytes: the next
      c_bloomBytes bytes still fit, they are the bytes the next index is folded from, and the
      cursor then moves to (i + 1) * c_bloomBytes. */
  lemma BloomStep(s: seq<bv8>, i: nat, m: nat, cursor: nat)
    requires BloomParams(|s|, i + 1, m) && cursor == i * BloomBytes(m)
    ensures BloomParams(|s|, i, m)
    ensures cursor + BloomBytes(m) <= |s| && cursor + BloomBytes(m) == (i + 1) * BloomBytes(m)
    ensures BloomIndex(s, i, m) == BigEndianValue(s[cursor..cursor + BloomBytes(m)]) % (8 * m)
  {
    BloomParamsFewer(|s|, i, i + 1, m);
    MulPred(i + 1, BloomBytes(m));
  }

  /** ... and its index sets one more bit of the projection built so far. */
  lemma BloomStepBits(s: seq<bv8>, i: nat, m: nat)
    requires BloomParams(|s|, i + 1, m)
    ensures BloomParams(|s|, i, m)
    ensures SetBloomBits(Zeros(m), BloomIndexList(s, i + 1, m))
         == SetBloomBit(SetBloomBits(Zeros(m), BloomIndexList(s, i, m)), BloomIndex(s, i, m))
  {
    BloomParamsFewer(|s|, i, i + 1, m);
    var l := BloomIndexList(s, i, m);
    assert (l + [BloomIndex(s, i, m)])[..i] == l;
  }

  /** The state of bloomPart after i iterations: the cursor at i * c_bloomBytes and r holding the
      bits of the first i indices. */
  predicate BloomPartProgress(s: seq<bv8>, i: nat, m: nat, cursor: nat, r: seq<bv8>)
  {
    && BloomParams(|s|, i, m)
    && cursor == i * BloomBytes(m)
    && r == SetBloomBits(Zeros(m), BloomIndexList(s, i, m))
  }

  /** Before the first iteration: no bits, cursor at 0. */
  lemma BloomPartStart(s: seq<bv8>, p: nat, m: nat)
    requires BloomParams(|s|, p, m)
    ensures BloomPartProgress(s, 0, m, 0, Zeros(m))
  {
    BloomParamsFewer(|s|, 0, p, m);
  }

  /** Another iteration is due: the c_bloomBytes bytes at the cursor lie within the hash. */
  lemma BloomPartRoom(s: seq<bv8>, i: nat, p: nat, m: nat, cursor: nat, r: seq<bv8>)
    requires BloomParams(|s|, p, m) && i < p && BloomPartProgress(s, i, m, cursor, r)
    ensures m >= 1 && cursor + BloomBytes(m) <= |s|
  {
    BloomParamsFewer(|s|, i + 1, p, m);
    BloomStep(s, i, m, cursor);
  }

  /** Folding those bytes into an index and setting its bit completes iteration i. */
  lemma BloomPartAdvance(s: seq<bv8>, i: nat, p: nat, m: nat, cursor: nat, r: seq<bv8>, index: nat, r': seq<bv8>)
    requires BloomParams(|s|, p, m) && i < p && BloomPartProgress(s, i, m, cursor, r)
    requires cursor + BloomBytes(m) <= |s| && index == BigEndianValue(s[cursor..cursor + BloomBytes(m)]) % (8 * m)
    requires |r| == m && index < 8 * m && r' == SetBloomBit(r, index)
    ensures BloomPartProgress(s, i + 1, m, cursor + BloomBytes(m), r')
  {
    BloomParamsFewer(|s|, i + 1, p, m);
    BloomStep(s, i, m, cursor);
    BloomStepBits(s, i, m);
  }

  /** The i-th bit index: c_bloomBytes bytes from the cursor folded big-endian, masked to M*8 - 1. */
  function BloomIndex(s: seq<bv8>, i: nat, m: nat): (r: nat)
    requires m >= 1 && (i + 1) * BloomBytes(m) <= |s|
    ensures r < 8 * m
  {
    var b := BloomBytes(m);
    assert (i + 1) * b == i * b + b;
    BigEndianValue(s[i * b..(i + 1) * b]) % (8 * m)
  }

  /** `ret[M - 1 - index / 8] |= 1 << (index % 8)`. */
  function SetBloomBit(r: seq<bv8>, idx: nat): (r': seq<bv8>)
    requires idx < 8 * |r|
    ensures |r'| == |r|
  {
    var k := |r| - 1 - idx / 8;
    r[k := r[k] | BloomBit(idx)]
  }

  /** `1 << (index % 8)`: the bit of its byte that a bloom index selects. */
  function BloomBit(idx: nat): bv8
  {
    (1 as bv8) << (idx % 8)
  }

  /** The bit indices of the first p iterations, in order. */
  function BloomIndexList(s: seq<bv8>, p: nat, m: nat): (l: seq<nat>)
    requires BloomParams(|s|, p, m)
    ensures |l| == p
    ensures forall i :: 0 <= i < p ==> l[i] < 8 * m
    decreases p
  {
    if p == 0 then []
    else
      BloomParamsFewer(|s|, p - 1, p, m);
      BloomIndexList(s, p - 1, m) + [BloomIndex(s, p - 1, m)]
  }

  /** Sets the bloom bit of every index in the list, first to last. */
  function SetBloomBits(r: seq<bv8>, l: seq<nat>): (r': seq<bv8>)
    requires forall i :: 0 <= i < |l| ==> l[i] < 8 * |r|
    ensures |r'| == |r|
    decreases |l|
  {
    if |l| == 0 then r else SetBloomBit(SetBloomBits(r, l[..|l| - 1]), l[|l| - 1])
  }

  /** bloomPart<P, M>: starting from M zero bytes, set the bit of each of the first P indices. */
  function BloomProjection(s: seq<bv8>, p: nat, m: nat): (r: seq<bv8>)
    requires BloomParams(|s|, p, m)
    ensures |r| == m
  {
    SetBloomBits(Zeros(m), BloomIndexList(s, p, m))
  }

  /** Setting one bloom bit adds exactly that bit. */
  lemma SetBloomBitBits(r: seq<bv8>, idx: nat)
    requires idx < 8 * |r|
    ensures SetBits(SetBloomBit(r, idx)) == SetBits(r) + {idx}
  {
    forall j: nat | j < 8 * |r| ensures ValueBit(SetBloomBit(r, idx), j) <==> ValueBit(r, j) || j == idx {
      SetBloomBitAt(r, idx, j);
    }
  }

  lemma SetBloomBitAt(r: seq<bv8>, idx: nat, j: nat)
    requires idx < 8 * |r| && j < 8 * |r|
    ensures ValueBit(SetBloomBit(r, idx), j) <==> ValueBit(r, j) || j == idx
  {
    ValueBitByte(r, j);
    ValueBitByte(SetBloomBit(r, idx), j);
    if j / 8 == idx / 8 {
      SetBloomBitSameByte(r, idx, j);
    } else {
      assert SetBloomBit(r, idx)[|r| - 1 - j / 8] == r[|r| - 1 - j / 8];
    }
  }

  lemma SetBloomBitSameByte(r: seq<bv8>, idx: nat, j: nat)
    requires idx < 8 * |r| && j < 8 * |r| && j / 8 == idx / 8
    ensures var k := |r| - 1 - j / 8;
      SetBloomBit(r, idx)[k] & MsbMask(7 - j % 8) != 0 <==> r[k] & MsbMask(7 - j % 8) != 0 || j == idx
  {
    var k := |r| - 1 - j / 8;
    assert SetBloomBit(r, idx)[k] == r[k] | ((1 as bv8) << (idx % 8));
    ByteSetBit(r[k], idx % 8, j % 8);
    SamePosition(j, idx);
  }

  lemma SamePosition(j: nat, idx: nat)
    requires j / 8 == idx / 8
    ensures j % 8 == idx % 8 <==> j == idx
  {
    assert j == 8 * (j / 8) + j % 8 && idx == 8 * (idx / 8) + idx % 8;
  }

  /** Setting the bits of a list adds exactly the list's elements. */
  lemma {:induction false} SetBloomBitsBits(r: seq<bv8>, l: seq<nat>)
    requires forall i :: 0 <= i < |l| ==> l[i] < 8 * |r|
    ensures SetBits(SetBloomBits(r, l)) == SetBits(r) + Elements(l)
  {
    if |l| > 0 {
      var init := l[..|l| - 1];
      SetBloomBitsBits(r, init);
      SetBloomBitBits(SetBloomBits(r, init), l[|l| - 1]);
      assert l == init + [l[|l| - 1]];
    }
  }

  /** The distinct entries of a list. */
  function Elements(l: seq<nat>): set<nat>
  {
    set x | x in l
  }

  /** A list has at most as many distinct elements as entries. */
  lemma {:induction false} ElementsAtMostLength(l: seq<nat>)
    ensures |Elements(l)| <= |l|
  {
    if |l| > 0 {
      var init, last := l[..|l| - 1], l[|l| - 1];
      ElementsAtMostLength(init);
      assert l == init + [last];
      assert Elements(l) == Elements(init) + {last};
      if last !in Elements(init) {
        assert |Elements(init) + {last}| == |Elements(init)| + 1;
      } else {
        assert Elements(l) == Elements(init);
      }
    }
  }

  lemma NoBitsInZeros(m: nat)
    ensures SetBits(Zeros(m)) == {}
  {
    forall j: nat | j < 8 * m ensures !ValueBit(Zeros(m), j) {
      ValueBitByte(Zeros(m), j);
    }
  }

  /** The 1-bits of bloomPart<P, M> are exactly its P indices, so at most P bits are set;
      each index i sits at bit i % 8 of byte M - 1 - i / 8. */
  lemma BloomProjectionBits(s: seq<bv8>, p: nat, m: nat)
    requires BloomParams(|s|, p, m)
    ensures SetBits(BloomProjection(s, p, m)) == Elements(BloomIndexList(s, p, m))
    ensures |SetBits(BloomProjection(s, p, m))| <= p
  {
    var l := BloomIndexList(s, p, m);
    NoBitsInZeros(m);
    SetBloomBitsBits(Zeros(m), l);
    ElementsAtMostLength(l);
  }

  /** bloomPart reads only the first P * c_bloomBytes bytes of the hash: two hashes that agree
      on those bytes have the same projection. */
  lemma BloomProjectionPrefix(s: seq<bv8>, u: seq<bv8>, p: nat, m: nat)
    requires BloomParams(|s|, p, m) && BloomParams(|u|, p, m)
    requires forall j :: 0 <= j < p * BloomBytes(m) ==> s[j] == u[j]
    ensures BloomProjection(s, p, m) == BloomProjection(u, p, m)
  {
    var k := p * BloomBytes(m);
    IndexListsAgree(s, u, p, m, k);
    assert BloomIndexList(s, p, m) == BloomIndexList(u, p, m);
  }

  lemma {:induction false} IndexListsAgree(s: seq<bv8>, u: seq<bv8>, p: nat, m: nat, k: nat)
    requires BloomParams(|s|, p, m) && BloomParams(|u|, p, m)
    requires p * BloomBytes(m) <= k <= |s| && k <= |u|
    requires forall j :: 0 <= j < k ==> s[j] == u[j]
    ensures BloomIndexList(s, p, m) == BloomIndexList(u, p, m)
  {
    if p > 0 {
      var i := p - 1;
      BloomParamsFewer(|s|, i, p, m);
      BloomParamsFewer(|u|, i, p, m);
      IndexListsAgree(s, u, i, m, k);
      BloomIndexAgree(s, u, i, m, k);
    }
  }

  lemma BloomIndexAgree(s: seq<bv8>, u: seq<bv8>, i: nat, m: nat, k: nat)
    requires m >= 1 && (i + 1) * BloomBytes(m) <= k <= |s| && k <= |u|
    requires forall j :: 0 <= j < k ==> s[j] == u[j]
    ensures BloomIndex(s, i, m) == BloomIndex(u, i, m)
  {
    var b := BloomBytes(m);
    var lo, hi := i * b, (i + 1) * b;
    MulMonotone(i, i + 1, b);
    SlicesAgree(s, u, lo, hi, k);
    assert BloomIndex(s, i, m) == BigEndianValue(s[lo..hi]) % (8 * m);
    assert BloomIndex(u, i, m) == BigEndianValue(u[lo..hi]) % (8 * m);
  }

  lemma SlicesAgree(s: seq<bv8>, u: seq<bv8>, lo: nat, hi: nat, k: nat)
    requires lo <= hi <= k <= |s| && k <= |u|
    requires forall j :: 0 <= j < k ==> s[j] == u[j]
    ensures s[lo..hi] == u[lo..hi]
  {
    assert forall j :: 0 <= j < hi - lo ==> s[lo..hi][j] == s[lo + j] && u[lo..hi][j] == u[lo + j];
  }
}
