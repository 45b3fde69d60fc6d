/** The free helpers `toBigEndian` and `fromBigEndian`: an unsigned integer written into, and read
    back from, a byte buffer whose byte 0 is the most significant. Integers are `nat`: the C++
    template accepts any unsigned type or `bigint`; a negative `bigint` is not modelled.
    `toBigEndian` only shifts its
    argument right, so no width is needed there; `fromBigEndian` takes the width of its result
    type in bytes. */
module BigEndian {

  /** 256^n: one more than the largest value an n-byte buffer holds. */
  function Pow256(n: nat): (r: nat)
    ensures r >= 1
  {
    if n == 0 then 1 else 256 * Pow256(n - 1)
  }

  /** n zero bytes. */
  function Zeros(n: nat): (r: seq<bv8>)
    ensures |r| == n && forall i :: 0 <= i < n ==> r[i] == 0
  {
    seq(n, i => 0)
  }

  /** The integer a byte buffer denotes: the fold `ret = (ret << 8) | b` over the bytes in order. */
  function BigEndianValue(s: seq<bv8>): (r: nat)
    ensures r < Pow256(|s|)
  {
    if |s| == 0 then 0
    else
      var hi := BigEndianValue(s[..|s| - 1]);
      DigitBound(hi, s[|s| - 1] as nat, Pow256(|s| - 1));
      hi * 256 + s[|s| - 1] as nat
  }

  lemma DigitBound(hi: nat, d: nat, p: nat)
    requires hi < p && d < 256
    ensures hi * 256 + d < 256 * p
  {
  }

  /** The `len` bytes `toBigEndian` leaves in a buffer of length `len`: the last byte is the low
      byte of `v`, and each earlier byte is taken from `v` shifted right by 8 once more. */
  function BigEndianBytes(v: nat, len: nat): (r: seq<bv8>)
    ensures |r| == len
  {
    if len == 0 then [] else BigEndianBytes(v / 256, len - 1) + [(v % 256) as bv8]
  }

  /** Euclidean division is determined by its quotient and remainder. */
  lemma DivModUnique(v: nat, m: nat, q: nat, r: nat)
    requires 0 <= r < m && v == q * m + r
    ensures v / m == q && v % m == r
  {
    var q', r' := v / m, v % m;
    if q' < q {
      MulMonotone(q' + 1, q, m);
    } else if q < q' {
      MulMonotone(q + 1, q', m);
    }
  }

  lemma MulMonotone(a: nat, b: nat, m: nat)
    requires a <= b
    ensures a * m <= b * m
  {
  }

  /** A wider buffer holds larger values. */
  lemma {:induction false} Pow256Monotone(m: nat, n: nat)
    requires m <= n
    ensures Pow256(m) <= Pow256(n)
  {
    if m < n {
      Pow256Monotone(m, n - 1);
    }
  }

  /** Reading back what `toBigEndian` wrote yields the value modulo 256^len: high bytes are
      truncated when the buffer is too small, leading zero bytes added when it is too big. */
  lemma {:induction false} ValueOfBytes(v: nat, len: nat)
    ensures BigEndianValue(BigEndianBytes(v, len)) == v % Pow256(len)
  {
    if len > 0 {
      var init := BigEndianBytes(v / 256, len - 1);
      var last := (v % 256) as bv8;
      ValueOfSnoc(init, last);
      ByteRoundTrip(v % 256);
      ValueOfBytes(v / 256, len - 1);
      ModOfShifted(v, Pow256(len - 1));
    }
  }

  /** Appending a byte shifts the value left by 8 and adds the byte. */
  lemma ValueOfSnoc(init: seq<bv8>, b: bv8)
    ensures BigEndianValue(init + [b]) == BigEndianValue(init) * 256 + b as nat
  {
    assert (init + [b])[..|init|] == init;
  }

  lemma ByteRoundTrip(x: nat)
    requires x < 256
    ensures (x as bv8) as nat == x
  {
    assert x % 256 == x;
  }

  /** (v / 256 mod p) * 256 + v mod 256 == v mod 256p: a remainder assembled digit by digit. */
  lemma ModOfShifted(v: nat, p: nat)
    requires p >= 1
    ensures ((v / 256) % p) * 256 + v % 256 == v % (256 * p)
  {
    var q := v / 256;
    var a, b, c := q / p, q % p, v % 256;
    assert q == a * p + b;
    assert v == 256 * q + c;
    assert v == a * (256 * p) + (b * 256 + c);
    MulMonotone(b, p - 1, 256);
    DivModUnique(v, 256 * p, a, b * 256 + c);
  }

  /** Writing a buffer's value back into a buffer of the same length gives the buffer. */
  lemma {:induction false} BytesOfValue(s: seq<bv8>)
    ensures BigEndianBytes(BigEndianValue(s), |s|) == s
  {
    if |s| > 0 {
      var init := s[..|s| - 1];
      var v := BigEndianValue(s);
      DivModUnique(v, 256, BigEndianValue(init), s[|s| - 1] as nat);
      BytesOfValue(init);
      assert s == init + [s[|s| - 1]];
    }
  }

  /** Two buffers of equal length that denote the same integer are the same buffer. */
  lemma ValueInjective(a: seq<bv8>, b: seq<bv8>)
    requires |a| == |b|
    ensures BigEndianValue(a) == BigEndianValue(b) <==> a == b
  {
    if BigEndianValue(a) == BigEndianValue(b) {
      BytesOfValue(a);
      BytesOfValue(b);
    }
  }

  /** Concatenation: the high part is shifted left by the length of the low part. */
  lemma {:induction false} ValueOfConcat(a: seq<bv8>, b: seq<bv8>)
    ensures BigEndianValue(a + b) == BigEndianValue(a) * Pow256(|b|) + BigEndianValue(b)
  {
    if |b| > 0 {
      var b' := b[..|b| - 1];
      assert (a + b)[..|a + b| - 1] == a + b';
      ValueOfConcat(a, b');
      assert BigEndianValue(b) == BigEndianValue(b') * 256 + b[|b| - 1] as nat;
      assert BigEndianValue(a + b) == BigEndianValue(a + b') * 256 + b[|b| - 1] as nat;
      ShiftDistributes(BigEndianValue(a), Pow256(|b'|), BigEndianValue(b'), b[|b| - 1] as nat);
    } else {
      assert a + b == a;
    }
  }

  lemma ShiftDistributes(x: nat, p: nat, y: nat, c: nat)
    ensures (x * p + y) * 256 + c == x * (256 * p) + (y * 256 + c)
  {
  }

  /** A buffer is zero as an integer exactly when every byte is zero. */
  lemma {:induction false} ValueZeroIff(s: seq<bv8>)
    ensures BigEndianValue(s) == 0 <==> forall i :: 0 <= i < |s| ==> s[i] == 0
  {
    if |s| > 0 {
      var init := s[..|s| - 1];
      ValueZeroIff(init);
      if BigEndianValue(s) == 0 {
        forall i | 0 <= i < |s| ensures s[i] == 0 {
          if i < |s| - 1 { assert s[i] == init[i]; }
        }
      }
    }
  }

  /** The value of n zero bytes is zero; leading zero bytes do not change a value. */
  lemma ValueOfZeros(n: nat, s: seq<bv8>)
    ensures BigEndianValue(Zeros(n)) == 0
    ensures BigEndianValue(Zeros(n) + s) == BigEndianValue(s)
  {
    ValueZeroIff(Zeros(n));
    ValueOfConcat(Zeros(n), s);
  }

  /** Byte i of a buffer is digit |s|-1-i of its value in base 256. */
  lemma ByteIsDigit(s: seq<bv8>, i: nat)
    requires i < |s|
    ensures s[i] as nat == (BigEndianValue(s) / Pow256(|s| - 1 - i)) % 256
  {
    var hi := s[..i + 1];
    HighPart(s, i + 1);
    LowDigit(hi);
    assert hi[i] == s[i];
  }

  /** Dropping the last |s| - k bytes divides the value by 256^(|s| - k). */
  lemma HighPart(s: seq<bv8>, k: nat)
    requires k <= |s|
    ensures BigEndianValue(s) / Pow256(|s| - k) == BigEndianValue(s[..k])
  {
    var hi, lo := s[..k], s[k..];
    assert s == hi + lo;
    ValueOfConcat(hi, lo);
    DivModUnique(BigEndianValue(s), Pow256(|lo|), BigEndianValue(hi), BigEndianValue(lo));
  }

  /** The last byte is the value's lowest base-256 digit. */
  lemma LowDigit(h: seq<bv8>)
    requires |h| > 0
    ensures BigEndianValue(h) % 256 == h[|h| - 1] as nat
  {
    DivModUnique(BigEndianValue(h), 256, BigEndianValue(h[..|h| - 1]), h[|h| - 1] as nat);
  }

  /** toBigEndian: fills the whole buffer, last byte first, shifting the value right by 8 after
      each byte. The buffer keeps its length. */
  method ToBigEndian(val: nat, out: array<bv8>)
    modifies out
    ensures out[..] == BigEndianBytes(val, out.Length)
    ensures BigEndianValue(out[..]) == val % Pow256(out.Length)
  {
    var v := val;
    var i := out.Length;
    while i != 0
      invariant 0 <= i <= out.Length
      invariant BigEndianBytes(val, out.Length) == BigEndianBytes(v, i) + out[i..]
    {
      ghost var rest := out[i..];
      var b := (v % 256) as bv8;
      BytesStep(v, i, rest);
      out[i - 1] := b;
      assert out[i - 1..] == [b] + rest;
      v := v / 256;
      i := i - 1;
    }
    assert out[0..] == out[..];
    ValueOfBytes(val, out.Length);
  }

  /** One iteration of toBigEndian: the low byte of v moves from the value to the buffer. */
  lemma BytesStep(v: nat, i: nat, rest: seq<bv8>)
    requires i >= 1
    ensures BigEndianBytes(v, i) + rest == BigEndianBytes(v / 256, i - 1) + ([(v % 256) as bv8] + rest)
  {
    assert BigEndianBytes(v, i) == BigEndianBytes(v / 256, i - 1) + [(v % 256) as bv8];
  }

  /** Shifting a byte into a value kept modulo p: reducing before the shift gives the same
      remainder as reducing after it. */
  lemma ModShiftIn(x: nat, b: nat, p: nat)
    requires p >= 1
    ensures ((x % p) * 256 + b) % p == (x * 256 + b) % p
  {
    var q, r := x / p, x % p;
    var y := r * 256 + b;
    var yq, yr := y / p, y % p;
    Regroup(x, q, p, r, b, yq, yr);
    DivModUnique(x * 256 + b, p, q * 256 + yq, yr);
  }

  lemma Regroup(x: nat, q: nat, p: nat, r: nat, b: nat, yq: nat, yr: nat)
    requires x == q * p + r && r * 256 + b == yq * p + yr
    ensures x * 256 + b == (q * 256 + yq) * p + yr
  {
    assert x * 256 == (q * 256) * p + r * 256;
  }

  /** fromBigEndian<T>: folds the bytes, most significant first, into a T of `width` bytes. Each
      `(ret << 8) | b` is computed in T, so a buffer longer than T keeps only its low `width`
      bytes; when T is wide enough (as `Arith` is for the N bytes of a hash) nothing is lost. */
  method FromBigEndian(bytes: seq<bv8>, width: nat) returns (ret: nat)
    ensures ret == BigEndianValue(bytes) % Pow256(width)
    ensures width >= |bytes| ==> ret == BigEndianValue(bytes)
  {
    var p := Pow256(width);
    ret := 0;
    var i := 0;
    assert bytes[..0] == [];
    DivModUnique(0, p, 0, 0);
    while i < |bytes|
      invariant 0 <= i <= |bytes|
      invariant ret == BigEndianValue(bytes[..i]) % p
    {
      ghost var hi := BigEndianValue(bytes[..i]);
      assert bytes[..i + 1] == bytes[..i] + [bytes[i]];
      ValueOfSnoc(bytes[..i], bytes[i]);
      ModShiftIn(hi, bytes[i] as nat, p);
      var next := ret * 256 + bytes[i] as nat;
      assert next == (hi % p) * 256 + bytes[i] as nat;
      ret := next % p;
      assert ret == BigEndianValue(bytes[..i + 1]) % p;
      i := i + 1;
    }
    assert bytes[..i] == bytes;
    if width >= |bytes| {
      Pow256Monotone(|bytes|, width);
      DivModUnique(BigEndianValue(bytes), p, 0, BigEndianValue(bytes));
    }
  }
}
