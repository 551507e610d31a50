/** The integer/bit-string conversions the codec borrows from Python's
    builtins: `int(bits, 2)`, `bin(n)`, `str.zfill`, `format(n, "08b")` and the
    hex round trip behind `int2bytes`. Binary strings of '0'/'1' characters are
    modelled directly as sequences of bits. */
module Binary {
  import opened Common

  function Pow2(k: nat): (r: nat)
    ensures r >= 1
  {
    if k == 0 then 1 else 2 * Pow2(k - 1)
  }

  lemma {:induction false} Pow2Strict(i: nat, j: nat)
    requires i < j
    ensures Pow2(i) < Pow2(j)
    decreases j
  {
    if i < j - 1 {
      Pow2Strict(i, j - 1);
    }
  }

  /** `int(bits, 2)` for a non-empty string: the big-endian value of the bits. */
  function Value(bits: seq<Bit>): nat
  {
    if bits == [] then 0 else 2 * Value(bits[..|bits| - 1]) + bits[|bits| - 1]
  }

  /** A run of k zero bits. */
  function Zeros(k: nat): (r: seq<Bit>)
    ensures |r| == k && forall j :: 0 <= j < k ==> r[j] == 0
  {
    seq(k, _ => 0)
  }

  lemma {:induction false} ValueAppend(a: seq<Bit>, b: seq<Bit>)
    ensures Value(a + b) == Value(a) * Pow2(|b|) + Value(b)
    decreases |b|
  {
    if b == [] {
      assert a + b == a;
    } else {
      var b' := b[..|b| - 1];
      var x := b[|b| - 1];
      assert (a + b)[..|a + b| - 1] == a + b' && (a + b)[|a + b| - 1] == x;
      ValueAppend(a, b');
      assert Value(a + b) == 2 * Value(a + b') + x;
      assert Value(b) == 2 * Value(b') + x;
      assert Pow2(|b|) == 2 * Pow2(|b'|);
      ShiftDistributes(Value(a), Pow2(|b'|), Value(b'), x);
    }
  }

  /** Appending one bit doubles what came before: the arithmetic step of
      ValueAppend. */
  lemma ShiftDistributes(va: int, p: int, vb: int, x: int)
    ensures 2 * (va * p + vb) + x == va * (2 * p) + (2 * vb + x)
  {
  }

  lemma {:induction false} ValueBound(s: seq<Bit>)
    ensures Value(s) < Pow2(|s|)
    decreases |s|
  {
    if s != [] {
      ValueBound(s[..|s| - 1]);
    }
  }

  lemma {:induction false} ValueOfZeros(k: nat)
    ensures Value(Zeros(k)) == 0
  {
    if k > 0 {
      assert Zeros(k)[..k - 1] == Zeros(k - 1);
      ValueOfZeros(k - 1);
    }
  }

  /** A bit string that starts with 1 is worth at least the weight of that bit. */
  lemma LeadingOne(s: seq<Bit>)
    requires s != [] && s[0] == 1
    ensures Pow2(|s| - 1) <= Value(s)
  {
    assert s == [1] + s[1..];
    ValueAppend([1], s[1..]);
    assert [1][..0] == [];
  }

  /** Two bit strings of one length and one value are the same string. */
  lemma {:induction false} ValueInjective(a: seq<Bit>, b: seq<Bit>)
    requires |a| == |b| && Value(a) == Value(b)
    ensures a == b
    decreases |a|
  {
    if a != [] {
      var n := |a|;
      assert a[n - 1] == b[n - 1] && Value(a[..n - 1]) == Value(b[..n - 1]);
      ValueInjective(a[..n - 1], b[..n - 1]);
      assert a == a[..n - 1] + [a[n - 1]] && b == b[..n - 1] + [b[n - 1]];
    }
  }

  /** `bin(n)[2:]`: the binary digits of n without leading zeros ("0" for 0). */
  function BinaryDigits(n: nat): (r: seq<Bit>)
    ensures |r| >= 1 && Value(r) == n
    ensures n >= 1 ==> r[0] == 1
  {
    if n < 2 then [n]
    else
      var r := BinaryDigits(n / 2) + [n % 2];
      assert r[..|r| - 1] == BinaryDigits(n / 2);
      r
  }

  /** The digits of a positive n are as many as its binary magnitude. */
  lemma BinaryDigitsLength(n: nat, k: nat)
    requires 1 <= n
    ensures Pow2(|BinaryDigits(n)| - 1) <= n < Pow2(|BinaryDigits(n)|)
    ensures Pow2(k) <= n ==> k < |BinaryDigits(n)|
    ensures n < Pow2(k) ==> |BinaryDigits(n)| <= k
  {
    var d := BinaryDigits(n);
    LeadingOne(d);
    ValueBound(d);
    if Pow2(k) <= n && |d| <= k {
      if |d| < k { Pow2Strict(|d|, k); }
    }
    if n < Pow2(k) && k < |d| {
      if k < |d| - 1 { Pow2Strict(k, |d| - 1); }
    }
  }

  /** `str.zfill(w)` on a binary string: left-pad with zeros to width w. */
  function ZFill(s: seq<Bit>, w: nat): (r: seq<Bit>)
    ensures |r| == Max(|s|, w) && Value(r) == Value(s)
    ensures |s| < w ==> r == Zeros(w - |s|) + s
    ensures |s| >= w ==> r == s
  {
    if |s| >= w then s
    else
      ValueAppend(Zeros(w - |s|), s);
      ValueOfZeros(w - |s|);
      Zeros(w - |s|) + s
  }

  /** `format(n, "08b")`: the binary digits of n, padded to at least 8. */
  function Binary08(n: nat): (r: seq<Bit>)
    ensures Value(r) == n
    ensures |r| >= 8
    ensures n < 256 ==> |r| == 8
  {
    var r := ZFill(BinaryDigits(n), 8);
    if n >= 1 then BinaryDigitsLength(n, 8); r else r
  }

  /** The eight bits of one byte, most significant first. */
  function ByteBits(b: Byte): (r: seq<Bit>)
    ensures |r| == 8 && Value(r) == b
  {
    Binary08(b)
  }

  /** The bits of a byte string, eight per byte, in order. */
  function BytesBits(bytes: seq<Byte>): (r: seq<Bit>)
    ensures |r| == 8 * |bytes|
  {
    if bytes == [] then [] else BytesBits(bytes[..|bytes| - 1]) + ByteBits(bytes[|bytes| - 1])
  }

  lemma {:induction false} BytesBitsAppend(a: seq<Byte>, b: seq<Byte>)
    ensures BytesBits(a + b) == BytesBits(a) + BytesBits(b)
    decreases |b|
  {
    if b == [] {
      assert a + b == a;
    } else {
      var init := b[..|b| - 1];
      var last := b[|b| - 1];
      assert a + b == (a + init) + [last];
      assert (a + b)[..|a + b| - 1] == a + init;
      BytesBitsAppend(a, init);
      calc {
        BytesBits(a + b);
        BytesBits(a + init) + ByteBits(last);
        (BytesBits(a) + BytesBits(init)) + ByteBits(last);
        BytesBits(a) + (BytesBits(init) + ByteBits(last));
      }
    }
  }

  /** Byte k of a byte string occupies bits 8k to 8k+8 of its bit string. */
  lemma {:induction false} BytesBitsAt(bytes: seq<Byte>, k: nat)
    requires k < |bytes|
    ensures BytesBits(bytes)[8 * k..8 * k + 8] == ByteBits(bytes[k])
  {
    assert bytes == bytes[..k] + [bytes[k]] + bytes[k + 1..];
    BytesBitsAppend(bytes[..k] + [bytes[k]], bytes[k + 1..]);
    BytesBitsAppend(bytes[..k], [bytes[k]]);
    assert [bytes[k]][..0] == [];
  }

  /** The big-endian value of a byte string: `int(hexlify(bytes), 16)`. */
  function BytesValue(bytes: seq<Byte>): nat
  {
    if bytes == [] then 0 else 256 * BytesValue(bytes[..|bytes| - 1]) + bytes[|bytes| - 1]
  }

  lemma {:induction false} BytesBitsValue(bytes: seq<Byte>)
    ensures Value(BytesBits(bytes)) == BytesValue(bytes)
    decreases |bytes|
  {
    if bytes != [] {
      var init := bytes[..|bytes| - 1];
      BytesBitsValue(init);
      ValueAppend(BytesBits(init), ByteBits(bytes[|bytes| - 1]));
      assert Pow2(8) == 256;
    }
  }

  /** A bit string whose value is not zero, followed by b, is worth at least the
      weight of b's length. */
  lemma NonzeroPrefix(a: seq<Bit>, b: seq<Bit>)
    requires Value(a) >= 1
    ensures Pow2(|b|) <= Value(a + b)
  {
    ValueAppend(a, b);
    MulAtLeast(Value(a), Pow2(|b|));
  }

  lemma MulAtLeast(v: int, w: int)
    requires v >= 1 && w >= 0
    ensures v * w >= w
  {
  }

  /** A byte string whose first byte is not zero has the magnitude of its length. */
  lemma BytesValueRange(bytes: seq<Byte>)
    requires bytes != [] && bytes[0] != 0
    ensures Pow2(8 * |bytes| - 8) <= BytesValue(bytes) < Pow2(8 * |bytes|)
  {
    var all := BytesBits(bytes);
    BytesBitsValue(bytes);
    ValueBound(all);
    var rest := bytes[1..];
    assert bytes == [bytes[0]] + rest;
    BytesBitsAppend([bytes[0]], rest);
    assert [bytes[0]][..0] == [];
    assert BytesBits([bytes[0]]) == ByteBits(bytes[0]);
    NonzeroPrefix(ByteBits(bytes[0]), BytesBits(rest));
  }

  /** `int2bytes(n)`: `'%x' % n`, padded to an even number of hex digits and
      unhexlified, i.e. the shortest big-endian byte string worth n (one zero
      byte for n = 0). */
  function IntToBytes(n: nat): (r: seq<Byte>)
    ensures |r| >= 1 && BytesValue(r) == n
    ensures |r| == 1 || r[0] != 0
  {
    if n < 256 then [n]
    else
      var r := IntToBytes(n / 256) + [n % 256];
      assert r[..|r| - 1] == IntToBytes(n / 256);
      r
  }

  lemma {:induction false} BytesValuePositive(bytes: seq<Byte>)
    requires bytes != [] && bytes[0] != 0
    ensures BytesValue(bytes) >= 1
    decreases |bytes|
  {
    if |bytes| > 1 {
      BytesValuePositive(bytes[..|bytes| - 1]);
    }
  }

  /** `int2bytes` inverts the value of any byte string without a leading zero
      byte. */
  lemma {:induction false} IntToBytesOfBytesValue(bytes: seq<Byte>)
    requires bytes != [] && (|bytes| == 1 || bytes[0] != 0)
    ensures IntToBytes(BytesValue(bytes)) == bytes
    decreases |bytes|
  {
    if |bytes| > 1 {
      var init := bytes[..|bytes| - 1];
      BytesValuePositive(init);
      IntToBytesOfBytesValue(init);
      assert bytes == init + [bytes[|bytes| - 1]];
    }
  }
}
