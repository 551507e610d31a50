/** The transmitting link layer (camada_enlace.py): text to bits, the three
    framers, the two error-detecting codes, the Hamming(12,8) correcting code,
    and the fixed order in which `main` applies them. */
module LinkEncoder {
  import opened Common
  import opened Binary

  // ---------------------------------------------------------------------------
  // Text to bits
  // ---------------------------------------------------------------------------

  /** The UTF-8 encoding of one character. */
  function Utf8(c: char): (r: seq<Byte>)
    ensures 1 <= |r| <= 4
    ensures c as int < 128 ==> r == [c as int]
    ensures c as int >= 128 ==> forall k :: 0 <= k < |r| ==> r[k] >= 128
  {
    var n := c as int;
    if n < 0x80 then [n]
    else if n < 0x800 then [0xC0 + n / 64, 0x80 + n % 64]
    else if n < 0x10000 then [0xE0 + n / 4096, 0x80 + (n / 64) % 64, 0x80 + n % 64]
    else [0xF0 + n / 0x40000, 0x80 + (n / 4096) % 64, 0x80 + (n / 64) % 64, 0x80 + n % 64]
  }

  /** `text.encode("utf-8")`. */
  function Utf8Encode(text: string): (r: seq<Byte>)
    ensures |r| >= |text|
  {
    if text == [] then [] else Utf8Encode(text[..|text| - 1]) + Utf8(text[|text| - 1])
  }

  predicate IsAscii(text: string)
  {
    forall k :: 0 <= k < |text| ==> text[k] as int < 128
  }

  /** The character codes of an ASCII text. */
  function AsciiCodes(text: string): (r: seq<Byte>)
    requires IsAscii(text)
    ensures |r| == |text| && forall k :: 0 <= k < |text| ==> r[k] == text[k] as int
  {
    seq(|text|, k requires 0 <= k < |text| => text[k] as int)
  }

  lemma {:induction false} Utf8EncodeAscii(text: string)
    requires IsAscii(text)
    ensures Utf8Encode(text) == AsciiCodes(text)
    decreases |text|
  {
    if text != [] {
      var init := text[..|text| - 1];
      Utf8EncodeAscii(init);
      assert AsciiCodes(text) == AsciiCodes(init) + [text[|text| - 1] as int];
    }
  }

  /** The bytes read as one big-endian integer, written in binary and
      zero-filled to a whole number of bytes; leading zero bytes are lost. */
  function PackedBits(bytes: seq<Byte>): (r: seq<Bit>)
    ensures |r| % 8 == 0 && |r| >= 8
    ensures Value(r) == BytesValue(bytes)
  {
    var digits := BinaryDigits(BytesValue(bytes));
    ZFill(digits, 8 * ((|digits| + 7) / 8))
  }

  /** `text_to_bits`: the UTF-8 bytes of the text, packed as above. The empty
      text makes `int(b"", 16)` raise. */
  function TextToBits(text: string): (r: Result<seq<Bit>>)
    ensures r.Err? <==> text == []
    ensures r.Err? ==> r.error == ValueError
    ensures r.Ok? ==> |r.value| % 8 == 0 && |r.value| >= 8
  {
    var bytes := Utf8Encode(text);
    if bytes == [] then Err(ValueError) else Ok(PackedBits(bytes))
  }

  /** The digit count of a byte string without a leading zero byte, rounded up
      to whole bytes, is its byte count. */
  lemma DigitsRoundUp(bytes: seq<Byte>)
    requires bytes != [] && bytes[0] != 0
    ensures (|BinaryDigits(BytesValue(bytes))| + 7) / 8 == |bytes|
  {
    var m := 8 * |bytes| - 8;
    BytesValueRange(bytes);
    DigitCountInRange(BytesValue(bytes), m);
    RoundUp(|BinaryDigits(BytesValue(bytes))|, |bytes|);
  }

  lemma DigitCountInRange(v: nat, m: nat)
    requires Pow2(m) <= v < Pow2(m + 8)
    ensures m < |BinaryDigits(v)| <= m + 8
  {
    BinaryDigitsLength(v, m);
    BinaryDigitsLength(v, m + 8);
  }

  lemma RoundUp(d: int, k: int)
    requires 8 * k - 8 < d <= 8 * k
    ensures (d + 7) / 8 == k
  {
  }

  /** The bits `text_to_bits` computes from a byte string without a leading
      zero byte are its bytes, eight bits each. */
  lemma BytesToBits(bytes: seq<Byte>)
    requires bytes != [] && bytes[0] != 0
    ensures PackedBits(bytes) == BytesBits(bytes)
  {
    DigitsRoundUp(bytes);
    var digits := BinaryDigits(BytesValue(bytes));
    var filled := ZFill(digits, 8 * |bytes|);
    BytesBitsValue(bytes);
    ValueInjective(filled, BytesBits(bytes));
  }

  /** For an ASCII text that does not start with NUL, `text_to_bits` writes
      each character as its eight-bit code. */
  lemma TextToBitsOfAscii(text: string)
    requires text != [] && IsAscii(text) && text[0] != 0 as char
    ensures TextToBits(text) == Ok(BytesBits(AsciiCodes(text)))
  {
    Utf8EncodeAscii(text);
    var bytes := Utf8Encode(text);
    assert bytes == AsciiCodes(text);
    assert bytes[0] != 0;
    BytesToBits(bytes);
  }

  // ---------------------------------------------------------------------------
  // Character count framing
  // ---------------------------------------------------------------------------

  /** The decimal digits of n, most significant first: `str(n)`. */
  function Digits(n: nat): (r: seq<nat>)
    ensures 1 <= |r|
    ensures forall k :: 0 <= k < |r| ==> r[k] < 10
    ensures n < 10 <==> |r| == 1
    ensures 10 <= n < 100 ==> r == [n / 10, n % 10]
    ensures n >= 10 ==> r[0] >= 1
  {
    if n < 10 then [n] else Digits(n / 10) + [n % 10]
  }

  /** `str(n)`. */
  function DecimalString(n: nat): (r: string)
    ensures |r| == |Digits(n)| && IsAscii(r)
  {
    seq(|Digits(n)|, k requires 0 <= k < |Digits(n)| => ('0' as int + Digits(n)[k]) as char)
  }

  /** The ASCII codes of the decimal digits of n. */
  function DigitCodes(n: nat): (r: seq<Byte>)
    ensures |r| == |Digits(n)|
    ensures forall k :: 0 <= k < |r| ==> r[k] == 48 + Digits(n)[k]
  {
    seq(|Digits(n)|, k requires 0 <= k < |Digits(n)| => 48 + Digits(n)[k])
  }

  /** `char_count`: the payload prefixed with its length in bits, written as
      ASCII decimal digits of eight bits each. */
  function CharCount(s: seq<Bit>): (r: seq<Bit>)
    ensures r == BytesBits(DigitCodes(|s|)) + s
    ensures |r| == |s| + 8 * |Digits(|s|)|
  {
    var digits := DecimalString(|s|);
    assert AsciiCodes(digits) == DigitCodes(|s|);
    TextToBitsOfAscii(digits);
    TextToBits(digits).value + s
  }

  // ---------------------------------------------------------------------------
  // Byte insertion (byte stuffing)
  // ---------------------------------------------------------------------------

  /** Does the payload hold the pattern p at some bit offset? */
  predicate HasWindow(s: seq<Bit>, p: seq<Bit>)
    requires |p| > 0
  {
    exists j :: 0 <= j < |s| && Window(s, j, |p|) == p
  }

  /** The loop of `byte_insertion` from index i on. The loop bound n is the
      length of the original payload, fixed when the loop starts, while the list
      it scans grows by an escape before every flag- or escape-valued window. */
  function ByteStuffScan(s: seq<Bit>, i: nat, n: nat): (r: seq<Bit>)
    requires n <= |s|
    ensures |s| <= |r| && (|r| - |s|) % 8 == 0
    ensures |r| == |s| + 8 * ByteStuffHits(s, i, n)
    decreases n - i
  {
    if i >= n then s
    else if Window(s, i, 8) == Flag || Window(s, i, 8) == Escape then
      ByteStuffScan(s[..i] + Escape + s[i..], i + 1, n)
    else
      ByteStuffScan(s, i + 1, n)
  }

  /** How many times the loop of `byte_insertion`, from index i on, finds a
      flag- or escape-valued window, each time in the list as grown so far. */
  function ByteStuffHits(s: seq<Bit>, i: nat, n: nat): nat
    requires n <= |s|
    decreases n - i
  {
    if i >= n then 0
    else if Window(s, i, 8) == Flag || Window(s, i, 8) == Escape then
      1 + ByteStuffHits(s[..i] + Escape + s[i..], i + 1, n)
    else
      ByteStuffHits(s, i + 1, n)
  }

  /** Skipping windows that are neither the flag nor the escape. */
  lemma {:induction false} ByteStuffScanSkip(s: seq<Bit>, i: nat, m: nat, n: nat)
    requires i <= m <= n <= |s|
    requires forall j :: i <= j < m ==> Window(s, j, 8) != Flag && Window(s, j, 8) != Escape
    ensures ByteStuffScan(s, i, n) == ByteStuffScan(s, m, n)
    decreases m - i
  {
    if i < m {
      ByteStuffScanSkip(s, i + 1, m, n);
    }
  }

  /** What `byte_insertion` returns. */
  function ByteStuffed(s: seq<Bit>): seq<Bit>
  {
    Flag + ByteStuffScan(s, 0, |s|) + Flag
  }

  /** `byte_insertion`. */
  method ByteInsertion(s: seq<Bit>) returns (r: seq<Bit>)
    ensures r == ByteStuffed(s)
  {
    var t := s;
    for i := 0 to |s|
      invariant |s| <= |t|
      invariant ByteStuffScan(t, i, |s|) == ByteStuffScan(s, 0, |s|)
    {
      if Window(t, i, 8) == Flag || Window(t, i, 8) == Escape {
        t := t[..i] + Escape + t[i..];
      }
    }
    r := Flag + t + Flag;
  }

  /** Byte stuffing frames with a flag at each end and adds whole bytes. */
  lemma ByteStuffedShape(s: seq<Bit>)
    ensures var r := ByteStuffed(s);
      |r| >= |s| + 16 && (|r| - |s|) % 8 == 0 && r[..8] == Flag && r[|r| - 8..] == Flag
  {
  }

  lemma {:induction false} ByteStuffScanUntouched(s: seq<Bit>, i: nat, n: nat)
    requires n <= |s|
    requires forall j :: i <= j < n ==> Window(s, j, 8) != Flag && Window(s, j, 8) != Escape
    ensures ByteStuffScan(s, i, n) == s
    decreases n - i
  {
    if i < n {
      ByteStuffScanUntouched(s, i + 1, n);
    }
  }

  /** A payload with no flag or escape at any bit offset is framed as it is. */
  lemma ByteStuffedPlain(s: seq<Bit>)
    requires !HasWindow(s, Flag) && !HasWindow(s, Escape)
    ensures ByteStuffed(s) == Flag + s + Flag
  {
    ByteStuffScanUntouched(s, 0, |s|);
  }

  // ---------------------------------------------------------------------------
  // Bit insertion ("char_insertion")
  // ---------------------------------------------------------------------------

  /** The loop of `char_insertion` from index i on: every flag-valued window
      becomes `011111010`, one bit longer; the loop bound n is the original
      payload length. */
  function CharStuffScan(s: seq<Bit>, i: nat, n: nat): (r: seq<Bit>)
    requires n <= |s|
    ensures |s| <= |r| <= |s| + Max(0, n - i)
    ensures |r| == |s| + CharStuffHits(s, i, n)
    decreases n - i
  {
    if i >= n then s
    else if Window(s, i, 8) == Flag then
      CharStuffScan(s[..i] + StuffedFlag + s[i + 8..], i + 1, n)
    else
      CharStuffScan(s, i + 1, n)
  }

  /** How many flag-valued windows the loop of `char_insertion` replaces from
      index i on: at most one per index scanned. */
  function CharStuffHits(s: seq<Bit>, i: nat, n: nat): (k: nat)
    requires n <= |s|
    ensures k <= Max(0, n - i)
    decreases n - i
  {
    if i >= n then 0
    else if Window(s, i, 8) == Flag then
      1 + CharStuffHits(s[..i] + StuffedFlag + s[i + 8..], i + 1, n)
    else
      CharStuffHits(s, i + 1, n)
  }

  /** What `char_insertion` returns. */
  function CharStuffed(s: seq<Bit>): seq<Bit>
  {
    Flag + CharStuffScan(s, 0, |s|) + Flag
  }

  /** `char_insertion`. */
  method CharInsertion(s: seq<Bit>) returns (r: seq<Bit>)
    ensures r == CharStuffed(s)
  {
    var framed := Flag;
    var t := s;
    for i := 0 to |s|
      invariant |s| <= |t|
      invariant CharStuffScan(t, i, |s|) == CharStuffScan(s, 0, |s|)
    {
      if Window(t, i, 8) == Flag {
        t := t[..i] + StuffedFlag + t[i + 8..];
      }
    }
    framed := framed + t;
    r := framed + Flag;
  }

  /** Bit stuffing frames with a flag at each end and adds at most one bit per
      payload bit. */
  lemma CharStuffedShape(s: seq<Bit>)
    ensures var r := CharStuffed(s);
      |s| + 16 <= |r| <= 2 * |s| + 16 && r[..8] == Flag && r[|r| - 8..] == Flag
  {
  }

  lemma {:induction false} CharStuffScanUntouched(s: seq<Bit>, i: nat, n: nat)
    requires n <= |s|
    requires forall j :: i <= j < n ==> Window(s, j, 8) != Flag
    ensures CharStuffScan(s, i, n) == s
    decreases n - i
  {
    if i < n {
      CharStuffScanUntouched(s, i + 1, n);
    }
  }

  /** A payload with no flag at any bit offset is framed as it is. */
  lemma CharStuffedPlain(s: seq<Bit>)
    requires !HasWindow(s, Flag)
    ensures CharStuffed(s) == Flag + s + Flag
  {
    CharStuffScanUntouched(s, 0, |s|);
  }

  // ---------------------------------------------------------------------------
  // Even parity
  // ---------------------------------------------------------------------------

  /** The payload followed by its even-parity bit. */
  function WithParity(s: seq<Bit>): (r: seq<Bit>)
    ensures |r| == |s| + 1 && r[..|s|] == s
    ensures Sum(r) % 2 == 0
  {
    SumAppend(s, [Sum(s) % 2]);
    s + [Sum(s) % 2]
  }

  /** `parity_bit`: appends the parity bit to the caller's own list and returns
      that same list. */
  method ParityBit(list: MutableList<Bit>) returns (r: MutableList<Bit>)
    modifies list
    ensures r == list && list.items == WithParity(old(list.items))
  {
    list.items := list.items + [Sum(list.items) % 2];
    r := list;
  }

  // ---------------------------------------------------------------------------
  // CRC with generator 1101
  // ---------------------------------------------------------------------------

  /** The generator x^3 + x^2 + 1, highest coefficient first. */
  const Generator: seq<Bit> := [1, 1, 0, 1]

  /** (x * r(x) + b) mod g(x) for a remainder r of degree below 3: the x^3 term
      that the shift produces is replaced by x^2 + 1. */
  function ShiftIn(r: seq<Bit>, b: Bit): (r': seq<Bit>)
    requires |r| == 3
    ensures |r'| == 3
  {
    [Xor(r[0], r[1]), r[2], Xor(r[0], b)]
  }

  /** The remainder of c(x) divided by g(x) over GF(2), by Horner's rule; c's
      first element is its highest coefficient, and so is the result's. */
  function PolyMod(c: seq<Bit>): (r: seq<Bit>)
    ensures |r| == 3
  {
    if c == [] then [0, 0, 0] else ShiftIn(PolyMod(c[..|c| - 1]), c[|c| - 1])
  }

  /** The 3-bit CRC of a payload: the remainder of s(x) * x^3 by g(x). */
  function CrcRemainder(s: seq<Bit>): (r: seq<Bit>)
    ensures |r| == 3
  {
    PolyMod(s + [0, 0, 0])
  }

  /** What `crc` returns: the payload followed by its CRC. */
  function CrcCodeword(s: seq<Bit>): seq<Bit>
  {
    s + CrcRemainder(s)
  }

  /** The long division that `crc` and `decode_crc` run in place: for each of
      the first `steps` positions holding a 1, the generator is XORed in at
      that position. What is left in the last three places is the remainder of
      the whole list. */
  method DivideInPlace(w: array<Bit>, steps: nat)
    requires w.Length == steps + 3
    modifies w
    ensures w[steps..] == PolyMod(old(w[..]))
  {
    ghost var orig := w[..];
    PolyModLowTerms(0, orig[..3]);
    assert Zeros(0) + orig[..3] == orig[..3];
    for i := 0 to steps
      invariant w[i..i + 3] == PolyMod(orig[..i + 3])
      invariant forall k :: i + 3 <= k < w.Length ==> w[k] == orig[k]
    {
      ghost var before := w[..];
      if w[i] == 1 {
        XorGenerator(w, i);
      }
      DivideStep(before, w[..], i);
      assert orig[..i + 4][..i + 3] == orig[..i + 3];
    }
    assert orig[..steps + 3] == orig;
  }

  /** One step of the long division: when the leading bit is set, the
      generator is subtracted from the four bits under it, which leaves the
      remainder of the three bits and the next one shifted in. */
  lemma DivideStep(before: seq<Bit>, after: seq<Bit>, i: nat)
    requires i + 4 <= |before| == |after|
    requires forall k :: 0 <= k < |after| ==>
      after[k] == if before[i] == 1 && i <= k < i + 4 then Xor(before[k], Generator[k - i]) else before[k]
    ensures after[i + 1..i + 4] == ShiftIn(before[i..i + 3], before[i + 3])
    ensures after[i + 4..] == before[i + 4..]
  {
    assert after[i + 1..i + 4] == [after[i + 1], after[i + 2], after[i + 3]];
  }

  /** The inner loop of the division: the generator XORed into w at i. */
  method XorGenerator(w: array<Bit>, i: nat)
    requires i + 4 <= w.Length
    modifies w
    ensures forall k :: 0 <= k < w.Length ==>
      w[k] == if i <= k < i + 4 then Xor(old(w[k]), Generator[k - i]) else old(w[k])
  {
    for j := 0 to 4
      invariant forall k :: 0 <= k < w.Length ==>
        w[k] == if i <= k < i + j then Xor(old(w[k]), Generator[k - i]) else old(w[k])
    {
      w[i + j] := Xor(w[i + j], Generator[j]);
    }
  }

  /** `crc`. */
  method Crc(s: seq<Bit>) returns (r: seq<Bit>)
    ensures r == CrcCodeword(s)
  {
    var dividend := s + [0, 0, 0];
    var w := new Bit[|dividend|](k requires 0 <= k < |dividend| => dividend[k]);
    assert w[..] == dividend;
    DivideInPlace(w, |s|);
    r := s + w[|s|..];
  }

  /** The remainder of a list ending in three zeros, then XORed with t, is the
      remainder of the list ending in t. */
  function Xor3(a: seq<Bit>, b: seq<Bit>): (r: seq<Bit>)
    requires |a| == 3 && |b| == 3
    ensures |r| == 3 && forall k :: 0 <= k < 3 ==> r[k] == Xor(a[k], b[k])
  {
    [Xor(a[0], b[0]), Xor(a[1], b[1]), Xor(a[2], b[2])]
  }

  /** Bitwise XOR of two lists of one length. */
  function XorAll(a: seq<Bit>, b: seq<Bit>): (r: seq<Bit>)
    requires |a| == |b|
    ensures |r| == |a| && forall k :: 0 <= k < |a| ==> r[k] == Xor(a[k], b[k])
  {
    seq(|a|, k requires 0 <= k < |a| => Xor(a[k], b[k]))
  }

  /** The remainder is linear over GF(2). */
  lemma {:induction false} PolyModLinear(a: seq<Bit>, b: seq<Bit>)
    requires |a| == |b|
    ensures PolyMod(XorAll(a, b)) == Xor3(PolyMod(a), PolyMod(b))
    decreases |a|
  {
    if a != [] {
      var n := |a|;
      assert XorAll(a, b)[..n - 1] == XorAll(a[..n - 1], b[..n - 1]);
      PolyModLinear(a[..n - 1], b[..n - 1]);
    }
  }

  lemma {:induction false} PolyModZeros(k: nat)
    ensures PolyMod(Zeros(k)) == [0, 0, 0]
  {
    if k > 0 {
      assert Zeros(k)[..k - 1] == Zeros(k - 1);
      PolyModZeros(k - 1);
    }
  }

  /** Three bits after only zeros are their own remainder. */
  lemma PolyModLowTerms(k: nat, t: seq<Bit>)
    requires |t| == 3
    ensures PolyMod(Zeros(k) + t) == t
  {
    PolyModZeros(k);
    PolyModAfterDivisible(Zeros(k), t);
  }

  lemma PolyModAfterDivisible(c: seq<Bit>, t: seq<Bit>)
    requires |t| == 3 && PolyMod(c) == [0, 0, 0]
    ensures PolyMod(c + t) == t
  {
    var u := c + [t[0]];
    PolyModPush(c, t[0]);
    var v := u + [t[1]];
    PolyModPush(u, t[1]);
    PolyModPush(v, t[2]);
    assert v + [t[2]] == c + t;
  }

  lemma PolyModPush(c: seq<Bit>, b: Bit)
    ensures PolyMod(c + [b]) == ShiftIn(PolyMod(c), b)
  {
    assert (c + [b])[..|c|] == c;
  }

  /** The remainder of a payload followed by any three bits t. */
  lemma PolyModWithTail(p: seq<Bit>, t: seq<Bit>)
    requires |t| == 3
    ensures PolyMod(p + t) == Xor3(CrcRemainder(p), t)
  {
    var a := p + [0, 0, 0];
    var b := Zeros(|p|) + t;
    XorSplit(p, t);
    PolyModLinear(a, b);
    PolyModLowTerms(|p|, t);
  }

  /** The payload with three zero bits, added to zeros with three bits t,
      is the payload with t. */
  lemma XorSplit(p: seq<Bit>, t: seq<Bit>)
    requires |t| == 3
    ensures XorAll(p + [0, 0, 0], Zeros(|p|) + t) == p + t
  {
    var a := p + [0, 0, 0];
    var b := Zeros(|p|) + t;
    forall k | 0 <= k < |a|
      ensures Xor(a[k], b[k]) == (p + t)[k]
    {
      if k < |p| {
        assert a[k] == p[k] && b[k] == 0;
      } else {
        assert a[k] == 0 && b[k] == t[k - |p|];
      }
    }
  }

  /** The codeword `crc` builds is divisible by the generator. */
  lemma CrcCodewordDivisible(s: seq<Bit>)
    ensures PolyMod(CrcCodeword(s)) == [0, 0, 0]
  {
    PolyModWithTail(s, CrcRemainder(s));
  }

  // ---------------------------------------------------------------------------
  // Hamming(12,8)
  // ---------------------------------------------------------------------------

  /** The 12-bit codeword of one byte: parity bits at 1-based positions 1, 2, 4
      and 8, the data bits in order elsewhere. */
  function Codeword(d: seq<Bit>): (r: seq<Bit>)
    requires |d| == 8
    ensures |r| == 12
    ensures [r[2], r[4], r[5], r[6], r[8], r[9], r[10], r[11]] == d
  {
    var p1 := (d[0] as int + d[1] + d[3] + d[4] + d[6]) % 2;
    var p2 := (d[0] as int + d[2] + d[3] + d[5] + d[6]) % 2;
    var p4 := (d[1] as int + d[2] + d[3] + d[7]) % 2;
    var p8 := (d[4] as int + d[5] + d[6] + d[7]) % 2;
    [p1, p2, d[0], p4, d[1], d[2], d[3], p8, d[4], d[5], d[6], d[7]]
  }

  /** The four parity-check sums of a 12-bit group, over the 1-based
      positions whose index has bit 0, 1, 2 or 3 set. */
  function Check1(g: seq<Bit>): int
    requires |g| == 12
  {
    g[0] as int + g[2] + g[4] + g[6] + g[8] + g[10]
  }

  function Check2(g: seq<Bit>): int
    requires |g| == 12
  {
    g[1] as int + g[2] + g[5] + g[6] + g[9] + g[10]
  }

  function Check4(g: seq<Bit>): int
    requires |g| == 12
  {
    g[3] as int + g[4] + g[5] + g[6] + g[11]
  }

  function Check8(g: seq<Bit>): int
    requires |g| == 12
  {
    g[7] as int + g[8] + g[9] + g[10] + g[11]
  }

  /** Each parity bit makes the positions whose index has its bit set hold
      an even number of ones: every check of a codeword holds. */
  lemma CodewordParity(d: seq<Bit>)
    requires |d| == 8
    ensures var r := Codeword(d);
      Check1(r) % 2 == 0 && Check2(r) % 2 == 0 && Check4(r) % 2 == 0 && Check8(r) % 2 == 0
  {
    LowParity(d);
    HighParity(d);
  }

  lemma LowParity(d: seq<Bit>)
    requires |d| == 8
    ensures Check1(Codeword(d)) % 2 == 0 && Check2(Codeword(d)) % 2 == 0
  {
    EvenWithParity(d[0] as int + d[1] + d[3] + d[4] + d[6]);
    EvenWithParity(d[0] as int + d[2] + d[3] + d[5] + d[6]);
  }

  lemma HighParity(d: seq<Bit>)
    requires |d| == 8
    ensures Check4(Codeword(d)) % 2 == 0 && Check8(Codeword(d)) % 2 == 0
  {
    EvenWithParity(d[1] as int + d[2] + d[3] + d[7]);
    EvenWithParity(d[4] as int + d[5] + d[6] + d[7]);
  }

  /** A sum with its own parity added is even. */
  lemma EvenWithParity(x: int)
    ensures (x % 2 + x) % 2 == 0
  {
  }

  /** What `hamming` returns: each full byte replaced by its codeword, a
      trailing group of fewer than eight bits copied as it is. */
  function HammingEncoded(s: seq<Bit>): (r: seq<Bit>)
    ensures |r| == 12 * (|s| / 8) + |s| % 8
  {
    if |s| < 8 then s
    else
      GroupCount(|s|);
      Codeword(s[..8]) + HammingEncoded(s[8..])
  }

  /** Taking one byte off n bits takes one 12-bit codeword off the length of
      the output. */
  lemma GroupCount(n: nat)
    requires 8 <= n
    ensures 12 * ((n - 8) / 8) + (n - 8) % 8 + 12 == 12 * (n / 8) + n % 8
  {
    var q := n / 8;
    var m := n % 8;
    assert n - 8 == 8 * (q - 1) + m;
    assert (n - 8) / 8 == q - 1 && (n - 8) % 8 == m;
  }

  /** `hamming`. */
  method Hamming(s: seq<Bit>) returns (r: seq<Bit>)
    ensures r == HammingEncoded(s)
  {
    r := [];
    var i := 0;
    // `range(0, len(s), 8)`: every group has eight bits except possibly the last
    while i < |s|
      invariant 0 <= i <= |s|
      invariant r + HammingEncoded(s[i..]) == HammingEncoded(s)
    {
      var group := Slice(s, i, i + 8);
      HammingEncodeStep(s, i, r);
      if |group| != 8 {
        r := r + group;
      } else {
        r := r + Codeword(group);
      }
      i := i + |group|;
    }
  }

  /** One pass of the `hamming` loop: the next group is encoded and appended,
      which leaves what is built so far, followed by the encoding of the
      rest, unchanged. */
  lemma HammingEncodeStep(s: seq<Bit>, i: nat, r: seq<Bit>)
    requires i < |s|
    requires r + HammingEncoded(s[i..]) == HammingEncoded(s)
    ensures var g := Slice(s, i, i + 8);
      0 < |g| && i + |g| <= |s| &&
      (r + (if |g| == 8 then Codeword(g) else g)) + HammingEncoded(s[i + |g|..]) == HammingEncoded(s)
  {
    var g := Slice(s, i, i + 8);
    if |g| == 8 {
      assert s[i..][..8] == g && s[i..][8..] == s[i + 8..];
      assert r + (Codeword(g) + HammingEncoded(s[i + 8..])) == (r + Codeword(g)) + HammingEncoded(s[i + 8..]);
    } else {
      assert g == s[i..] && s[i + |g|..] == [];
      assert (r + g) + [] == r + g;
    }
  }

  // ---------------------------------------------------------------------------
  // The message and the stage order of `main`
  // ---------------------------------------------------------------------------

  /** What `ascii_to_binary` returns: `format(ord(c), "08b")` for each
      character, in order. */
  function AsciiBits(text: string): seq<Bit>
  {
    if text == [] then [] else AsciiBits(text[..|text| - 1]) + Binary08(text[|text| - 1] as int)
  }

  /** `ascii_to_binary`. */
  method AsciiToBinary(text: string) returns (r: seq<Bit>)
    ensures r == AsciiBits(text)
  {
    r := [];
    for k := 0 to |text|
      invariant r == AsciiBits(text[..k])
    {
      assert text[..k + 1][..k] == text[..k];
      r := r + Binary08(text[k] as int);
    }
    assert text[..|text|] == text;
  }

  /** Characters below 256 take exactly eight bits each: the message bits are
      the character codes as bytes. */
  lemma {:induction false} AsciiBitsOfBytes(text: string)
    requires forall k :: 0 <= k < |text| ==> text[k] as int < 256
    ensures AsciiBits(text) == BytesBits(seq(|text|, k requires 0 <= k < |text| => text[k] as int))
    decreases |text|
  {
    if text != [] {
      var init := text[..|text| - 1];
      AsciiBitsOfBytes(init);
      var codes := seq(|text|, k requires 0 <= k < |text| => text[k] as int);
      assert codes[..|codes| - 1] == seq(|init|, k requires 0 <= k < |init| => init[k] as int);
    }
  }

  /** The selector strings `main` compares against. */
  const CharCountName: string := "Contagem de Caracteres"
  const ByteInsertionName: string := "Inserção de Bytes"
  const BitInsertionName: string := "Inserção de Bits"
  const ParityName: string := "Bit de Paridade"
  const CrcName: string := "CRC"
  const HammingName: string := "Hamming"

  /** The framing stage; an unknown selector leaves the bits as they are. */
  function Framed(framing: string, s: seq<Bit>): (r: seq<Bit>)
    ensures framing != CharCountName && framing != ByteInsertionName && framing != BitInsertionName ==> r == s
  {
    if framing == CharCountName then CharCount(s)
    else if framing == ByteInsertionName then ByteStuffed(s)
    else if framing == BitInsertionName then CharStuffed(s)
    else s
  }

  /** The detection stage; an unknown selector leaves the bits as they are. */
  function Detected(detection: string, s: seq<Bit>): (r: seq<Bit>)
    ensures detection != ParityName && detection != CrcName ==> r == s
  {
    if detection == ParityName then WithParity(s)
    else if detection == CrcName then CrcCodeword(s)
    else s
  }

  /** The correction stage; an unknown selector leaves the bits as they are. */
  function Protected(correction: string, s: seq<Bit>): (r: seq<Bit>)
    ensures correction != HammingName ==> r == s
  {
    if correction == HammingName then HammingEncoded(s) else s
  }

  /** The coded bits `main` sends: framing, then detection, then correction. */
  function EncodeLinkBits(framing: string, detection: string, correction: string, s: seq<Bit>): seq<Bit>
  {
    Protected(correction, Detected(detection, Framed(framing, s)))
  }

  /** `main`: the message bits and the coded bits. */
  method EncodeLink(framing: string, detection: string, correction: string, text: string)
    returns (coded: seq<Bit>, raw: seq<Bit>)
    ensures raw == AsciiBits(text)
    ensures coded == EncodeLinkBits(framing, detection, correction, raw)
  {
    raw := AsciiToBinary(text);
    var bits := raw;
    if framing == CharCountName {
      bits := CharCount(bits);
    } else if framing == ByteInsertionName {
      bits := ByteInsertion(bits);
    } else if framing == BitInsertionName {
      bits := CharInsertion(bits);
    }
    if detection == ParityName {
      var list := new MutableList(bits);
      list := ParityBit(list);
      bits := list.items;
    } else if detection == CrcName {
      bits := Crc(bits);
    }
    if correction == HammingName {
      bits := Hamming(bits);
    }
    coded := bits;
  }
}
