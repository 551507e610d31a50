/** The receiving link layer (Servidor/decode_camada_enlace.py): Hamming
    syndrome correction, the CRC and parity checks, the three deframers, the
    conversion of the bits back to text, and the stage order of `main`, which
    undoes the transmitter's stages in reverse. */
module LinkDecoder {
  import opened Common
  import opened Binary
  import opened LinkEncoder

  /** A result with p put in front of its value; an error passes through. */
  function Prepend(p: seq<Bit>, r: Result<seq<Bit>>): Result<seq<Bit>>
  {
    match r
    case Ok(v) => Ok(p + v)
    case Err(e) => Err(e)
  }

  // ---------------------------------------------------------------------------
  // Bits to text
  // ---------------------------------------------------------------------------

  /** `text_from_bits`: the bits read as one integer, turned into the shortest
      big-endian byte string by `int2bytes`, and decoded. Bytes below 0x80 are
      characters; any other byte is reported as undecodable. */
  function TextFromBits(bits: seq<Bit>): (r: Result<string>)
    ensures r.Err? ==> r.error == ValueError || r.error == UnicodeDecodeError
    ensures r.Err? && r.error == ValueError <==> bits == []
    ensures r.Ok? ==> |r.value| >= 1 && IsAscii(r.value)
  {
    if bits == [] then Err(ValueError)
    else
      var bytes := IntToBytes(Value(bits));
      if forall k :: 0 <= k < |bytes| ==> bytes[k] < 128 then
        Ok(seq(|bytes|, k requires 0 <= k < |bytes| => bytes[k] as char))
      else
        Err(UnicodeDecodeError)
  }

  /** One byte below 0x80 decodes to its character. */
  lemma TextFromByte(b: Byte)
    requires b < 128
    ensures TextFromBits(ByteBits(b)) == Ok([b as char])
  {
    var bytes := IntToBytes(Value(ByteBits(b)));
    assert bytes == [b];
    assert seq(|bytes|, k requires 0 <= k < |bytes| => bytes[k] as char) == [b as char];
  }

  /** Bits of an ASCII text without a leading NUL decode back to the text. */
  lemma TextFromBytesBits(text: string)
    requires text != [] && IsAscii(text) && text[0] != 0 as char
    ensures TextFromBits(BytesBits(AsciiCodes(text))) == Ok(text)
  {
    var codes := AsciiCodes(text);
    BytesBitsValue(codes);
    IntToBytesOfBytesValue(codes);
    var chars := seq(|codes|, k requires 0 <= k < |codes| => codes[k] as char);
    assert chars == text;
  }

  /** `text_from_bits` inverts `text_to_bits` on ASCII text without a leading
      NUL. */
  lemma TextRoundTrip(text: string)
    requires text != [] && IsAscii(text) && text[0] != 0 as char
    ensures TextToBits(text).Ok? && TextFromBits(TextToBits(text).value) == Ok(text)
  {
    TextToBitsOfAscii(text);
    TextFromBytesBits(text);
  }

  /** `text_from_bits` inverts `ascii_to_binary` on ASCII text without a
      leading NUL. */
  lemma AsciiRoundTrip(text: string)
    requires text != [] && IsAscii(text) && text[0] != 0 as char
    ensures TextFromBits(AsciiBits(text)) == Ok(text)
  {
    AsciiBitsOfBytes(text);
    assert seq(|text|, k requires 0 <= k < |text| => text[k] as int) == AsciiCodes(text);
    TextFromBytesBits(text);
  }

  // ---------------------------------------------------------------------------
  // Hamming(12,8) decoding
  // ---------------------------------------------------------------------------

  /** The 1-based position that the four parity checks of a 12-bit group point
      at; 0 when every check holds. */
  function Syndrome(g: seq<Bit>): (e: nat)
    requires |g| == 12
    ensures e < 16
  {
    Check1(g) % 2 + 2 * (Check2(g) % 2) + 4 * (Check4(g) % 2) + 8 * (Check8(g) % 2)
  }

  /** The eight data bits of a 12-bit group. */
  function GroupData(g: seq<Bit>): (r: seq<Bit>)
    requires |g| == 12
    ensures |r| == 8
  {
    [g[2], g[4], g[5], g[6], g[8], g[9], g[10], g[11]]
  }

  /** One 12-bit group corrected and stripped of its parity bits. A syndrome
      of 13 to 15 indexes past the group. */
  function CorrectGroup(g: seq<Bit>): (r: Result<seq<Bit>>)
    requires |g| == 12
    ensures r.Err? <==> Syndrome(g) > 12
    ensures r.Err? ==> r.error == IndexError
    ensures r.Ok? ==> |r.value| == 8
  {
    var e := Syndrome(g);
    if e == 0 then Ok(GroupData(g))
    else if e > 12 then Err(IndexError)
    else Ok(GroupData(Flip(g, e - 1)))
  }

  /** What `decode_hamming` returns: every 12-bit group corrected, a trailing
      group of fewer than 12 bits copied as it is. */
  function HammingDecoded(s: seq<Bit>): (r: Result<seq<Bit>>)
    ensures r.Ok? ==> |r.value| == 8 * (|s| / 12) + |s| % 12
    ensures r.Err? ==> r.error == IndexError
  {
    if |s| < 12 then Ok(s)
    else
      var d :- CorrectGroup(s[..12]);
      var rest :- HammingDecoded(s[12..]);
      assert |s[12..]| / 12 == |s| / 12 - 1 && |s[12..]| % 12 == |s| % 12;
      Ok(d + rest)
  }

  lemma PrependEmpty(r: Result<seq<Bit>>)
    ensures Prepend([], r) == r
  {
    if r.Ok? {
      assert [] + r.value == r.value;
    }
  }

  lemma PrependAssoc(a: seq<Bit>, b: seq<Bit>, r: Result<seq<Bit>>)
    ensures Prepend(a, Prepend(b, r)) == Prepend(a + b, r)
  {
    if r.Ok? {
      assert a + (b + r.value) == (a + b) + r.value;
    }
  }

  /** The body of the `decode_hamming` loop for one 12-bit group: the bit the
      syndrome points at is inverted in place, and the data bits are read;
      a syndrome past the group makes the assignment raise IndexError. */
  method CorrectInPlace(group: seq<Bit>) returns (r: Result<seq<Bit>>)
    requires |group| == 12
    ensures r == CorrectGroup(group)
  {
    var g := group;
    var error := Syndrome(g);
    if error != 0 {
      if error > 12 {
        return Err(IndexError);
      }
      g := g[error - 1 := 1 - g[error - 1]];
    }
    r := Ok(GroupData(g));
  }

  /** One whole group of the `decode_hamming` loop: a syndrome past the group
      makes the whole list fail, any other extends what was decoded so far. */
  lemma HammingGroupStep(s: seq<Bit>, i: nat, decoded: seq<Bit>)
    requires i + 12 <= |s|
    requires Prepend(decoded, HammingDecoded(s[i..])) == HammingDecoded(s)
    ensures var g := Slice(s, i, i + 12);
      |g| == 12 &&
      (CorrectGroup(g).Err? ==> HammingDecoded(s) == Err(IndexError)) &&
      (CorrectGroup(g).Ok? ==>
        Prepend(decoded + CorrectGroup(g).value, HammingDecoded(s[i + 12..])) == HammingDecoded(s))
  {
    var g := Slice(s, i, i + 12);
    assert s[i..][..12] == g && s[i..][12..] == s[i + 12..];
    if CorrectGroup(g).Ok? {
      PrependAssoc(decoded, CorrectGroup(g).value, HammingDecoded(s[i + 12..]));
    }
  }

  /** The last, partial group of the `decode_hamming` loop is copied as it is. */
  lemma HammingTailStep(s: seq<Bit>, i: nat, decoded: seq<Bit>)
    requires i < |s| < i + 12
    requires Prepend(decoded, HammingDecoded(s[i..])) == HammingDecoded(s)
    ensures Slice(s, i, i + 12) == s[i..]
    ensures HammingDecoded(s) == Ok(decoded + s[i..])
  {
  }

  /** `decode_hamming`. */
  method DecodeHamming(s: seq<Bit>) returns (r: Result<seq<Bit>>)
    ensures r == HammingDecoded(s)
  {
    var decoded: seq<Bit> := [];
    var i := 0;
    PrependEmpty(HammingDecoded(s));
    assert s[0..] == s;
    // `range(0, len(s), 12)`: every group has twelve bits except possibly the last
    while i < |s|
      invariant 0 <= i <= |s|
      invariant Prepend(decoded, HammingDecoded(s[i..])) == HammingDecoded(s)
    {
      var group := Slice(s, i, i + 12);
      if |group| == 12 {
        HammingGroupStep(s, i, decoded);
        var corrected := CorrectInPlace(group);
        if corrected.Err? {
          return Err(IndexError);
        }
        decoded := decoded + corrected.value;
        i := i + 12;
      } else {
        HammingTailStep(s, i, decoded);
        return Ok(decoded + group);
      }
    }
    assert s[|s|..] == [] && decoded + [] == decoded;
    r := Ok(decoded);
  }

  /** A codeword passes every check and holds its byte. */
  lemma CodewordDecodes(d: seq<Bit>)
    requires |d| == 8
    ensures CorrectGroup(Codeword(d)) == Ok(d)
  {
    CodewordChecks(d);
  }

  /** Every parity check of a codeword holds, and its data bits are the byte. */
  lemma CodewordChecks(d: seq<Bit>)
    requires |d| == 8
    ensures Syndrome(Codeword(d)) == 0 && GroupData(Codeword(d)) == d
  {
    CodewordParity(d);
  }

  /** Flipping bit k changes by one exactly the sums whose positions include
      k + 1. */
  lemma FlipChecks(g: seq<Bit>, k: nat)
    requires |g| == 12 && k < 12
    ensures var f := Flip(g, k); var d := 1 - 2 * (g[k] as int); var p := k + 1;
      && Check1(f) == Check1(g) + (if p % 2 == 1 then d else 0)
      && Check2(f) == Check2(g) + (if (p / 2) % 2 == 1 then d else 0)
      && Check4(f) == Check4(g) + (if (p / 4) % 2 == 1 then d else 0)
      && Check8(f) == Check8(g) + (if (p / 8) % 2 == 1 then d else 0)
  {
  }

  /** The syndrome arithmetic: even sums, each moved by one exactly when the
      matching binary digit of p is set, give the syndrome p. */
  lemma SyndromeArith(s1: int, s2: int, s4: int, s8: int, f1: int, f2: int, f4: int, f8: int, d: int, p: nat)
    requires s1 % 2 == 0 && s2 % 2 == 0 && s4 % 2 == 0 && s8 % 2 == 0
    requires (d == 1 || d == -1) && p < 16
    requires f1 == s1 + (if p % 2 == 1 then d else 0)
    requires f2 == s2 + (if (p / 2) % 2 == 1 then d else 0)
    requires f4 == s4 + (if (p / 4) % 2 == 1 then d else 0)
    requires f8 == s8 + (if (p / 8) % 2 == 1 then d else 0)
    ensures f1 % 2 + 2 * (f2 % 2) + 4 * (f4 % 2) + 8 * (f8 % 2) == p
  {
    ParityShift(s1, d, p);
    ParityShift(s2, d, p / 2);
    ParityShift(s4, d, p / 4);
    ParityShift(s8, d, p / 8);
    BinaryPosition(p);
  }

  /** One flipped bit in a group that passes every check makes the syndrome
      its 1-based position. */
  lemma SyndromeOfFlip(g: seq<Bit>, k: nat)
    requires |g| == 12 && Syndrome(g) == 0 && k < 12
    ensures Syndrome(Flip(g, k)) == k + 1
  {
    var f := Flip(g, k);
    assert Check1(g) % 2 == 0 && Check2(g) % 2 == 0 && Check4(g) % 2 == 0 && Check8(g) % 2 == 0;
    FlipChecks(g, k);
    SyndromeArith(Check1(g), Check2(g), Check4(g), Check8(g),
      Check1(f), Check2(f), Check4(f), Check8(f), 1 - 2 * (g[k] as int), k + 1);
  }

  /** Adding one to or taking one from an even sum exactly when x is odd
      leaves the parity of x. */
  lemma ParityShift(s: int, d: int, x: int)
    requires s % 2 == 0 && (d == 1 || d == -1)
    ensures (s + (if x % 2 == 1 then d else 0)) % 2 == x % 2
  {
  }

  /** A position below 16 is the sum of its four binary digits. */
  lemma BinaryPosition(p: nat)
    requires p < 16
    ensures p == p % 2 + 2 * ((p / 2) % 2) + 4 * ((p / 4) % 2) + 8 * ((p / 8) % 2)
  {
  }

  /** A codeword with any one bit flipped still decodes to its byte. */
  lemma CodewordCorrectsOneFlip(d: seq<Bit>, k: nat)
    requires |d| == 8 && k < 12
    ensures CorrectGroup(Flip(Codeword(d), k)) == Ok(d)
  {
    var c := Codeword(d);
    CodewordChecks(d);
    SyndromeOfFlip(c, k);
    var f := Flip(c, k);
    assert Flip(f, k) == c;
    assert CorrectGroup(f) == Ok(GroupData(Flip(f, k)));
  }

  /** `decode_hamming` inverts `hamming`. */
  lemma {:induction false} HammingRoundTrip(s: seq<Bit>)
    ensures HammingDecoded(HammingEncoded(s)) == Ok(s)
    decreases |s|
  {
    if |s| >= 8 {
      var c := Codeword(s[..8]);
      var rest := HammingEncoded(s[8..]);
      var e := c + rest;
      assert e[..12] == c && e[12..] == rest;
      CodewordDecodes(s[..8]);
      HammingRoundTrip(s[8..]);
      assert s[..8] + s[8..] == s;
    }
  }

  /** A flip in a concatenation is a flip in one of its parts. */
  lemma FlipAppend(a: seq<Bit>, b: seq<Bit>, k: nat)
    requires k < |a| + |b|
    ensures k < |a| ==> Flip(a + b, k) == Flip(a, k) + b
    ensures |a| <= k ==> Flip(a + b, k) == a + Flip(b, k - |a|)
  {
  }

  /** `decode_hamming` still inverts `hamming` when any one bit of the
      codewords is flipped. */
  lemma {:induction false} HammingCorrectsOneFlip(s: seq<Bit>, k: nat)
    requires k < 12 * (|s| / 8)
    ensures HammingDecoded(Flip(HammingEncoded(s), k)) == Ok(s)
    decreases |s|
  {
    assert |s| >= 8 && |s[8..]| / 8 == |s| / 8 - 1;
    var c := Codeword(s[..8]);
    var rest := HammingEncoded(s[8..]);
    assert HammingEncoded(s) == c + rest;
    FlipAppend(c, rest, k);
    assert s[..8] + s[8..] == s;
    if k < 12 {
      HammingDecodedFront(Flip(c, k), rest);
      CodewordCorrectsOneFlip(s[..8], k);
      HammingRoundTrip(s[8..]);
    } else {
      HammingDecodedFront(c, Flip(rest, k - 12));
      CodewordDecodes(s[..8]);
      HammingCorrectsOneFlip(s[8..], k - 12);
    }
  }

  /** A list that starts with a whole group decodes that group, then the
      rest. */
  lemma HammingDecodedFront(g: seq<Bit>, rest: seq<Bit>)
    requires |g| == 12
    ensures HammingDecoded(g + rest) ==
      if CorrectGroup(g).Err? then Err(IndexError) else Prepend(CorrectGroup(g).value, HammingDecoded(rest))
  {
    var t := g + rest;
    assert t[..12] == g && t[12..] == rest;
  }

  /** Two flips in one codeword can point past the group: flipping positions 1
      and 12 of the codeword of a zero byte gives syndrome 13. */
  lemma HammingDoubleFlipOverruns()
    ensures HammingDecoded(Flip(Flip(HammingEncoded(Zeros(8)), 0), 11)) == Err(IndexError)
  {
    var c := HammingEncoded(Zeros(8));
    assert Zeros(8)[8..] == [];
    assert c == Codeword(Zeros(8));
    var f := Flip(Flip(c, 0), 11);
    assert f == [1, 0, 0, 0, 0, 0, 0, 0, 0, 0, 0, 1];
    assert f[..12] == f;
    assert Syndrome(f) == 13;
  }

  // ---------------------------------------------------------------------------
  // CRC check
  // ---------------------------------------------------------------------------

  /** What `decode_crc` returns: an error unless the whole list is divisible by
      the generator, else the list without its last three bits. */
  function CrcChecked(c: seq<Bit>): Result<seq<Bit>>
  {
    if |c| < 3 || PolyMod(c) != [0, 0, 0] then Err(TransmissionError) else Ok(c[..|c| - 3])
  }

  /** `decode_crc`: the division runs on a copy of the input. */
  method DecodeCrc(c: seq<Bit>) returns (r: Result<seq<Bit>>)
    ensures r == CrcChecked(c)
  {
    var dividend := new Bit[|c|](k requires 0 <= k < |c| => c[k]);
    assert dividend[..] == c;
    if |c| >= 3 {
      DivideInPlace(dividend, |c| - 3);
    }
    var remainder := LastN(dividend[..], 3);
    if remainder != [0, 0, 0] {
      return Err(TransmissionError);
    }
    r := Ok(DropLast(c, 3));
  }

  /** `decode_crc` inverts `crc`. */
  lemma CrcRoundTrip(s: seq<Bit>)
    ensures CrcChecked(CrcCodeword(s)) == Ok(s)
  {
    CrcCodewordDivisible(s);
    assert CrcCodeword(s)[..|s|] == s;
  }

  /** A one followed by zeros leaves a non-zero remainder. */
  lemma {:induction false} PolyModOneThenZeros(k: nat, j: nat)
    ensures PolyMod(Zeros(k) + [1] + Zeros(j)) != [0, 0, 0]
  {
    if j == 0 {
      var a := Zeros(k) + [1];
      assert a + Zeros(0) == a && a[..k] == Zeros(k);
      PolyModZeros(k);
    } else {
      var a := Zeros(k) + [1] + Zeros(j);
      assert a[..|a| - 1] == Zeros(k) + [1] + Zeros(j - 1);
      PolyModOneThenZeros(k, j - 1);
    }
  }

  /** Any one flipped bit in a CRC codeword is detected. */
  lemma CrcDetectsOneFlip(s: seq<Bit>, k: nat)
    requires k < |s| + 3
    ensures CrcChecked(Flip(CrcCodeword(s), k)) == Err(TransmissionError)
  {
    var c := CrcCodeword(s);
    var u := Zeros(k) + [1] + Zeros(|c| - k - 1);
    assert XorAll(c, u) == Flip(c, k);
    PolyModLinear(c, u);
    CrcCodewordDivisible(s);
    PolyModOneThenZeros(k, |c| - k - 1);
  }

  // ---------------------------------------------------------------------------
  // Parity check
  // ---------------------------------------------------------------------------

  /** `decode_parity_bit`: an error when the number of ones is odd, else the
      list without its last bit. */
  function DecodeParityBit(s: seq<Bit>): (r: Result<seq<Bit>>)
    ensures r.Err? <==> Sum(s) % 2 == 1
    ensures r.Err? ==> r.error == TransmissionError
    ensures r.Ok? ==> |r.value| == Max(0, |s| - 1) && r.value == s[..|r.value|]
  {
    if Sum(s) % 2 != 0 then Err(TransmissionError) else Ok(DropLast(s, 1))
  }

  /** `decode_parity_bit` inverts `parity_bit`. */
  lemma ParityRoundTrip(s: seq<Bit>)
    ensures DecodeParityBit(WithParity(s)) == Ok(s)
  {
  }

  lemma {:induction false} SumFlip(s: seq<Bit>, k: nat)
    requires k < |s|
    ensures Sum(Flip(s, k)) == Sum(s) + 1 - 2 * (s[k] as int)
    decreases |s|
  {
    var n := |s|;
    var f := Flip(s, k);
    if k == n - 1 {
      assert f[..n - 1] == s[..n - 1];
    } else {
      assert f[..n - 1] == Flip(s[..n - 1], k);
      SumFlip(s[..n - 1], k);
    }
  }

  /** Any one flipped bit, the parity bit included, is detected. */
  lemma ParityDetectsOneFlip(s: seq<Bit>, k: nat)
    requires k <= |s|
    ensures DecodeParityBit(Flip(WithParity(s), k)) == Err(TransmissionError)
  {
    SumFlip(WithParity(s), k);
  }

  // ---------------------------------------------------------------------------
  // Flag-delimited framing
  // ---------------------------------------------------------------------------

  /** The first and the last eight bits are the flag. */
  predicate FlagsMatch(s: seq<Bit>)
  {
    Slice(s, 0, 8) == Flag && LastN(s, 8) == Flag
  }

  /** `s[8:-8]`: empty unless the list is longer than two flags. */
  function Trimmed(s: seq<Bit>): (r: seq<Bit>)
    ensures |s| > 16 ==> r == s[8..|s| - 8]
    ensures |s| <= 16 ==> r == []
  {
    Slice(s, 8, Max(0, |s| - 8))
  }

  /** The loop of `decode_char_insertion` from index i on: every window equal
      to `011111010` becomes the flag, one bit shorter; the loop bound n is the
      length of the trimmed list before the loop. */
  function UnstuffScan(t: seq<Bit>, i: nat, n: nat): (r: seq<Bit>)
    ensures |r| <= |t|
    decreases n - i
  {
    if i >= n then t
    else if Window(t, i, 9) == StuffedFlag then
      UnstuffScan(t[..i] + Flag + t[i + 9..], i + 1, n)
    else
      UnstuffScan(t, i + 1, n)
  }

  /** What `decode_char_insertion` returns. */
  function CharUnstuffed(s: seq<Bit>): (r: Result<seq<Bit>>)
    ensures r.Err? <==> !FlagsMatch(s)
    ensures r.Err? ==> r.error == TransmissionError
    ensures r.Ok? ==> |r.value| <= Max(0, |s| - 16)
  {
    if !FlagsMatch(s) then Err(TransmissionError)
    else
      var t := Trimmed(s);
      Ok(UnstuffScan(t, 0, |t|))
  }

  /** The loop of `decode_char_insertion`, over the trimmed list. */
  method Unstuff(t: seq<Bit>) returns (r: seq<Bit>)
    ensures r == UnstuffScan(t, 0, |t|)
  {
    r := t;
    var n := |t|;
    for bit := 0 to n
      invariant UnstuffScan(r, bit, n) == UnstuffScan(t, 0, n)
    {
      if Window(r, bit, 9) == StuffedFlag {
        r := r[..bit] + Flag + r[bit + 9..];
      }
    }
  }

  /** `decode_char_insertion`. */
  method DecodeCharInsertion(s: seq<Bit>) returns (r: Result<seq<Bit>>)
    ensures r == CharUnstuffed(s)
  {
    var trimmed := Trimmed(s);
    if Slice(s, 0, 8) != Flag || LastN(s, 8) != Flag {
      return Err(TransmissionError);
    }
    trimmed := Unstuff(trimmed);
    r := Ok(trimmed);
  }

  /** The loop of `decode_byte_insertion` from index i on. An escape window is
      removed unless the latch is set, which it then sets; a flag or escape
      window left in place clears the latch. */
  function DestuffScan(t: seq<Bit>, i: nat, n: nat, ignore: bool): (r: seq<Bit>)
    ensures |r| <= |t|
    decreases n - i
  {
    if i >= n then t
    else if Window(t, i, 8) == Escape && !ignore then
      DestuffScan(t[..i] + t[i + 8..], i + 1, n, true)
    else if Window(t, i, 8) == Flag || Window(t, i, 8) == Escape then
      DestuffScan(t, i + 1, n, false)
    else
      DestuffScan(t, i + 1, n, ignore)
  }

  /** What `decode_byte_insertion` returns. */
  function ByteDestuffed(s: seq<Bit>): (r: Result<seq<Bit>>)
    ensures r.Err? <==> !FlagsMatch(s)
    ensures r.Err? ==> r.error == TransmissionError
    ensures r.Ok? ==> |r.value| <= Max(0, |s| - 16)
  {
    if !FlagsMatch(s) then Err(TransmissionError)
    else
      var t := Trimmed(s);
      Ok(DestuffScan(t, 0, |t|, false))
  }

  /** The loop of `decode_byte_insertion`, over the trimmed list, with the
      latch `ignore_next_flag_or_escape`. */
  method Destuff(t: seq<Bit>) returns (r: seq<Bit>)
    ensures r == DestuffScan(t, 0, |t|, false)
  {
    r := t;
    var ignore := false;
    var n := |t|;
    for i := 0 to n
      invariant DestuffScan(r, i, n, ignore) == DestuffScan(t, 0, n, false)
    {
      if Window(r, i, 8) == Escape && !ignore {
        ignore := true;
        r := r[..i] + r[i + 8..];
      } else if Window(r, i, 8) == Flag || Window(r, i, 8) == Escape {
        ignore := false;
      }
    }
  }

  /** `decode_byte_insertion`. */
  method DecodeByteInsertion(s: seq<Bit>) returns (r: Result<seq<Bit>>)
    ensures r == ByteDestuffed(s)
  {
    var trimmed := Trimmed(s);
    if Slice(s, 0, 8) != Flag || LastN(s, 8) != Flag {
      return Err(TransmissionError);
    }
    trimmed := Destuff(trimmed);
    r := Ok(trimmed);
  }

  /** A payload framed by two flags is recovered by the trimming. */
  lemma FramedTrim(s: seq<Bit>)
    ensures FlagsMatch(Flag + s + Flag) && Trimmed(Flag + s + Flag) == s
  {
    var f := Flag + s + Flag;
    assert Slice(f, 0, 8) == f[..8] == Flag;
    assert LastN(f, 8) == f[|f| - 8..] == Flag;
    if |s| > 0 {
      assert f[8..|f| - 8] == s;
    }
  }

  lemma {:induction false} UnstuffScanUntouched(t: seq<Bit>, i: nat, n: nat)
    requires forall j :: i <= j < n ==> Window(t, j, 9) != StuffedFlag
    ensures UnstuffScan(t, i, n) == t
    decreases n - i
  {
    if i < n {
      UnstuffScanUntouched(t, i + 1, n);
    }
  }

  lemma {:induction false} DestuffScanUntouched(t: seq<Bit>, i: nat, n: nat, ignore: bool)
    requires forall j :: i <= j < n ==> Window(t, j, 8) != Escape
    ensures DestuffScan(t, i, n, ignore) == t
    decreases n - i
  {
    if i < n {
      if Window(t, i, 8) == Flag {
        DestuffScanUntouched(t, i + 1, n, false);
      } else {
        DestuffScanUntouched(t, i + 1, n, ignore);
      }
    }
  }

  /** `decode_char_insertion` inverts `char_insertion` on a payload with no
      flag and no `011111010` at any bit offset. */
  lemma CharInsertionRoundTrip(s: seq<Bit>)
    requires !HasWindow(s, Flag) && !HasWindow(s, StuffedFlag)
    ensures CharUnstuffed(CharStuffed(s)) == Ok(s)
  {
    CharStuffedPlain(s);
    FramedTrim(s);
    UnstuffScanUntouched(s, 0, |s|);
  }

  /** `decode_byte_insertion` inverts `byte_insertion` on a payload with no
      flag and no escape at any bit offset. */
  lemma ByteInsertionRoundTrip(s: seq<Bit>)
    requires !HasWindow(s, Flag) && !HasWindow(s, Escape)
    ensures ByteDestuffed(ByteStuffed(s)) == Ok(s)
  {
    ByteStuffedPlain(s);
    FramedTrim(s);
    DestuffScanUntouched(s, 0, |s|, false);
  }

  /** Without that condition bit insertion is lossy: a payload that is exactly
      `011111010` holds no flag, is sent as it is, and comes back as a flag. */
  lemma CharInsertionLossy()
    ensures CharStuffed(StuffedFlag) == Flag + StuffedFlag + Flag
    ensures CharUnstuffed(CharStuffed(StuffedFlag)) == Ok(Flag)
  {
    assert Window(StuffedFlag, 0, 8) == [0, 1, 1, 1, 1, 1, 0, 1];
    assert Window(StuffedFlag, 1, 8) == [1, 1, 1, 1, 1, 0, 1, 0];
    CharStuffScanUntouched(StuffedFlag, 0, 9);
    FramedTrim(StuffedFlag);
    var t := StuffedFlag;
    assert Window(t, 0, 9) == t;
    var u := Flag;
    assert t[..0] + Flag + t[9..] == u;
    assert forall j :: 1 <= j < 9 ==> |Window(u, j, 9)| < 9;
    UnstuffScanUntouched(u, 1, 9);
  }

  /** The loop of `byte_insertion` also meets the escapes it has just
      inserted: a payload starting with a flag gets two escapes, and the
      receiver, which drops only the first, hands back one of them. */
  lemma ByteInsertionCascade(s: seq<Bit>)
    requires s == Flag + Zeros(8)
    ensures ByteStuffed(s) == Flag + Escape + Escape + s + Flag
    ensures ByteDestuffed(ByteStuffed(s)) == Ok(Escape + s)
  {
    var s1 := Escape + s;
    var s2 := Escape + s1;
    assert ByteStuffed(s) == Flag + s2 + Flag by {
      ByteStuffCascade(s);
    }
    calc {
      ByteDestuffed(ByteStuffed(s));
    ==
      ByteDestuffed(Flag + s2 + Flag);
    == { FramedTrim(s2); }
      Ok(DestuffScan(s2, 0, 32, false));
    == { CascadeDestuffed(s1); }
      Ok(s1);
    }
  }

  /** The receiver drops the first escape; the second then sits at index 0,
      which the loop has already passed. */
  lemma CascadeDestuffed(s1: seq<Bit>)
    requires s1 == Escape + Flag + Zeros(8)
    ensures DestuffScan(Escape + s1, 0, 32, false) == s1
  {
    var s2 := Escape + s1;
    assert Window(s2, 0, 8) == s2[..8] == Escape;
    assert s2[..0] + s2[8..] == s1;
    WindowsOfEscapedFlag(s1);
    DestuffScanUntouched(s1, 1, 32, true);
  }

  /** The encoder half of `ByteInsertionCascade`. */
  lemma ByteStuffCascade(s: seq<Bit>)
    requires s == Flag + Zeros(8)
    ensures ByteStuffScan(s, 0, 16) == Escape + Escape + s
  {
    var s1 := Escape + s;
    var s2 := Escape + s1;
    calc {
      ByteStuffScan(s, 0, 16);
    == { CascadeFirstEscape(s); }
      ByteStuffScan(s1, 1, 16);
    == { WindowsOfEscapedFlag(s1); ByteStuffScanSkip(s1, 1, 8, 16); }
      ByteStuffScan(s1, 8, 16);
    == { CascadeSecondEscape(s1); }
      ByteStuffScan(s2, 9, 16);
    == { CascadeRest(s1); }
      s2;
    }
  }

  /** The flag at index 0 gets an escape in front of it. */
  lemma CascadeFirstEscape(s: seq<Bit>)
    requires s == Flag + Zeros(8)
    ensures ByteStuffScan(s, 0, 16) == ByteStuffScan(Escape + s, 1, 16)
  {
    assert Window(s, 0, 8) == s[..8] == Flag;
    assert s[..0] + Escape + s[0..] == Escape + s;
  }

  /** The same flag, now at index 8, gets a second escape. */
  lemma CascadeSecondEscape(s1: seq<Bit>)
    requires s1 == Escape + Flag + Zeros(8)
    ensures ByteStuffScan(s1, 8, 16) == ByteStuffScan(Escape + s1, 9, 16)
  {
    assert Window(s1, 8, 8) == s1[8..16] == Flag;
    assert s1[..8] + Escape + s1[8..] == Escape + s1;
  }

  /** Indices 9 to 15 meet neither a flag nor an escape. */
  lemma CascadeRest(s1: seq<Bit>)
    requires s1 == Escape + Flag + Zeros(8)
    ensures ByteStuffScan(Escape + s1, 9, 16) == Escape + s1
  {
    var s2 := Escape + s1;
    WindowsOfEscapedFlag(s1);
    forall j | 9 <= j < 16
      ensures Window(s2, j, 8) != Flag && Window(s2, j, 8) != Escape
    {
      assert Window(s2, j, 8) == s2[j..j + 8] == s1[j - 8..j] == Window(s1, j - 8, 8);
    }
    ByteStuffScanUntouched(s2, 9, 16);
  }

  /** Away from the ends, no window of an escape followed by a flag and
      zeros is a flag or an escape. */
  lemma WindowsOfEscapedFlag(s1: seq<Bit>)
    requires s1 == Escape + Flag + Zeros(8)
    ensures forall j :: 1 <= j < 8 ==> Window(s1, j, 8) != Flag && Window(s1, j, 8) != Escape
    ensures forall j :: 1 <= j < 32 ==> Window(s1, j, 8) != Escape
  {
    assert s1 == [0, 1, 1, 1, 1, 0, 1, 1, 0, 1, 1, 1, 1, 1, 1, 0,
                  0, 0, 0, 0, 0, 0, 0, 0];
    forall j | 1 <= j < 32
      ensures Window(s1, j, 8) != Escape
      ensures j < 8 ==> Window(s1, j, 8) != Flag
    {
      if j + 8 <= |s1| {
        var w := Window(s1, j, 8);
        assert w == s1[j..j + 8];
        assert forall k :: 0 <= k < 8 ==> w[k] == s1[j + k];
        if j == 5 { assert w[3] != Flag[3] && w[3] != Escape[3]; }
        else if j == 8 { assert w[5] != Escape[5]; }
        else if j < 15 { assert w[0] != Flag[0] && w[0] != Escape[0]; }
        else { assert w[1] != Escape[1]; }
      }
    }
  }

  // ---------------------------------------------------------------------------
  // Character count
  // ---------------------------------------------------------------------------

  /** `str.isdecimal` on ASCII text. */
  predicate IsDecimal(t: string)
  {
    |t| >= 1 && forall k :: 0 <= k < |t| ==> '0' <= t[k] <= '9'
  }

  /** The whitespace that `int()` strips, within ASCII. */
  predicate IsSpace(c: char)
  {
    9 <= c as int <= 13 || 28 <= c as int <= 32
  }

  function StripLeading(t: string): (r: string)
    ensures |r| <= |t|
  {
    if t != [] && IsSpace(t[0]) then StripLeading(t[1..]) else t
  }

  function StripTrailing(t: string): (r: string)
    ensures |r| <= |t|
  {
    if t != [] && IsSpace(t[|t| - 1]) then StripTrailing(t[..|t| - 1]) else t
  }

  /** The value of a string of decimal digits. */
  function DecimalValue(t: string): nat
    requires IsDecimal(t) || t == []
  {
    if t == [] then 0 else 10 * DecimalValue(t[..|t| - 1]) + (t[|t| - 1] as int - '0' as int)
  }

  /** `int(t)` for ASCII text: surrounding whitespace, an optional sign, then
      decimal digits. */
  function ParseInt(t: string): (r: Result<int>)
    ensures r.Err? ==> r.error == ValueError
  {
    var u := StripTrailing(StripLeading(t));
    if u == [] then Err(ValueError)
    else
      var negative := u[0] == '-';
      var body := if u[0] == '-' || u[0] == '+' then u[1..] else u;
      if !IsDecimal(body) then Err(ValueError)
      else if negative then Ok(-(DecimalValue(body) as int))
      else Ok(DecimalValue(body))
  }

  /** What `decode_char_count` returns. The first byte is a count digit; the
      second is one too when it decodes to a decimal digit and the list is
      longer than 16 bits. The count must equal the length of what follows. */
  function DecodeCharCount(s: seq<Bit>): (r: Result<seq<Bit>>)
    ensures r.Ok? ==> |s| > 8 && (r.value == s[8..] || (|s| > 16 && r.value == s[16..]))
  {
    var first :- TextFromBits(Slice(s, 0, 8));
    var second :- TextFromBits(Slice(s, 8, 16));
    var count := if IsDecimal(second) && |s| > 16 then first + second else first;
    var data := if IsDecimal(second) && |s| > 16 then s[16..] else Slice(s, 8, |s|);
    var n :- ParseInt(count);
    if |data| != n then Err(TransmissionError) else Ok(data)
  }

  /** A digit character parses to its value. */
  lemma ParseOneDigit(a: Byte)
    requires 48 <= a <= 57
    ensures ParseInt([a as char]) == Ok(a - 48)
  {
    var t := [a as char];
    assert !IsSpace(t[0]);
    assert StripLeading(t) == t;
    assert StripTrailing(t) == t;
    assert t[0] != '-' && t[0] != '+';
    assert IsDecimal(t);
    assert t[..0] == [];
    assert DecimalValue(t) == 10 * DecimalValue([]) + (a as int - 48);
  }

  /** Two digit characters parse to their decimal value. */
  lemma ParseTwoDigits(a: Byte, b: Byte)
    requires 48 <= a <= 57 && 48 <= b <= 57
    ensures ParseInt([a as char, b as char]) == Ok(10 * (a - 48) + (b - 48))
  {
    var t := [a as char, b as char];
    assert !IsSpace(t[0]) && !IsSpace(t[1]);
    assert StripLeading(t) == t;
    assert StripTrailing(t) == t;
    assert t[0] != '-' && t[0] != '+';
    assert IsDecimal(t);
    var head := t[..1];
    assert head == [a as char] && head[..0] == [];
    assert IsDecimal(head);
    assert DecimalValue(head) == a as int - 48;
    assert DecimalValue(t) == 10 * DecimalValue(head) + (b as int - 48);
  }

  lemma SliceOfAppend(b: seq<Bit>, s: seq<Bit>, i: nat, j: nat)
    requires i <= j <= |b|
    ensures (b + s)[i..j] == b[i..j]
  {
  }

  /** The first two bytes of a byte string followed by anything. */
  lemma TwoLeadingBytes(codes: seq<Byte>, s: seq<Bit>)
    requires |codes| >= 2
    ensures (BytesBits(codes) + s)[..8] == ByteBits(codes[0])
    ensures (BytesBits(codes) + s)[8..16] == ByteBits(codes[1])
  {
    BytesBitsAt(codes, 0);
    BytesBitsAt(codes, 1);
    SliceOfAppend(BytesBits(codes), s, 0, 8);
    SliceOfAppend(BytesBits(codes), s, 8, 16);
  }

  /** The count prefix `char_count` writes for a single-digit length. */
  lemma CountPrefixOneDigit(s: seq<Bit>)
    requires |s| < 10
    ensures CharCount(s) == ByteBits(48 + |s|) + s
  {
    assert DigitCodes(|s|) == [48 + |s|];
    assert [48 + |s|][..0] == [];
  }

  /** The first two bytes of the count prefix for a length of 10 or more. */
  lemma CountPrefixLeading(s: seq<Bit>)
    requires 10 <= |s|
    ensures CharCount(s)[..8] == ByteBits(DigitCodes(|s|)[0])
    ensures CharCount(s)[8..16] == ByteBits(DigitCodes(|s|)[1])
  {
    var codes := DigitCodes(|s|);
    assert |codes| >= 2;
    TwoLeadingBytes(codes, s);
  }

  /** Up to seven bits, or eight starting with 0, are one ASCII character. */
  lemma ShortValue(s: seq<Bit>)
    requires 1 <= |s| <= 7 || (|s| == 8 && s[0] == 0)
    ensures Value(s) < 128
  {
    if |s| == 8 {
      assert s == [0] + s[1..];
      ValueAppend([0], s[1..]);
      assert [0][..0] == [];
      ValueBound(s[1..]);
      assert Pow2(7) == 128;
    } else {
      ValueBound(s);
      Pow2Mono(|s|, 7);
      assert Pow2(7) == 128;
    }
  }

  lemma {:induction false} Pow2Mono(i: nat, j: nat)
    requires i <= j
    ensures Pow2(i) <= Pow2(j)
  {
    if i < j { Pow2Strict(i, j); }
  }

  /** A non-empty bit string worth less than 128 decodes to one character. */
  lemma SmallTextFromBits(bits: seq<Bit>)
    requires bits != [] && Value(bits) < 128
    ensures TextFromBits(bits).Ok? && |TextFromBits(bits).value| == 1
    ensures !IsDecimal(TextFromBits(bits).value) || 48 <= Value(bits) <= 57
  {
    var bytes := IntToBytes(Value(bits));
    assert bytes == [Value(bits)];
    var chars := seq(|bytes|, k requires 0 <= k < |bytes| => bytes[k] as char);
    assert chars == [Value(bits) as char];
    assert TextFromBits(bits) == Ok(chars);
    if IsDecimal(chars) {
      assert '0' <= chars[0] <= '9';
      assert chars[0] as int == Value(bits);
    }
  }

  /** How `decode_char_count` reads a frame of at most 16 bits that starts with
      one count digit: the rest is the data, and it must be as long as the
      digit says. */
  lemma DecodeCountOneDigit(c: seq<Bit>, a: Byte)
    requires 48 <= a <= 57 && 8 < |c| <= 16 && c[..8] == ByteBits(a)
    requires Value(c[8..]) < 128
    ensures DecodeCharCount(c) ==
      if |c| - 8 == a - 48 then Ok(c[8..]) else Err(TransmissionError)
  {
    assert Slice(c, 0, 8) == ByteBits(a);
    assert Slice(c, 8, 16) == c[8..] && Slice(c, 8, |c|) == c[8..];
    TextFromByte(a);
    SmallTextFromBits(c[8..]);
    ParseOneDigit(a);
  }

  /** How `decode_char_count` reads a frame longer than 16 bits that starts
      with two count digits: what follows them is the data, and it must be as
      long as the two digits say. */
  lemma DecodeCountTwoDigits(c: seq<Bit>, a: Byte, b: Byte)
    requires 48 <= a <= 57 && 48 <= b <= 57 && |c| > 16
    requires c[..8] == ByteBits(a) && c[8..16] == ByteBits(b)
    ensures DecodeCharCount(c) ==
      if |c| - 16 == 10 * (a - 48) + (b - 48) then Ok(c[16..]) else Err(TransmissionError)
  {
    assert Slice(c, 0, 8) == ByteBits(a) && Slice(c, 8, 16) == ByteBits(b);
    TextFromByte(a);
    TextFromByte(b);
    var second := [b as char];
    assert IsDecimal(second) by { assert second[0] == b as char; }
    assert [a as char] + second == [a as char, b as char];
    ParseTwoDigits(a, b);
  }

  /** `decode_char_count` inverts `char_count` when the count is a single
      digit and the payload is not empty and fits in one character. */
  lemma CharCountRoundTripOneDigit(s: seq<Bit>)
    requires 1 <= |s| <= 7 || (|s| == 8 && s[0] == 0)
    ensures DecodeCharCount(CharCount(s)) == Ok(s)
  {
    CountPrefixOneDigit(s);
    var c := ByteBits(48 + |s|) + s;
    assert c[..8] == ByteBits(48 + |s|) && c[8..] == s;
    ShortValue(s);
    DecodeCountOneDigit(c, 48 + |s|);
  }

  /** `decode_char_count` inverts `char_count` for payloads of 10 to 99
      bits. */
  lemma CharCountRoundTripTwoDigits(s: seq<Bit>)
    requires 10 <= |s| <= 99
    ensures DecodeCharCount(CharCount(s)) == Ok(s)
  {
    var codes := DigitCodes(|s|);
    assert codes == [48 + |s| / 10, 48 + |s| % 10];
    CountPrefixLeading(s);
    var c := CharCount(s);
    assert |c| == |s| + 16;
    assert c[16..] == s;
    DecodeCountTwoDigits(c, codes[0], codes[1]);
  }

  /** `decode_char_count` inverts `char_count` for payloads of 1 to 7 bits,
      of 8 bits starting with 0, and of 10 to 99 bits. */
  lemma CharCountRoundTrip(s: seq<Bit>)
    requires 1 <= |s| <= 7 || (|s| == 8 && s[0] == 0) || 10 <= |s| <= 99
    ensures DecodeCharCount(CharCount(s)) == Ok(s)
  {
    if |s| <= 8 {
      CharCountRoundTripOneDigit(s);
    } else {
      CharCountRoundTripTwoDigits(s);
    }
  }

  /** An empty payload gets the count "0", and its missing second byte makes
      `int('', 2)` raise. */
  lemma CharCountEmptyFails()
    ensures DecodeCharCount(CharCount([])) == Err(ValueError)
  {
    var c := CharCount([]);
    CountPrefixOneDigit([]);
    assert c == ByteBits(48) + [];
    assert Slice(c, 0, 8) == ByteBits(48);
    TextFromByte(48);
    DecodeCharCountOneByte(c);
  }

  /** A list of at most one byte has no second byte to read: `int('', 2)`
      raises once the first byte decodes. */
  lemma DecodeCharCountOneByte(s: seq<Bit>)
    requires |s| <= 8 && TextFromBits(Slice(s, 0, 8)).Ok?
    ensures DecodeCharCount(s) == Err(ValueError)
  {
    assert Slice(s, 8, 16) == [];
  }

  /** From 100 bits on the count has three or more digits but only two are
      read, so the check fails. */
  lemma CharCountLongFails(s: seq<Bit>)
    requires |s| >= 100
    ensures DecodeCharCount(CharCount(s)) == Err(TransmissionError)
  {
    var codes := DigitCodes(|s|);
    CountPrefixLeading(s);
    var c := CharCount(s);
    assert |c| - 16 >= |s|;
    DecodeCountTwoDigits(c, codes[0], codes[1]);
  }

  // ---------------------------------------------------------------------------
  // The stage order of `main`
  // ---------------------------------------------------------------------------

  /** The correction stage; an unknown selector leaves the bits as they are. */
  function Unprotected(correction: string, s: seq<Bit>): Result<seq<Bit>>
  {
    if correction == HammingName then HammingDecoded(s) else Ok(s)
  }

  /** The detection stage; an unknown selector leaves the bits as they are. */
  function Checked(detection: string, s: seq<Bit>): Result<seq<Bit>>
  {
    if detection == ParityName then DecodeParityBit(s)
    else if detection == CrcName then CrcChecked(s)
    else Ok(s)
  }

  /** The deframing stage; an unknown selector leaves the bits as they are. */
  function Unframed(framing: string, s: seq<Bit>): Result<seq<Bit>>
  {
    if framing == CharCountName then DecodeCharCount(s)
    else if framing == ByteInsertionName then ByteDestuffed(s)
    else if framing == BitInsertionName then CharUnstuffed(s)
    else Ok(s)
  }

  /** The message `main` recovers: correction, then detection, then
      deframing, then the bits back to text. */
  function DecodeLinkText(framing: string, detection: string, correction: string, s: seq<Bit>): Result<string>
  {
    var a :- Unprotected(correction, s);
    var b :- Checked(detection, a);
    var m :- Unframed(framing, b);
    TextFromBits(m)
  }

  /** `main`, without the display string of 8-bit groups. */
  method DecodeLink(framing: string, detection: string, correction: string, s: seq<Bit>)
    returns (r: Result<string>)
    ensures r == DecodeLinkText(framing, detection, correction, s)
  {
    var bits := s;
    if correction == HammingName {
      var a := DecodeHamming(bits);
      if a.Err? { return Err(a.error); }
      bits := a.value;
    }
    if detection == ParityName {
      var b := DecodeParityBit(bits);
      if b.Err? { return Err(b.error); }
      bits := b.value;
    } else if detection == CrcName {
      var b := DecodeCrc(bits);
      if b.Err? { return Err(b.error); }
      bits := b.value;
    }
    if framing == CharCountName {
      var m := DecodeCharCount(bits);
      if m.Err? { return Err(m.error); }
      bits := m.value;
    } else if framing == ByteInsertionName {
      var m := DecodeByteInsertion(bits);
      if m.Err? { return Err(m.error); }
      bits := m.value;
    } else if framing == BitInsertionName {
      var m := DecodeCharInsertion(bits);
      if m.Err? { return Err(m.error); }
      bits := m.value;
    }
    r := TextFromBits(bits);
  }

  /** The framing conditions under which the deframer inverts the framer. */
  predicate Deframable(framing: string, s: seq<Bit>)
  {
    if framing == CharCountName then
      1 <= |s| <= 7 || (|s| == 8 && s[0] == 0) || 10 <= |s| <= 99
    else if framing == ByteInsertionName then
      !HasWindow(s, Flag) && !HasWindow(s, Escape)
    else if framing == BitInsertionName then
      !HasWindow(s, Flag) && !HasWindow(s, StuffedFlag)
    else true
  }

  lemma DeframeRoundTrip(framing: string, s: seq<Bit>)
    requires Deframable(framing, s)
    ensures Unframed(framing, Framed(framing, s)) == Ok(s)
  {
    if framing == CharCountName {
      CharCountRoundTrip(s);
    } else if framing == ByteInsertionName {
      ByteInsertionRoundTrip(s);
    } else if framing == BitInsertionName {
      CharInsertionRoundTrip(s);
    }
  }

  lemma CheckRoundTrip(detection: string, s: seq<Bit>)
    ensures Checked(detection, Detected(detection, s)) == Ok(s)
  {
    if detection == ParityName {
      ParityRoundTrip(s);
    } else if detection == CrcName {
      CrcRoundTrip(s);
    }
  }

  lemma ProtectRoundTrip(correction: string, s: seq<Bit>)
    ensures Unprotected(correction, Protected(correction, s)) == Ok(s)
  {
    if correction == HammingName {
      HammingRoundTrip(s);
    }
  }

  /** The receiver's `main` recovers what the transmitter's `main` sent, for
      ASCII text without a leading NUL whose bits the chosen framing can carry,
      whatever detection and correction are chosen. With character count that
      means at most 12 characters. */
  lemma LinkRoundTrip(framing: string, detection: string, correction: string, text: string)
    requires text != [] && IsAscii(text) && text[0] != 0 as char
    requires Deframable(framing, AsciiBits(text))
    ensures DecodeLinkText(framing, detection, correction,
      EncodeLinkBits(framing, detection, correction, AsciiBits(text))) == Ok(text)
  {
    var raw := AsciiBits(text);
    var framed := Framed(framing, raw);
    var detected := Detected(detection, framed);
    ProtectRoundTrip(correction, detected);
    CheckRoundTrip(detection, framed);
    DeframeRoundTrip(framing, raw);
    AsciiRoundTrip(text);
  }

  /** An ASCII code written on eight bits starts with 0. */
  lemma AsciiByteLeadingZero(b: Byte)
    requires b < 128
    ensures ByteBits(b)[0] == 0
  {
    var bits := ByteBits(b);
    var head := [bits[0]];
    var rest := bits[1..];
    assert bits == head + rest;
    ValueAppend(head, rest);
    assert head[..0] == [];
    assert Value(head) == bits[0];
    assert |rest| == 7 && Pow2(7) == 128;
    assert b == bits[0] * 128 + Value(rest);
  }

  /** The bits of an ASCII text: eight per character, and a single
      character's start with 0. */
  lemma AsciiBitsShape(text: string)
    requires IsAscii(text)
    ensures |AsciiBits(text)| == 8 * |text|
    ensures |text| == 1 ==> AsciiBits(text)[0] == 0
  {
    var codes := AsciiCodes(text);
    AsciiBitsOfBytes(text);
    assert AsciiBits(text) == BytesBits(codes);
    if |text| == 1 {
      assert codes == [codes[0]] && codes[..0] == [];
      assert BytesBits(codes) == ByteBits(codes[0]);
      AsciiByteLeadingZero(codes[0]);
    }
  }

  /** For character count, the framing condition on an ASCII text is its
      length: one character, or two to twelve. */
  lemma CountFramingOfAscii(text: string)
    requires text != [] && IsAscii(text) && |text| <= 12
    ensures Deframable(CharCountName, AsciiBits(text))
  {
    AsciiBitsShape(text);
  }
}
