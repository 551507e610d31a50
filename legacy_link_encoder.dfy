// The older transmitter, camada-enlace.py. Its `text_to_bits` and
// `parity_bit` are the members of LinkEncoder. What differs is modelled here:
// a character count that insists on whole bytes, and byte and bit insertion
// that work on 8-bit groups cut from the front of the payload.

module LegacyLinkEncoder {
  import opened Common
  import opened Binary
  import opened LinkEncoder
  import opened LinkDecoder

  // ---------------------------------------------------------------------------
  // Character count on whole bytes
  // ---------------------------------------------------------------------------

  /** The older `char_count`: a payload that is not a whole number of bytes
      raises ValueError, any other gets the same decimal prefix as
      `char_count`. */
  function OldCharCount(s: seq<Bit>): (r: Result<seq<Bit>>)
    ensures r.Err? <==> |s| % 8 != 0
    ensures r.Err? ==> r.error == ValueError
  {
    if |s| % 8 != 0 then Err(ValueError) else Ok(CharCount(s))
  }

  /** Whole-byte payloads of two to twelve bytes come back through the
      receiver's `decode_char_count`. */
  lemma OldCharCountRoundTrip(s: seq<Bit>)
    requires |s| % 8 == 0 && 16 <= |s| <= 96
    ensures OldCharCount(s).Ok? && DecodeCharCount(OldCharCount(s).value) == Ok(s)
  {
    CharCountRoundTrip(s);
  }

  // ---------------------------------------------------------------------------
  // Byte insertion on 8-bit groups
  // ---------------------------------------------------------------------------

  /** The escape byte of the older transmitter, `01111101`. */
  const OldEscape: seq<Bit> := [0, 1, 1, 1, 1, 1, 0, 1]

  /** Is the group one that the older byte insertion escapes? */
  predicate Escaped(g: seq<Bit>)
  {
    g == Flag || g == OldEscape
  }

  /** The number of 8-bit groups of s, cut from the front, that are escaped. */
  function EscapedGroups(s: seq<Bit>): nat
    decreases |s|
  {
    if s == [] then 0
    else
      var g := Slice(s, 0, 8);
      (if Escaped(g) then 1 else 0) + EscapedGroups(s[|g|..])
  }

  /** The groups of s, each escaped one preceded by `01111101`; a trailing
      group shorter than eight bits is copied as it is. */
  function OldByteStuffGroups(s: seq<Bit>): (r: seq<Bit>)
    ensures |r| == |s| + 8 * EscapedGroups(s)
    decreases |s|
  {
    if s == [] then []
    else
      var g := Slice(s, 0, 8);
      (if Escaped(g) then OldEscape + g else g) + OldByteStuffGroups(s[|g|..])
  }

  /** What the older `byte_insertion` returns. */
  function OldByteStuffed(s: seq<Bit>): (r: seq<Bit>)
    ensures |r| == |s| + 16 + 8 * EscapedGroups(s)
    ensures r[..8] == Flag && r[|r| - 8..] == Flag
  {
    Flag + OldByteStuffGroups(s) + Flag
  }

  /** The group at i of s, as the loop of the older transmitters cuts it. */
  lemma GroupAt(s: seq<Bit>, i: nat)
    requires i < |s|
    ensures var g := Slice(s, i, i + 8);
      0 < |g| && i + |g| <= |s| && g == Slice(s[i..], 0, 8) && s[i..][|g|..] == s[i + |g|..]
  {
  }

  /** One pass of the older `byte_insertion` loop: what was built so far,
      followed by the stuffing of the rest, does not change. */
  lemma ByteStuffStep(s: seq<Bit>, i: nat, r: seq<Bit>)
    requires i < |s|
    ensures var g := Slice(s, i, i + 8);
      0 < |g| && i + |g| <= |s| &&
      r + OldByteStuffGroups(s[i..])
        == (if Escaped(g) then r + OldEscape + g else r + g) + OldByteStuffGroups(s[i + |g|..])
  {
    var g := Slice(s, i, i + 8);
    GroupAt(s, i);
    var rest := OldByteStuffGroups(s[i + |g|..]);
    assert OldByteStuffGroups(s[i..]) == (if Escaped(g) then OldEscape + g else g) + rest;
    if Escaped(g) {
      assert r + (OldEscape + g + rest) == (r + OldEscape + g) + rest;
    } else {
      assert r + (g + rest) == (r + g) + rest;
    }
  }

  /** The older `byte_insertion`. */
  method OldByteInsertion(s: seq<Bit>) returns (r: seq<Bit>)
    ensures r == OldByteStuffed(s)
  {
    r := Flag;
    var i := 0;
    assert s[0..] == s;
    while i < |s|
      invariant 0 <= i <= |s|
      invariant r + OldByteStuffGroups(s[i..]) == Flag + OldByteStuffGroups(s)
      decreases |s| - i
    {
      var group := Slice(s, i, i + 8);
      ByteStuffStep(s, i, r);
      if group == Flag || group == OldEscape {
        r := r + OldEscape;
      }
      r := r + group;
      i := i + |group|;
    }
    assert s[|s|..] == [];
    assert r + [] == r;
    r := r + Flag;
  }

  /** A reading of the stuffed groups: an escape followed by a byte stands for
      that byte, every other group for itself. No file of the program reads
      this way; it witnesses that the older stuffing is injective. The older
      receiver (decode_camada_enlace.py:73) expects `01111011`, not this
      sender's escape. */
  function OldUnescape(t: seq<Bit>): (r: seq<Bit>)
    ensures |r| <= |t|
    decreases |t|
  {
    if |t| < 8 then t
    else if t[..8] == OldEscape && |t| >= 16 then t[8..16] + OldUnescape(t[16..])
    else t[..8] + OldUnescape(t[8..])
  }

  lemma UnescapeEscaped(g: seq<Bit>, rest: seq<Bit>)
    requires |g| == 8
    ensures OldUnescape(OldEscape + g + rest) == g + OldUnescape(rest)
  {
    var t := OldEscape + g + rest;
    assert t[..8] == OldEscape && t[8..16] == g && t[16..] == rest;
  }

  lemma UnescapePlain(g: seq<Bit>, rest: seq<Bit>)
    requires |g| == 8 && g != OldEscape
    ensures OldUnescape(g + rest) == g + OldUnescape(rest)
  {
    var t := g + rest;
    assert t[..8] == g && t[8..] == rest;
  }

  lemma {:induction false} OldUnescapeStuffed(s: seq<Bit>)
    ensures OldUnescape(OldByteStuffGroups(s)) == s
    decreases |s|
  {
    if s != [] {
      var g := Slice(s, 0, 8);
      var rest := OldByteStuffGroups(s[|g|..]);
      OldUnescapeStuffed(s[|g|..]);
      assert s == g + s[|g|..];
      if |g| < 8 {
        assert s[|g|..] == [];
        assert OldByteStuffGroups(s) == g + [];
      } else if Escaped(g) {
        assert OldByteStuffGroups(s) == OldEscape + g + rest;
        UnescapeEscaped(g, rest);
      } else {
        assert OldByteStuffGroups(s) == g + rest;
        UnescapePlain(g, rest);
      }
    }
  }

  /** Unlike `byte_insertion`, the older byte insertion loses nothing: the
      payload of every frame can be read back, whatever it holds. */
  lemma OldByteInsertionRoundTrip(s: seq<Bit>)
    ensures OldUnescape(Trimmed(OldByteStuffed(s))) == s
  {
    FramedTrim(OldByteStuffGroups(s));
    OldUnescapeStuffed(s);
  }

  // ---------------------------------------------------------------------------
  // "Bit insertion" on 8-bit groups
  // ---------------------------------------------------------------------------

  /** For each 8-bit group of s, cut from the front, whether it is the flag. */
  function FlagPattern(s: seq<Bit>): (r: seq<bool>)
    ensures |r| == (|s| + 7) / 8
    decreases |s|
  {
    if s == [] then []
    else
      var g := Slice(s, 0, 8);
      [g == Flag] + FlagPattern(s[|g|..])
  }

  /** A frame body made of one `011111010` per flag group and one flag per
      other group. */
  function PatternFrame(p: seq<bool>): (r: seq<Bit>)
    ensures |r| == 8 * |p| + FlagCount(p)
  {
    if p == [] then [] else (if p[0] then StuffedFlag else Flag) + PatternFrame(p[1..])
  }

  /** How many groups of the pattern p are the flag. */
  function FlagCount(p: seq<bool>): (r: nat)
    ensures r <= |p|
  {
    if p == [] then 0 else (if p[0] then 1 else 0) + FlagCount(p[1..])
  }

  /** The groups of the older `char_insertion` loop. */
  function OldCharStuffGroups(s: seq<Bit>): seq<Bit>
    decreases |s|
  {
    if s == [] then []
    else
      var g := Slice(s, 0, 8);
      (if g == Flag then StuffedFlag else Flag) + OldCharStuffGroups(s[|g|..])
  }

  /** What the older `char_insertion` returns: an opening flag and the
      groups, with no closing flag of its own. */
  function OldCharStuffed(s: seq<Bit>): (r: seq<Bit>)
    ensures |r| >= 8 && r[..8] == Flag
  {
    Flag + OldCharStuffGroups(s)
  }

  /** The older `char_insertion`. */
  method OldCharInsertion(s: seq<Bit>) returns (r: seq<Bit>)
    ensures r == OldCharStuffed(s)
  {
    r := Flag;
    var i := 0;
    assert s[0..] == s;
    while i < |s|
      invariant 0 <= i <= |s|
      invariant r + OldCharStuffGroups(s[i..]) == Flag + OldCharStuffGroups(s)
      decreases |s| - i
    {
      var group := Slice(s, i, i + 8);
      GroupAt(s, i);
      CharStuffStep(s, i);
      ghost var rest := OldCharStuffGroups(s[i + |group|..]);
      if group == Flag {
        assert r + (StuffedFlag + rest) == (r + StuffedFlag) + rest;
        r := r + [0, 1, 1, 1, 1, 1, 0, 1, 0];
      } else {
        assert r + (Flag + rest) == (r + Flag) + rest;
        r := r + Flag;
      }
      i := i + |group|;
    }
    assert s[|s|..] == [];
    assert r + [] == r;
  }

  lemma CharStuffStep(s: seq<Bit>, i: nat)
    requires i < |s|
    ensures var g := Slice(s, i, i + 8);
      OldCharStuffGroups(s[i..])
        == (if g == Flag then StuffedFlag else Flag) + OldCharStuffGroups(s[i + |g|..])
  {
    GroupAt(s, i);
  }

  /** The older `char_insertion` keeps only which groups were the flag: its
      output is the flag followed by the frame of that pattern. */
  lemma {:induction false} OldCharStuffedIsPattern(s: seq<Bit>)
    ensures OldCharStuffed(s) == Flag + PatternFrame(FlagPattern(s))
    ensures |OldCharStuffed(s)| == 8 + 8 * ((|s| + 7) / 8) + FlagCount(FlagPattern(s))
    decreases |s|
  {
    if s != [] {
      var g := Slice(s, 0, 8);
      OldCharStuffedIsPattern(s[|g|..]);
      var p := FlagPattern(s);
      assert p[1..] == FlagPattern(s[|g|..]);
    }
  }

  /** So the payload bits are lost: two different bytes, neither of them the
      flag, are framed alike. */
  lemma OldCharInsertionLossy()
    ensures Zeros(8) != [1, 1, 1, 1, 1, 1, 1, 1]
    ensures OldCharStuffed(Zeros(8)) == OldCharStuffed([1, 1, 1, 1, 1, 1, 1, 1])
    ensures OldCharStuffed(Zeros(8)) == Flag + Flag
  {
    var z := Zeros(8);
    var o: seq<Bit> := [1, 1, 1, 1, 1, 1, 1, 1];
    assert z[0] != o[0];
    assert Slice(z, 0, 8) == z && z != Flag by { assert z[1] != Flag[1]; }
    assert Slice(o, 0, 8) == o && o != Flag by { assert o[0] != Flag[0]; }
    assert z[8..] == [] && o[8..] == [];
    assert OldCharStuffGroups(z) == Flag + [];
    assert OldCharStuffGroups(o) == Flag + [];
  }
}
