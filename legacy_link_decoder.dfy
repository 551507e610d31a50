// The older receiver, decode_camada_enlace.py. Its `text_from_bits`,
// `decode_crc`, `decode_parity_bit` and `decode_char_count` compute what the
// server's do (only the exception texts differ), so they are the members of
// LinkDecoder. What differs is modelled here: a Hamming decoder that keeps
// only the last group and fails on a partial one, and flag decoders that never
// look at the flags.

module LegacyLinkDecoder {
  import opened Common
  import opened Binary
  import opened LinkEncoder
  import opened LinkDecoder

  // ---------------------------------------------------------------------------
  // Hamming: only the last group survives
  // ---------------------------------------------------------------------------

  /** The loop of the older `decode_hamming` over the groups from the front of
      s: every group is indexed up to position 11, so a short one raises
      IndexError, as does a syndrome past the group; the result is the
      corrected data of the last group. */
  function LastGroupData(s: seq<Bit>): (r: Result<seq<Bit>>)
    requires s != []
    ensures r.Ok? ==> |r.value| == 8
    ensures r.Err? ==> r.error == IndexError
    decreases |s|
  {
    if |s| < 12 then Err(IndexError)
    else
      var d :- CorrectGroup(s[..12]);
      if |s| == 12 then Ok(d) else LastGroupData(s[12..])
  }

  /** The earlier groups are only checked: the data returned is the
      correction of the last 12 bits. */
  lemma {:induction false} LastGroupDataIsLast(s: seq<Bit>)
    requires s != []
    ensures LastGroupData(s).Ok? ==> |s| >= 12 && LastGroupData(s) == CorrectGroup(s[|s| - 12..])
    decreases |s|
  {
    if |s| > 12 && CorrectGroup(s[..12]).Ok? {
      LastGroupDataIsLast(s[12..]);
      if |s| >= 24 {
        assert s[12..][|s[12..]| - 12..] == s[|s| - 12..];
      }
    } else if |s| == 12 {
      assert s[..12] == s[|s| - 12..];
    }
  }

  /** What the older `decode_hamming` returns: with no group at all the
      variable it returns was never bound. */
  function OldHammingDecoded(s: seq<Bit>): (r: Result<seq<Bit>>)
    ensures r.Err? && r.error == UnboundLocalError <==> s == []
    ensures r.Err? ==> r.error == UnboundLocalError || r.error == IndexError
    ensures r.Ok? ==> |r.value| == 8
    ensures r.Ok? ==> |s| >= 12 && r == CorrectGroup(s[|s| - 12..])
  {
    if s == [] then Err(UnboundLocalError) else LastGroupDataIsLast(s); LastGroupData(s)
  }

  /** The older `decode_hamming`. */
  method OldDecodeHamming(s: seq<Bit>) returns (r: Result<seq<Bit>>)
    ensures r == OldHammingDecoded(s)
  {
    var originalByte: Option<seq<Bit>> := None;
    var i := 0;
    assert s[0..] == s;
    while i < |s|
      invariant 0 <= i <= |s|
      invariant i < |s| ==> LastGroupData(s[i..]) == LastGroupData(s)
      invariant originalByte.Some? <==> 0 < i
      invariant 0 < i == |s| ==> LastGroupData(s) == Ok(originalByte.value)
      decreases |s| - i
    {
      var group := Slice(s, i, i + 12);
      if |group| < 12 {
        assert LastGroupData(s[i..]) == Err(IndexError);
        return Err(IndexError);
      }
      assert s[i..][..12] == group && s[i..][12..] == s[i + 12..];
      var corrected := CorrectInPlace(group);
      if corrected.Err? {
        assert LastGroupData(s[i..]) == Err(IndexError);
        return Err(IndexError);
      }
      assert LastGroupData(s[i..]) ==
        if i + 12 == |s| then corrected else LastGroupData(s[i + 12..]);
      originalByte := Some(corrected.value);
      i := i + 12;
    }
    if originalByte.None? {
      assert s == [];
      return Err(UnboundLocalError);
    }
    r := Ok(originalByte.value);
  }

  /** A list that is not a whole number of 12-bit groups makes the older
      `decode_hamming` raise IndexError. */
  lemma {:induction false} OldHammingRejectsPartial(s: seq<Bit>)
    requires |s| % 12 != 0
    ensures OldHammingDecoded(s) == Err(IndexError)
    decreases |s|
  {
    if |s| >= 12 && CorrectGroup(s[..12]).Ok? {
      assert |s[12..]| % 12 == |s| % 12;
      OldHammingRejectsPartial(s[12..]);
    }
  }

  /** On what `hamming` sends for whole bytes, the older `decode_hamming`
      returns the last byte only: the earlier ones are dropped. */
  lemma {:induction false} OldHammingKeepsLastByte(d: seq<Bit>)
    requires |d| >= 8 && |d| % 8 == 0
    ensures OldHammingDecoded(HammingEncoded(d)) == Ok(d[|d| - 8..])
    decreases |d|
  {
    var c := HammingEncoded(d);
    assert c == Codeword(d[..8]) + HammingEncoded(d[8..]);
    assert c[..12] == Codeword(d[..8]) && c[12..] == HammingEncoded(d[8..]);
    CodewordDecodes(d[..8]);
    if |d| > 8 {
      OldHammingKeepsLastByte(d[8..]);
      assert d[8..][|d[8..]| - 8..] == d[|d| - 8..];
    } else {
      assert d[..8] == d[|d| - 8..];
    }
  }

  /** One flipped bit in the last codeword of what `hamming` sends for whole
      bytes is corrected: the older `decode_hamming` still returns the last
      byte. */
  lemma {:induction false} OldHammingCorrectsLastFlip(d: seq<Bit>, k: nat)
    requires |d| >= 8 && |d| % 8 == 0 && k < 12
    ensures OldHammingDecoded(Flip(HammingEncoded(d), 12 * (|d| / 8) - 12 + k)) == Ok(d[|d| - 8..])
    decreases |d|
  {
    var c := Codeword(d[..8]);
    var tail := d[8..];
    var rest := HammingEncoded(tail);
    var p := 12 * (|d| / 8) - 12 + k;
    assert HammingEncoded(d) == c + rest;
    if |d| == 8 {
      assert |d| / 8 == 1 && p == k;
      assert rest == [] && c + rest == c && d[..8] == d;
      LastFlipInOneCodeword(d, k);
    } else {
      var q := 12 * (|tail| / 8) - 12 + k;
      assert p == q + 12 by {
        assert |tail| / 8 == |d| / 8 - 1;
      }
      var f := Flip(c + rest, p);
      FlipPastFront(c, rest, p);
      CodewordDecodes(d[..8]);
      calc {
        OldHammingDecoded(f);
        LastGroupData(f);
        LastGroupData(f[12..]);
        OldHammingDecoded(Flip(rest, q));
      == { OldHammingCorrectsLastFlip(tail, k); }
        Ok(tail[|tail| - 8..]);
      == { assert tail[|tail| - 8..] == d[|d| - 8..]; }
        Ok(d[|d| - 8..]);
      }
    }
  }

  lemma LastFlipInOneCodeword(d: seq<Bit>, k: nat)
    requires |d| == 8 && k < 12
    ensures OldHammingDecoded(Flip(Codeword(d), k)) == Ok(d)
  {
    var f := Flip(Codeword(d), k);
    assert f[..12] == f;
    CodewordCorrectsOneFlip(d, k);
  }

  /** A flip past the first group leaves that group alone. */
  lemma FlipPastFront(c: seq<Bit>, rest: seq<Bit>, p: nat)
    requires |c| == 12 && 12 <= p < 12 + |rest|
    ensures Flip(c + rest, p)[..12] == c
    ensures Flip(c + rest, p)[12..] == Flip(rest, p - 12)
  {
  }

  // ---------------------------------------------------------------------------
  // Flag framing without the flag check
  // ---------------------------------------------------------------------------

  /** What the older `decode_char_insertion` returns: the middle of the list
      with every `011111010` turned back into the flag, whatever the first and
      last eight bits are. */
  function OldCharUnstuffed(s: seq<Bit>): (r: seq<Bit>)
    ensures FlagsMatch(s) <==> CharUnstuffed(s) == Ok(r)
    ensures CharUnstuffed(Flag + Trimmed(s) + Flag) == Ok(r)
    ensures |r| <= Max(0, |s| - 16)
  {
    var t := Trimmed(s);
    FramedTrim(t);
    UnstuffScan(t, 0, |t|)
  }

  /** The older `decode_char_insertion`. */
  method OldDecodeCharInsertion(s: seq<Bit>) returns (r: seq<Bit>)
    ensures r == OldCharUnstuffed(s)
  {
    var trimmed := Trimmed(s);
    r := Unstuff(trimmed);
  }

  /** What the older `decode_byte_insertion` returns: the middle of the list
      with escapes removed under the latch, whatever the first and last eight
      bits are. */
  function OldByteDestuffed(s: seq<Bit>): (r: seq<Bit>)
    ensures FlagsMatch(s) <==> ByteDestuffed(s) == Ok(r)
    ensures ByteDestuffed(Flag + Trimmed(s) + Flag) == Ok(r)
    ensures |r| <= Max(0, |s| - 16)
  {
    var t := Trimmed(s);
    FramedTrim(t);
    DestuffScan(t, 0, |t|, false)
  }

  /** The older `decode_byte_insertion`. */
  method OldDecodeByteInsertion(s: seq<Bit>) returns (r: seq<Bit>)
    ensures r == OldByteDestuffed(s)
  {
    var trimmed := Trimmed(s);
    r := Destuff(trimmed);
  }

  /** The older decoders accept a frame whose flags were damaged, where the
      server's report a transmission error: 24 zero bits come back as their
      middle byte. */
  lemma OldDecodersIgnoreFlags()
    ensures OldCharUnstuffed(Zeros(24)) == Zeros(8)
    ensures OldByteDestuffed(Zeros(24)) == Zeros(8)
    ensures CharUnstuffed(Zeros(24)) == Err(TransmissionError)
    ensures ByteDestuffed(Zeros(24)) == Err(TransmissionError)
  {
    var z := Zeros(24);
    assert z[..8] == Zeros(8) && z[8..16] == Zeros(8);
    assert Slice(z, 0, 8) != Flag by { assert Slice(z, 0, 8)[1] == 0; }
    var t := Trimmed(z);
    assert t == Zeros(8);
    assert forall j :: 0 <= j < 8 ==> |Window(t, j, 9)| < 9;
    UnstuffScanUntouched(t, 0, 8);
    assert forall j :: 0 <= j < 8 ==> Window(t, j, 8) != Escape by {
      forall j | 0 <= j < 8 ensures Window(t, j, 8) != Escape {
        if |Window(t, j, 8)| == 8 {
          assert Window(t, j, 8)[1] == 0;
        }
      }
    }
    DestuffScanUntouched(t, 0, 8, false);
  }
}
