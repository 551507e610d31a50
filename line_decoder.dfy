/** The receiver's baseband decoders, Servidor/decode_camada_fisica.py: each
    turns a list of levels back into bits. */
module LineDecoder {
  import opened Common
  import opened LineCoder

  // ---------------------------------------------------------------------------
  // NRZ-Polar
  // ---------------------------------------------------------------------------

  /** What `demodulate_nrz_polar` returns: 1 for a level 1, 0 for any other. */
  function NrzBits(levels: seq<int>): (r: seq<Bit>)
    ensures |r| == |levels|
    ensures forall k :: 0 <= k < |levels| ==> (r[k] == 1 <==> levels[k] == 1)
  {
    if levels == [] then []
    else NrzBits(levels[..|levels| - 1]) + [if levels[|levels| - 1] == 1 then 1 else 0]
  }

  /** `demodulate_nrz_polar`. */
  method DemodulateNrzPolar(levels: seq<int>) returns (r: seq<Bit>)
    ensures r == NrzBits(levels)
  {
    r := [];
    for k := 0 to |levels|
      invariant r == NrzBits(levels[..k])
    {
      assert levels[..k + 1][..k] == levels[..k];
      if levels[k] == 1 {
        r := r + [1];
      } else {
        r := r + [0];
      }
    }
    assert levels[..|levels|] == levels;
  }

  /** The NRZ-Polar decoder inverts the NRZ-Polar coder. */
  lemma NrzRoundTrip(bits: seq<Bit>)
    ensures NrzBits(NrzLevels(bits)) == bits
  {
    var r := NrzBits(NrzLevels(bits));
    assert forall k :: 0 <= k < |bits| ==> r[k] == bits[k];
  }

  // ---------------------------------------------------------------------------
  // Bipolar (AMI)
  // ---------------------------------------------------------------------------

  /** What `demodulate_bipolar` returns: 1 for a level +1 or -1, 0 for any
      other. */
  function BipolarBits(levels: seq<int>): (r: seq<Bit>)
    ensures |r| == |levels|
    ensures forall k :: 0 <= k < |levels| ==> (r[k] == 1 <==> levels[k] == 1 || levels[k] == -1)
  {
    if levels == [] then []
    else
      var x := levels[|levels| - 1];
      BipolarBits(levels[..|levels| - 1]) + [if x == 1 || x == -1 then 1 else 0]
  }

  /** `demodulate_bipolar`. */
  method DemodulateBipolar(levels: seq<int>) returns (r: seq<Bit>)
    ensures r == BipolarBits(levels)
  {
    r := [];
    for k := 0 to |levels|
      invariant r == BipolarBits(levels[..k])
    {
      assert levels[..k + 1][..k] == levels[..k];
      if levels[k] == 1 || levels[k] == -1 {
        r := r + [1];
      } else {
        r := r + [0];
      }
    }
    assert levels[..|levels|] == levels;
  }

  /** The bipolar decoder inverts the bipolar coder, whatever polarity each 1
      was sent with. */
  lemma BipolarRoundTrip(bits: seq<Bit>)
    ensures BipolarBits(AmiLevels(bits)) == bits
  {
    var r := BipolarBits(AmiLevels(bits));
    forall k | 0 <= k < |bits|
      ensures r[k] == bits[k]
    {
      AmiLevelAt(bits, k);
    }
  }

  // ---------------------------------------------------------------------------
  // Manchester
  // ---------------------------------------------------------------------------

  /** The bit a pair of levels stands for: (0, 1) is 1, (1, 0) is 0, any
      other pair is dropped. */
  function PairBit(a: int, b: int): (r: seq<Bit>)
    ensures |r| <= 1
  {
    if a == 0 && b == 1 then [1]
    else if a == 1 && b == 0 then [0]
    else []
  }

  /** The bits of a list of whole pairs, read pair by pair. */
  function PairBits(levels: seq<int>): (r: seq<Bit>)
    requires |levels| % 2 == 0
    ensures |r| <= |levels| / 2
  {
    if levels == [] then []
    else
      var n := |levels|;
      PairBits(levels[..n - 2]) + PairBit(levels[n - 2], levels[n - 1])
  }

  /** Does reading the pair that starts at the last level of an odd list look
      past its end? Only when that level is 0 or 1, since otherwise both
      tests fail on their first comparison. */
  predicate ReadsPastEnd(levels: seq<int>)
  {
    |levels| % 2 == 1 && (levels[|levels| - 1] == 0 || levels[|levels| - 1] == 1)
  }

  /** What `demodulate_manchester` returns. */
  function ManchesterBits(levels: seq<int>): (r: Result<seq<Bit>>)
    ensures r.Err? <==> ReadsPastEnd(levels)
    ensures r.Err? ==> r.error == IndexError
    ensures r.Ok? ==> |r.value| <= |levels| / 2
  {
    if ReadsPastEnd(levels) then Err(IndexError)
    else Ok(PairBits(levels[..|levels| - |levels| % 2]))
  }

  /** `demodulate_manchester`. */
  method DemodulateManchester(levels: seq<int>) returns (r: Result<seq<Bit>>)
    ensures r == ManchesterBits(levels)
  {
    var bits: seq<Bit> := [];
    var i := 0;
    // `range(0, len(levels), 2)`, with the pass over the last level of an odd
    // list written after the loop
    while i + 1 < |levels|
      invariant 0 <= i <= |levels| && i % 2 == 0
      invariant bits == PairBits(levels[..i])
      decreases |levels| - i
    {
      PairStep(levels, i);
      bits := bits + PairBit(levels[i], levels[i + 1]);
      i := i + 2;
    }
    if i < |levels| {
      // `binary_sequence[i + 1]` is read only after a 0 or a 1
      if levels[i] == 0 || levels[i] == 1 {
        return Err(IndexError);
      }
    } else {
      assert levels[..i] == levels;
      WholePairs(levels);
    }
    r := Ok(bits);
  }

  /** One pass of the `demodulate_manchester` loop reads the next pair. */
  lemma PairStep(levels: seq<int>, i: nat)
    requires i + 2 <= |levels| && i % 2 == 0
    ensures PairBits(levels[..i + 2]) == PairBits(levels[..i]) + PairBit(levels[i], levels[i + 1])
  {
    assert levels[..i + 2][..i] == levels[..i];
  }

  /** The bitwise complement. */
  function Complement(bits: seq<Bit>): (r: seq<Bit>)
    ensures |r| == |bits|
    ensures forall k :: 0 <= k < |bits| ==> r[k] == 1 - bits[k]
  {
    if bits == [] then [] else Complement(bits[..|bits| - 1]) + [1 - bits[|bits| - 1]]
  }

  /** Reading the pairs of what the Manchester coder sent gives the
      complement of the bits. */
  lemma {:induction false} PairBitsOfManchester(bits: seq<Bit>)
    ensures PairBits(ManchesterLevels(bits)) == Complement(bits)
    decreases |bits|
  {
    if bits != [] {
      var init := bits[..|bits| - 1];
      var b := bits[|bits| - 1];
      PairBitsOfManchester(init);
      var m := ManchesterLevels(bits);
      assert m == ManchesterLevels(init) + [Xor(b, Clock.0), Xor(b, Clock.1)];
      var n := |m|;
      assert m[..n - 2] == ManchesterLevels(init);
      assert m[n - 2] == b && m[n - 1] == 1 - b;
      assert PairBit(b, 1 - b) == [1 - b];
      assert Complement(bits) == Complement(init) + [1 - b];
    }
  }

  /** The Manchester decoder reads (1, 0) as 0 while the coder sends a 1 as
      (1, 0): a round trip complements every bit. */
  lemma ManchesterRoundTrip(bits: seq<Bit>)
    ensures ManchesterBits(ManchesterLevels(bits)) == Ok(Complement(bits))
  {
    WholePairs(ManchesterLevels(bits));
    PairBitsOfManchester(bits);
  }

  /** A list of whole pairs is read pair by pair, with nothing left over. */
  lemma WholePairs(levels: seq<int>)
    requires |levels| % 2 == 0
    ensures ManchesterBits(levels) == Ok(PairBits(levels))
  {
    assert !ReadsPastEnd(levels);
    assert levels[..|levels| - |levels| % 2] == levels;
  }

  /** An odd list that ends in a 0 or a 1 makes the Manchester decoder read
      past the end; one that ends in another level does not. */
  lemma ManchesterOddFails()
    ensures ManchesterBits([0, 1, 1]) == Err(IndexError)
    ensures ManchesterBits([0, 1, 5]) == Ok([1])
  {
    var t: seq<int> := [0, 1, 5];
    var u: seq<int> := [0, 1];
    assert !ReadsPastEnd(t);
    assert t[..|t| - |t| % 2] == u;
    assert u[..0] == [];
    assert PairBits(u) == [1];
    assert ManchesterBits(t) == Ok(PairBits(u));
  }
}
