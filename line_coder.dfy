/** The transmitter's physical layer, camada_fisica.py: the three baseband
    line codes, which turn bits into a list of levels, and the discrete part of
    8-QAM, which turns that list into constellation symbols. The sampled
    waveforms and time axes are not modelled. */
module LineCoder {
  import opened Common

  // ---------------------------------------------------------------------------
  // NRZ-Polar
  // ---------------------------------------------------------------------------

  /** The levels NRZ-Polar sends: +1 for a 1, -1 for anything else. */
  function NrzLevels(bits: seq<Bit>): (r: seq<int>)
    ensures |r| == |bits|
    ensures forall k :: 0 <= k < |bits| ==> r[k] == (if bits[k] == 1 then 1 else -1)
  {
    if bits == [] then []
    else NrzLevels(bits[..|bits| - 1]) + [if bits[|bits| - 1] == 1 then 1 else -1]
  }

  /** `nrz_polar_modulation`, without the time axis. */
  method NrzPolarModulation(bits: seq<Bit>) returns (signal: seq<int>)
    ensures signal == NrzLevels(bits)
  {
    signal := [];
    for k := 0 to |bits|
      invariant signal == NrzLevels(bits[..k])
    {
      assert bits[..k + 1][..k] == bits[..k];
      if bits[k] == 1 {
        signal := signal + [1];
      } else {
        signal := signal + [-1];
      }
    }
    assert bits[..|bits|] == bits;
  }

  // ---------------------------------------------------------------------------
  // Manchester
  // ---------------------------------------------------------------------------

  /** The clock `(0, 1)` each bit is XORed with. */
  const Clock: (Bit, Bit) := (0, 1)

  /** The levels Manchester sends: each bit b as the pair (b, 1 - b). */
  function ManchesterLevels(bits: seq<Bit>): (r: seq<Bit>)
    ensures |r| == 2 * |bits|
    ensures forall k :: 0 <= k < |bits| ==> r[2 * k] == bits[k] && r[2 * k + 1] == 1 - bits[k]
  {
    if bits == [] then []
    else
      var b := bits[|bits| - 1];
      ManchesterLevels(bits[..|bits| - 1]) + [Xor(b, Clock.0), Xor(b, Clock.1)]
  }

  /** `manchester_modulation`, without the time axis. */
  method ManchesterModulation(bits: seq<Bit>) returns (signal: seq<Bit>)
    ensures signal == ManchesterLevels(bits)
  {
    signal := [];
    for k := 0 to |bits|
      invariant signal == ManchesterLevels(bits[..k])
    {
      assert bits[..k + 1][..k] == bits[..k];
      signal := signal + [Xor(bits[k], Clock.0), Xor(bits[k], Clock.1)];
    }
    assert bits[..|bits|] == bits;
  }

  // ---------------------------------------------------------------------------
  // Bipolar (AMI)
  // ---------------------------------------------------------------------------

  /** The level AMI sends for bit b when `ones` 1s came before it: 0 for a
      0, and for a 1 a polarity that alternates, starting with +1. */
  function AmiLevel(b: Bit, ones: int): int
  {
    if b == 0 then 0 else if ones % 2 == 0 then 1 else -1
  }

  /** The levels of alternate mark inversion, bit by bit. */
  function AmiLevels(bits: seq<Bit>): (r: seq<int>)
    ensures |r| == |bits|
  {
    if bits == [] then []
    else
      var init := bits[..|bits| - 1];
      AmiLevels(init) + [AmiLevel(bits[|bits| - 1], Sum(init))]
  }

  /** Level k of AMI is set by bit k and by the number of 1s before it. */
  lemma {:induction false} AmiLevelAt(bits: seq<Bit>, k: nat)
    requires k < |bits|
    ensures AmiLevels(bits)[k] == AmiLevel(bits[k], Sum(bits[..k]))
    decreases |bits|
  {
    var init := bits[..|bits| - 1];
    if k < |init| {
      AmiLevelAt(init, k);
      assert init[..k] == bits[..k];
    }
  }

  /** One more bit: its level follows the levels so far, and one more 1 before
      the next bit. */
  lemma AmiStep(bits: seq<Bit>, k: nat)
    requires k < |bits|
    ensures AmiLevels(bits[..k + 1]) == AmiLevels(bits[..k]) + [AmiLevel(bits[k], Sum(bits[..k]))]
    ensures Sum(bits[..k + 1]) == Sum(bits[..k]) + bits[k]
  {
    assert bits[..k + 1][..k] == bits[..k];
  }

  /** `bipolar_modulation`, without the time axis: the polarity of the last 1
      is kept in `lastBitOne`, -1 before the first. */
  method BipolarModulation(bits: seq<Bit>) returns (signal: seq<int>)
    ensures signal == AmiLevels(bits)
  {
    signal := [];
    var lastBitOne := -1;
    for k := 0 to |bits|
      invariant signal == AmiLevels(bits[..k])
      invariant lastBitOne == if Sum(bits[..k]) % 2 == 1 then 1 else -1
    {
      AmiStep(bits, k);
      ghost var ones := Sum(bits[..k]);
      if bits[k] == 1 {
        if lastBitOne == 1 {
          assert AmiLevel(1, ones) == -1;
          signal := signal + [-1];
          lastBitOne := -1;
        } else {
          assert AmiLevel(1, ones) == 1;
          signal := signal + [1];
          lastBitOne := 1;
        }
      } else {
        signal := signal + [0];
      }
    }
    assert bits[..|bits|] == bits;
  }

  /** The number of non-zero levels in a list. */
  function Marks(levels: seq<int>): (r: nat)
    ensures r <= |levels|
  {
    if levels == [] then 0
    else Marks(levels[..|levels| - 1]) + (if levels[|levels| - 1] != 0 then 1 else 0)
  }

  /** AMI sends one non-zero level per 1 and keeps no direct current: the
      levels add up to 0 after an even number of 1s and to +1 after an odd
      number. */
  lemma {:induction false} AmiBalance(bits: seq<Bit>)
    ensures Marks(AmiLevels(bits)) == Sum(bits)
    ensures Sum(AmiLevels(bits)) == Sum(bits) % 2
    decreases |bits|
  {
    if bits != [] {
      var init := bits[..|bits| - 1];
      var b := bits[|bits| - 1];
      AmiBalance(init);
      var r := AmiLevels(bits);
      var level := AmiLevel(b, Sum(init));
      assert r == AmiLevels(init) + [level];
      assert r[..|r| - 1] == AmiLevels(init) && r[|r| - 1] == level;
      assert Sum(bits) == Sum(init) + b;
      LevelArith(b, Sum(init));
    }
  }

  lemma LevelArith(b: Bit, ones: int)
    ensures (if AmiLevel(b, ones) != 0 then 1 else 0) == b
    ensures (ones % 2 + AmiLevel(b, ones)) == (ones + b) % 2
  {
  }

  lemma SumStep(bits: seq<Bit>, m: nat)
    requires m < |bits|
    ensures Sum(bits[..m + 1]) == Sum(bits[..m]) + bits[m]
  {
    assert bits[..m + 1][..m] == bits[..m];
  }

  lemma {:induction false} SumOverZeros(bits: seq<Bit>, j: nat, k: nat)
    requires j < k <= |bits|
    requires forall m :: j < m < k ==> bits[m] == 0
    ensures Sum(bits[..k]) == Sum(bits[..j + 1])
    decreases k - j
  {
    if k > j + 1 {
      SumOverZeros(bits, j, k - 1);
      SumStep(bits, k - 1);
    }
  }

  /** Two 1s with only 0s between them are sent with opposite levels. */
  lemma AmiAlternates(bits: seq<Bit>, j: nat, k: nat)
    requires j < k < |bits| && bits[j] == 1 && bits[k] == 1
    requires forall m :: j < m < k ==> bits[m] == 0
    ensures AmiLevels(bits)[k] == -AmiLevels(bits)[j]
  {
    SumOverZeros(bits, j, k);
    SumStep(bits, j);
    AmiLevelAt(bits, j);
    AmiLevelAt(bits, k);
  }

  // ---------------------------------------------------------------------------
  // 8-QAM: the discrete part
  // ---------------------------------------------------------------------------

  /** The names of the line codes, as the interface offers them. */
  const NrzPolarName: string := "NRZ-Polar"
  const ManchesterName: string := "Manchester"
  const BipolarName: string := "Bipolar"

  /** The levels the chosen line code sends. */
  function LineLevels(mode: string, bits: seq<Bit>): seq<int>
    requires mode == NrzPolarName || mode == ManchesterName || mode == BipolarName
  {
    if mode == NrzPolarName then NrzLevels(bits)
    else if mode == ManchesterName then ManchesterLevels(bits)
    else AmiLevels(bits)
  }

  /** The level that stands for a 0 in the constellation: -1 after NRZ-Polar,
      0 otherwise. */
  function BitZero(mode: string): (z: int)
    ensures z == 0 || z == -1
  {
    if mode == NrzPolarName then -1 else 0
  }

  /** The list after the in-place rewrite: after Bipolar every -1 becomes 1,
      after anything else the list is left alone. */
  function Rewritten(levels: seq<int>, mode: string): (r: seq<int>)
    ensures |r| == |levels|
    ensures forall k :: 0 <= k < |levels| ==>
      r[k] == if mode == BipolarName && levels[k] == -1 then 1 else levels[k]
  {
    if mode != BipolarName then levels
    else seq(|levels|, k requires 0 <= k < |levels| => if levels[k] == -1 then 1 else levels[k])
  }

  /** The list padded with z up to a multiple of three. */
  function Padded(levels: seq<int>, z: int): (r: seq<int>)
    ensures |r| % 3 == 0 && |levels| <= |r| < |levels| + 3
    ensures r[..|levels|] == levels
    ensures forall k :: |levels| <= k < |r| ==> r[k] == z
  {
    levels + seq((3 - |levels| % 3) % 3, _ => z)
  }

  /** The amplitude of a symbol: A / 2 or A. */
  datatype Amplitude = Half | Full

  /** A constellation point: its amplitude and its phase, in multiples of
      pi / 4 (0 to 3). */
  datatype Symbol = Symbol(amplitude: Amplitude, phase: nat)

  /** Is the level one of the two the constellation knows? */
  predicate IsSymbolLevel(x: int, z: int)
  {
    x == z || x == 1
  }

  /** The constellation dictionary: the keys are the triples of z and 1; the
      first selects the amplitude and the other two the phase. */
  function Constellation(a: int, b: int, c: int, z: int): (r: Option<Symbol>)
    requires z == 0 || z == -1
    ensures r.Some? <==> IsSymbolLevel(a, z) && IsSymbolLevel(b, z) && IsSymbolLevel(c, z)
    ensures r.Some? ==> r.value.phase < 4
  {
    if IsSymbolLevel(a, z) && IsSymbolLevel(b, z) && IsSymbolLevel(c, z) then
      Some(Symbol(if a == 1 then Full else Half, (if b == 1 then 2 else 0) + (if c == 1 then 1 else 0)))
    else None
  }

  /** The triple a symbol stands for. */
  function SymbolLevels(sym: Symbol, z: int): seq<int>
  {
    [if sym.amplitude == Full then 1 else z,
     if sym.phase / 2 == 1 then 1 else z,
     if sym.phase % 2 == 1 then 1 else z]
  }

  /** Every key of the constellation is recovered from its symbol, so no two
      keys share a symbol. */
  lemma ConstellationInverse(a: int, b: int, c: int, z: int)
    requires z == 0 || z == -1
    requires Constellation(a, b, c, z).Some?
    ensures SymbolLevels(Constellation(a, b, c, z).value, z) == [a, b, c]
  {
  }

  /** The symbols for a list whose length is a multiple of three, three levels
      each; a triple that is not a key raises ValueError. */
  function Qam8Symbols(levels: seq<int>, z: int): (r: Result<seq<Symbol>>)
    requires |levels| % 3 == 0 && (z == 0 || z == -1)
    ensures r.Err? ==> r.error == ValueError
    ensures r.Ok? ==> |r.value| == |levels| / 3
  {
    if levels == [] then Ok([])
    else
      var n := |levels|;
      var init :- Qam8Symbols(levels[..n - 3], z);
      var sym := Constellation(levels[n - 3], levels[n - 2], levels[n - 1], z);
      if sym.None? then Err(ValueError) else Ok(init + [sym.value])
  }

  /** The lookup fails exactly when some level is neither z nor 1. */
  lemma {:induction false} Qam8SymbolsAccepts(levels: seq<int>, z: int)
    requires |levels| % 3 == 0 && (z == 0 || z == -1)
    ensures Qam8Symbols(levels, z).Ok? <==> forall k :: 0 <= k < |levels| ==> IsSymbolLevel(levels[k], z)
    decreases |levels|
  {
    if levels != [] {
      var n := |levels|;
      var init := levels[..n - 3];
      Qam8SymbolsAccepts(init, z);
      assert forall k :: 0 <= k < n - 3 ==> init[k] == levels[k];
      if Constellation(levels[n - 3], levels[n - 2], levels[n - 1], z).None? {
        assert !IsSymbolLevel(levels[n - 3], z) || !IsSymbolLevel(levels[n - 2], z)
          || !IsSymbolLevel(levels[n - 1], z);
      }
    }
  }

  /** When the lookup succeeds, symbol k gives back levels 3k to 3k + 2. */
  lemma {:induction false} Qam8SymbolsTriples(levels: seq<int>, z: int)
    requires |levels| % 3 == 0 && (z == 0 || z == -1)
    ensures Qam8Symbols(levels, z).Ok? ==> forall k :: 0 <= k < |levels| / 3 ==>
      SymbolLevels(Qam8Symbols(levels, z).value[k], z) == levels[3 * k..3 * k + 3]
    decreases |levels|
  {
    if levels != [] && Qam8Symbols(levels, z).Ok? {
      var n := |levels|;
      var init := levels[..n - 3];
      Qam8SymbolsTriples(init, z);
      ConstellationInverse(levels[n - 3], levels[n - 2], levels[n - 1], z);
      assert levels[n - 3..n] == [levels[n - 3], levels[n - 2], levels[n - 1]];
      var r := Qam8Symbols(levels, z).value;
      assert r == Qam8Symbols(init, z).value
        + [Constellation(levels[n - 3], levels[n - 2], levels[n - 1], z).value];
      forall k | 0 <= k < n / 3
        ensures SymbolLevels(r[k], z) == levels[3 * k..3 * k + 3]
      {
        if k < n / 3 - 1 {
          assert init[3 * k..3 * k + 3] == levels[3 * k..3 * k + 3];
        } else {
          assert 3 * k == n - 3;
        }
      }
    }
  }

  /** The loop of `qam8_modulation` that rewrites every -1 of the caller's
      list to 1, in place. */
  method RewriteNegatives(stream: MutableList<int>)
    modifies stream
    ensures stream.items == Rewritten(old(stream.items), BipolarName)
  {
    ghost var original := stream.items;
    for i := 0 to |stream.items|
      invariant |stream.items| == |original|
      invariant forall k :: 0 <= k < i ==> stream.items[k] == Rewritten(original, BipolarName)[k]
      invariant forall k :: i <= k < |original| ==> stream.items[k] == original[k]
    {
      if stream.items[i] == -1 {
        stream.items := stream.items[i := 1];
      }
    }
  }

  /** The loop of `qam8_modulation` that appends z to the caller's list until
      its length is a multiple of three. */
  method PadToTriples(stream: MutableList<int>, z: int)
    modifies stream
    ensures stream.items == Padded(old(stream.items), z)
  {
    ghost var target := Padded(stream.items, z);
    while |stream.items| % 3 != 0
      invariant |old(stream.items)| <= |stream.items| <= |target|
      invariant stream.items == target[..|stream.items|]
      decreases |target| - |stream.items|
    {
      stream.items := stream.items + [z];
    }
  }

  /** The loop of `qam8_modulation` over the symbols: each triple is looked up
      in the constellation, and one that is not a key raises ValueError. */
  method LookupSymbols(levels: seq<int>, z: int) returns (r: Result<seq<Symbol>>)
    requires |levels| % 3 == 0 && (z == 0 || z == -1)
    ensures r == Qam8Symbols(levels, z)
  {
    var sigSize := |levels| / 3;
    var symbols: seq<Symbol> := [];
    for i := 0 to sigSize
      invariant Qam8Symbols(levels[..3 * i], z) == Ok(symbols)
    {
      assert levels[..3 * (i + 1)][..3 * i] == levels[..3 * i];
      var sym := Constellation(levels[3 * i], levels[3 * i + 1], levels[3 * i + 2], z);
      if sym.None? {
        Qam8PrefixError(levels, i + 1, z);
        return Err(ValueError);
      }
      symbols := symbols + [sym.value];
    }
    assert levels[..3 * sigSize] == levels;
    r := Ok(symbols);
  }

  /** The part of `qam8_modulation` that works on integers: the caller's list
      is rewritten (after Bipolar) and padded in place, then cut into
      symbols. */
  method Qam8Modulation(stream: MutableList<int>, mode: string) returns (r: Result<seq<Symbol>>)
    modifies stream
    ensures stream.items == Padded(Rewritten(old(stream.items), mode), BitZero(mode))
    ensures r == Qam8Symbols(stream.items, BitZero(mode))
  {
    var bitZero := 0;
    if mode == NrzPolarName {
      bitZero := -1;
    } else if mode == BipolarName {
      RewriteNegatives(stream);
    }
    PadToTriples(stream, bitZero);
    r := LookupSymbols(stream.items, bitZero);
  }

  /** A prefix whose lookup fails makes the whole lookup fail. */
  lemma {:induction false} Qam8PrefixError(levels: seq<int>, j: nat, z: int)
    requires |levels| % 3 == 0 && 3 * j <= |levels| && (z == 0 || z == -1)
    requires Qam8Symbols(levels[..3 * j], z).Err?
    ensures Qam8Symbols(levels, z).Err?
    decreases |levels| - 3 * j
  {
    if 3 * j < |levels| {
      var n := |levels|;
      var init := levels[..n - 3];
      assert init[..3 * j] == levels[..3 * j];
      Qam8PrefixError(init, j, z);
    } else {
      assert levels[..3 * j] == levels;
    }
  }

  /** Whatever bits the line code sent, the 8-QAM lookup accepts the list
      it finds, once rewritten and padded for that line code. */
  lemma Qam8AcceptsLineCodes(mode: string, bits: seq<Bit>)
    requires mode == NrzPolarName || mode == ManchesterName || mode == BipolarName
    ensures var z := BitZero(mode);
      Qam8Symbols(Padded(Rewritten(LineLevels(mode, bits), mode), z), z).Ok?
  {
    var z := BitZero(mode);
    var levels := LineLevels(mode, bits);
    var q := Rewritten(levels, mode);
    forall k | 0 <= k < |levels|
      ensures IsSymbolLevel(q[k], z)
    {
      if mode == BipolarName {
        AmiLevelAt(bits, k);
      }
    }
    var p := Padded(q, z);
    forall k | 0 <= k < |p|
      ensures IsSymbolLevel(p[k], z)
    {
      if k < |q| {
        assert p[k] == p[..|q|][k];
      }
    }
    Qam8SymbolsAccepts(p, z);
  }
}
