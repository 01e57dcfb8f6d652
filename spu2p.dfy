/**
 * Array helpers of the two-phase sequential (pressure, then transport) example: the
 * water-only and interleaved (water, oil) saturation layouts and the conversions between them,
 * the initial reservoir state, and the pore volume of each cell.
 */
module Spu2p {

  /** The water saturations of an interleaved two-phase array: the even entries. */
  function WaterSat(sboth: seq<real>): (sw: seq<real>)
  {
    seq(|sboth| / 2, i requires 0 <= i < |sboth| / 2 => sboth[2 * i])
  }

  /** The interleaved two-phase array of water saturations: water, then oil = 1 - water, per cell. */
  function BothSat(sw: seq<real>): (sboth: seq<real>)
    ensures |sboth| == 2 * |sw|
  {
    if sw == [] then [] else BothSat(sw[..|sw| - 1]) + [sw[|sw| - 1], 1.0 - sw[|sw| - 1]]
  }

  /** An interleaved two-phase array: an even number of entries, each cell's pair summing to 1. */
  predicate TwoPhase(sboth: seq<real>)
  {
    |sboth| % 2 == 0 && forall i :: 0 <= i < |sboth| / 2 ==> sboth[2 * i] + sboth[2 * i + 1] == 1.0
  }

  /** The interleaved array holds each water saturation at 2i and its complement at 2i+1. */
  lemma {:induction false} BothSatLayout(sw: seq<real>)
    ensures forall i :: 0 <= i < |sw| ==> BothSat(sw)[2 * i] == sw[i] && BothSat(sw)[2 * i + 1] == 1.0 - sw[i]
  {
    if sw != [] {
      var prefix := sw[..|sw| - 1];
      BothSatLayout(prefix);
      forall i | 0 <= i < |sw| - 1
        ensures BothSat(sw)[2 * i] == sw[i] && BothSat(sw)[2 * i + 1] == 1.0 - sw[i]
      {
        assert prefix[i] == sw[i];
      }
    }
  }

  /** toBothSat always yields a two-phase array. */
  lemma BothSatIsTwoPhase(sw: seq<real>)
    ensures TwoPhase(BothSat(sw))
  {
    BothSatLayout(sw);
  }

  /** Round trip: the water saturations of the interleaved array are the ones it was built from. */
  lemma WaterOfBoth(sw: seq<real>)
    ensures WaterSat(BothSat(sw)) == sw
  {
    BothSatLayout(sw);
  }

  /** The converse round trip: a two-phase array is rebuilt from its water saturations. */
  lemma BothOfWater(sboth: seq<real>)
    requires TwoPhase(sboth)
    ensures BothSat(WaterSat(sboth)) == sboth
  {
    var sw := WaterSat(sboth);
    BothSatLayout(sw);
    forall j | 0 <= j < |sboth|
      ensures BothSat(sw)[j] == sboth[j]
    {
      var i := j / 2;
      assert j == 2 * i || j == 2 * i + 1;
      assert i < |sw| && sw[i] == sboth[2 * i];
      assert sboth[2 * i] + sboth[2 * i + 1] == 1.0;
    }
  }

  /** toWaterSat: half as many entries as the interleaved array, each the even entry of its pair. */
  method ToWaterSat(sboth: seq<real>) returns (sw: seq<real>)
    ensures sw == WaterSat(sboth)
  {
    var num := |sboth| / 2;
    var out := new real[num];
    var i := 0;
    while i < num
      invariant 0 <= i <= num
      invariant forall k :: 0 <= k < i ==> out[k] == sboth[2 * k]
    {
      out[i] := sboth[2 * i];
      i := i + 1;
    }
    sw := out[..];
  }

  /** toBothSat: twice as many entries as the water saturations, interleaved with their complements. */
  method ToBothSat(sw: seq<real>) returns (sboth: seq<real>)
    ensures sboth == BothSat(sw)
  {
    var num := |sw|;
    var out := new real[2 * num];
    BothSatLayout(sw);
    var i := 0;
    while i < num
      invariant 0 <= i <= num
      invariant forall j :: 0 <= j < 2 * i ==> out[j] == BothSat(sw)[j]
    {
      out[2 * i] := sw[i];
      out[2 * i + 1] := 1.0 - sw[i];
      i := i + 1;
    }
    sboth := out[..];
  }

  /** The saturations of one cell in the initial state: 1 in the last phase, 0 in the others. */
  function LastPhaseOnly(numPhases: nat): (block: seq<real>)
    ensures |block| == numPhases
  {
    seq(numPhases, p requires 0 <= p < numPhases => if p == numPhases - 1 then 1.0 else 0.0)
  }

  /** The initial saturation array of numCells cells, stored cell by cell. */
  function InitialSat(numPhases: nat, numCells: nat): (sat: seq<real>)
    ensures |sat| == numPhases * numCells
  {
    if numCells == 0 then [] else InitialSat(numPhases, numCells - 1) + LastPhaseOnly(numPhases)
  }

  /** Cell c's block of the initial saturation array is LastPhaseOnly. */
  lemma {:induction false} InitialSatBlock(numPhases: nat, numCells: nat, c: nat)
    requires c < numCells
    ensures numPhases * c + numPhases <= numPhases * numCells
    ensures InitialSat(numPhases, numCells)[numPhases * c .. numPhases * c + numPhases] == LastPhaseOnly(numPhases)
  {
    var prefix := InitialSat(numPhases, numCells - 1);
    assert numPhases * c + numPhases == numPhases * (c + 1);
    if c < numCells - 1 {
      InitialSatBlock(numPhases, numCells - 1, c);
      assert InitialSat(numPhases, numCells)[..|prefix|] == prefix;
    } else {
      assert numPhases * c == |prefix|;
    }
  }

  /** Entry (c, p) of the initial saturation array: 1 for the last phase, 0 for the others. */
  lemma InitialSatEntry(numPhases: nat, numCells: nat, c: nat, p: nat)
    requires c < numCells && p < numPhases
    ensures numPhases * c + p < |InitialSat(numPhases, numCells)|
    ensures InitialSat(numPhases, numCells)[numPhases * c + p] == if p == numPhases - 1 then 1.0 else 0.0
  {
    InitialSatBlock(numPhases, numCells, c);
    assert InitialSat(numPhases, numCells)[numPhases * c .. numPhases * c + numPhases][p]
           == InitialSat(numPhases, numCells)[numPhases * c + p];
  }

  /** The sum of a sequence of reals. */
  function Sum(s: seq<real>): real
  {
    if s == [] then 0.0 else Sum(s[..|s| - 1]) + s[|s| - 1]
  }

  /** A sequence of zeros sums to 0. */
  lemma {:induction false} SumZeros(s: seq<real>)
    requires forall k :: 0 <= k < |s| ==> s[k] == 0.0
    ensures Sum(s) == 0.0
  {
    if s != [] {
      SumZeros(s[..|s| - 1]);
    }
  }

  /** Every cell of the initial state has saturations summing to 1. */
  lemma InitialSaturationsSumToOne(numPhases: nat, numCells: nat, c: nat)
    requires numPhases >= 1 && c < numCells
    ensures numPhases * c + numPhases <= |InitialSat(numPhases, numCells)|
    ensures Sum(InitialSat(numPhases, numCells)[numPhases * c .. numPhases * c + numPhases]) == 1.0
  {
    InitialSatBlock(numPhases, numCells, c);
    var block := LastPhaseOnly(numPhases);
    SumZeros(block[..numPhases - 1]);
  }

  /** Multiples of a positive b: a * b is at least b when a >= 1, at most -b when a <= -1. */
  lemma MulBounds(a: int, b: int)
    requires b >= 0
    ensures a >= 1 ==> a * b >= b
    ensures a <= -1 ==> a * b <= -b
  {
    if a >= 1 {
      assert a * b == b + (a - 1) * b;
    } else if a <= -1 {
      assert a * b == -b + (a + 1) * b;
    }
  }

  /** Dividing numPhases * numCells entries among numCells > 0 cells gives numPhases. */
  lemma PhasesPerCell(numPhases: nat, numCells: nat)
    requires numCells > 0
    ensures (numPhases * numCells) / numCells == numPhases
  {
    var q := (numPhases * numCells) / numCells;
    var r := (numPhases * numCells) % numCells;
    assert numPhases * numCells == numCells * q + r;
    assert (numPhases - q) * numCells == r;
    MulBounds(numPhases - q, numCells);
  }

  /**
   * The initial state of the example's reservoir: pressure per cell, face pressure and flux per
   * face, and numPhases saturations per cell stored cell by cell.
   */
  class ReservoirState {
    var press: seq<real>
    var fpress: seq<real>
    var flux: seq<real>
    var sat: seq<real>
    /** The number of phases the state was built with. */
    ghost const phases: nat

    /** The saturation array holds `phases` entries per cell. */
    ghost predicate Valid()
      reads this
    {
      |sat| == phases * |press|
    }

    /**
     * Zero pressures, face pressures and fluxes; all saturations 0 except the last phase of
     * each cell, which is 1.
     */
    constructor (numCells: nat, numFaces: nat, numPhases: nat)
      requires numCells == 0 || numPhases >= 1
      ensures Valid() && phases == numPhases
      ensures press == seq(numCells, _ => 0.0)
      ensures fpress == seq(numFaces, _ => 0.0) && flux == seq(numFaces, _ => 0.0)
      ensures sat == InitialSat(numPhases, numCells)
    {
      press := seq(numCells, _ => 0.0);
      fpress := seq(numFaces, _ => 0.0);
      flux := seq(numFaces, _ => 0.0);
      phases := numPhases;
      var s := seq(numPhases * numCells, _ => 0.0);
      var cell := 0;
      ghost var base := 0;
      while cell < numCells
        invariant 0 <= cell <= numCells && base == numPhases * cell
        invariant |s| == numPhases * numCells && base <= |s|
        invariant s[..base] == InitialSat(numPhases, cell)
        invariant forall k :: base <= k < |s| ==> s[k] == 0.0
      {
        assert numPhases * cell + numPhases == numPhases * (cell + 1);
        MulBounds(numCells - cell, numPhases);
        assert numPhases * numCells - numPhases * cell == (numCells - cell) * numPhases;
        s := s[numPhases * cell + numPhases - 1 := 1.0];
        assert s[..base + numPhases] == InitialSat(numPhases, cell) + LastPhaseOnly(numPhases);
        cell := cell + 1;
        base := base + numPhases;
      }
      sat := s;
    }

    /** numPhases: the saturation entries per pressure entry; the phase count when there are cells. */
    function NumPhases(): (n: int)
      reads this
      requires |press| > 0
      ensures Valid() ==> n == phases
    {
      PhasesPerCell(phases, |press|);
      |sat| / |press|
    }
  }

  /** The pore volume of each of the first numCells cells: porosity times cell volume. */
  function PoreVolume(poro: seq<real>, cellVolumes: seq<real>, numCells: nat): seq<real>
    requires numCells <= |poro| && numCells <= |cellVolumes|
  {
    seq(numCells, i requires 0 <= i < numCells => poro[i] * cellVolumes[i])
  }

  /** A porosity in [0, 1] gives a pore volume between 0 and the cell volume. */
  lemma PoreVolumeBounds(poro: seq<real>, cellVolumes: seq<real>, numCells: nat)
    requires numCells <= |poro| && numCells <= |cellVolumes|
    ensures forall i :: 0 <= i < numCells && 0.0 <= poro[i] <= 1.0 && 0.0 <= cellVolumes[i] ==>
              0.0 <= PoreVolume(poro, cellVolumes, numCells)[i] <= cellVolumes[i]
  {
    forall i | 0 <= i < numCells && 0.0 <= poro[i] <= 1.0 && 0.0 <= cellVolumes[i]
      ensures 0.0 <= PoreVolume(poro, cellVolumes, numCells)[i] <= cellVolumes[i]
    {
      assert PoreVolume(poro, cellVolumes, numCells)[i] == poro[i] * cellVolumes[i];
      assert poro[i] * cellVolumes[i] >= 0.0;
      assert cellVolumes[i] - poro[i] * cellVolumes[i] == (1.0 - poro[i]) * cellVolumes[i];
      assert (1.0 - poro[i]) * cellVolumes[i] >= 0.0;
    }
  }

  /** compute_porevolume: numCells entries, each the cell's porosity times its volume. */
  method ComputePoreVolume(poro: seq<real>, cellVolumes: seq<real>, numCells: nat) returns (porevol: seq<real>)
    requires numCells <= |poro| && numCells <= |cellVolumes|
    ensures porevol == PoreVolume(poro, cellVolumes, numCells)
  {
    var out := new real[numCells];
    var i := 0;
    while i < numCells
      invariant 0 <= i <= numCells
      invariant forall k :: 0 <= k < i ==> out[k] == PoreVolume(poro, cellVolumes, numCells)[k]
    {
      out[i] := poro[i] * cellVolumes[i];
      i := i + 1;
    }
    porevol := out[..];
  }
}
