/** Capped inflation: the block reward and the supply it leads to. */
module Supply {
  import opened Primitives

  const BLOCKS_PER_YEAR: nat := 6307200
  const BASIS_POINTS: nat := 10000
  const SUPPLY_CEILING_RATE: nat := 350
  const SUPPLY_HEADROOM_RATE: nat := 500

  function ComputeReward(supply: nat, cap: nat, ceilingRate: nat, headroomRate: nat): nat {
    if supply >= cap then 0
    else
      var headroom := cap - supply;
      var annualHeadroom := headroom * headroomRate / BASIS_POINTS;
      var annualCeiling := cap * ceilingRate / BASIS_POINTS;
      Min(annualHeadroom, annualCeiling) / BLOCKS_PER_YEAR
  }

  lemma DivMonotone(x: nat, y: nat)
    requires x <= y
    ensures x / BASIS_POINTS <= y / BASIS_POINTS
    ensures x / BLOCKS_PER_YEAR <= y / BLOCKS_PER_YEAR
  {
  }

  /** With 32-bit rates no 256-bit product overflows up to a cap of 2^224. */
  lemma ProductsFit(supply: nat, cap: nat, ceilingRate: nat, headroomRate: nat)
    requires cap <= U256_MOD / (U32_MAX + 1) && ceilingRate <= U32_MAX && headroomRate <= U32_MAX
    ensures cap * ceilingRate < U256_MOD
    ensures supply < cap ==> (cap - supply) * headroomRate < U256_MOD
  {
    var top := U256_MOD / (U32_MAX + 1);
    MulMonotone(ceilingRate, cap, top);
    MulMonotone(top, ceilingRate, U32_MAX);
    if supply < cap {
      MulMonotone(headroomRate, cap - supply, top);
      MulMonotone(top, headroomRate, U32_MAX);
    }
  }

  lemma MulLeDiv(r: nat, x: nat, c: nat)
    requires c > 0
    ensures r <= x / c <==> r * c <= x
  {
    assert x == x / c * c + x % c;
    if r <= x / c {
      MulMonotone(c, r, x / c);
    } else {
      MulMonotone(c, x / c + 1, r);
      assert (x / c + 1) * c == x / c * c + c;
    }
  }

  /** The reward is the greatest whole amount whose yearly sum exceeds neither
      the rate's share of the headroom nor the ceiling rate's share of the cap;
      the two roundings lose nothing more. At the cap it is zero. */
  lemma RewardGreatest(supply: nat, cap: nat, ceilingRate: nat, headroomRate: nat, r: nat)
    ensures r <= ComputeReward(supply, cap, ceilingRate, headroomRate) <==>
            || r == 0
            || (&& supply < cap
                && r * BLOCKS_PER_YEAR * BASIS_POINTS <= (cap - supply) * headroomRate
                && r * BLOCKS_PER_YEAR * BASIS_POINTS <= cap * ceilingRate)
  {
    if supply < cap {
      RewardBelowCap(supply, cap, ceilingRate, headroomRate, r);
    }
  }

  lemma RewardBelowCap(supply: nat, cap: nat, ceilingRate: nat, headroomRate: nat, r: nat)
    requires supply < cap
    ensures r <= ComputeReward(supply, cap, ceilingRate, headroomRate) <==>
            && r * BLOCKS_PER_YEAR * BASIS_POINTS <= (cap - supply) * headroomRate
            && r * BLOCKS_PER_YEAR * BASIS_POINTS <= cap * ceilingRate
  {
    var byHeadroom, byCap := (cap - supply) * headroomRate, cap * ceilingRate;
    MulLeDiv(r, Min(byHeadroom / BASIS_POINTS, byCap / BASIS_POINTS), BLOCKS_PER_YEAR);
    MulLeDiv(r * BLOCKS_PER_YEAR, byHeadroom, BASIS_POINTS);
    MulLeDiv(r * BLOCKS_PER_YEAR, byCap, BASIS_POINTS);
  }

  /** A whole year at one snapshot's reward stays within the headroom. */
  lemma YearWithinHeadroom(supply: nat, cap: nat, ceilingRate: nat, headroomRate: nat)
    requires headroomRate <= BASIS_POINTS && supply <= cap
    ensures supply + BLOCKS_PER_YEAR * ComputeReward(supply, cap, ceilingRate, headroomRate) <= cap
  {
    if supply < cap {
      var headroom := cap - supply;
      var annual := Min(headroom * headroomRate / BASIS_POINTS, cap * ceilingRate / BASIS_POINTS);
      MulMonotone(headroom, headroomRate, BASIS_POINTS);
      assert headroom * headroomRate <= headroom * BASIS_POINTS;
      DivMonotone(headroom * headroomRate, headroom * BASIS_POINTS);
      assert headroom * BASIS_POINTS / BASIS_POINTS == headroom;
    }
  }

  /** More supply, less reward. */
  lemma RewardAntitone(supply: nat, supply': nat, cap: nat, ceilingRate: nat, headroomRate: nat)
    requires supply <= supply'
    ensures ComputeReward(supply', cap, ceilingRate, headroomRate)
            <= ComputeReward(supply, cap, ceilingRate, headroomRate)
  {
    if supply' < cap {
      var h, h' := cap - supply, cap - supply';
      MulMonotone(headroomRate, h', h);
      DivMonotone(h' * headroomRate, h * headroomRate);
      var c := cap * ceilingRate / BASIS_POINTS;
      DivMonotone(Min(h' * headroomRate / BASIS_POINTS, c), Min(h * headroomRate / BASIS_POINTS, c));
    }
  }

  /** The supply after `n` blocks, each paid at the current supply. */
  function Emit(supply: nat, cap: nat, ceilingRate: nat, headroomRate: nat, n: nat): nat {
    if n == 0 then supply
    else
      var before := Emit(supply, cap, ceilingRate, headroomRate, n - 1);
      before + ComputeReward(before, cap, ceilingRate, headroomRate)
  }

  /** Emission never shrinks the supply and never passes the cap. */
  lemma {:induction false} EmissionBounded(supply: nat, cap: nat, ceilingRate: nat, headroomRate: nat, n: nat, m: nat)
    requires headroomRate <= BASIS_POINTS && supply <= cap && n <= m
    ensures Emit(supply, cap, ceilingRate, headroomRate, n) <= Emit(supply, cap, ceilingRate, headroomRate, m) <= cap
    decreases m
  {
    if m > 0 {
      EmissionBounded(supply, cap, ceilingRate, headroomRate, if n < m then n else m - 1, m - 1);
      YearWithinHeadroom(Emit(supply, cap, ceilingRate, headroomRate, m - 1), cap, ceilingRate, headroomRate);
    }
  }

  /** Paying one snapshot's reward per era, for up to a year's blocks at a time. */
  function EmitEras(supply: nat, cap: nat, ceilingRate: nat, headroomRate: nat, lengths: seq<nat>): nat {
    if lengths == [] then supply
    else
      var n := |lengths| - 1;
      var before := EmitEras(supply, cap, ceilingRate, headroomRate, lengths[..n]);
      before + lengths[n] * ComputeReward(before, cap, ceilingRate, headroomRate)
  }

  lemma {:induction false} ErasBounded(supply: nat, cap: nat, ceilingRate: nat, headroomRate: nat, lengths: seq<nat>)
    requires headroomRate <= BASIS_POINTS && supply <= cap
    requires forall i :: 0 <= i < |lengths| ==> lengths[i] <= BLOCKS_PER_YEAR
    ensures supply <= EmitEras(supply, cap, ceilingRate, headroomRate, lengths) <= cap
  {
    if lengths != [] {
      var n := |lengths| - 1;
      ErasBounded(supply, cap, ceilingRate, headroomRate, lengths[..n]);
      var before := EmitEras(supply, cap, ceilingRate, headroomRate, lengths[..n]);
      YearWithinHeadroom(before, cap, ceilingRate, headroomRate);
      MulMonotone(ComputeReward(before, cap, ceilingRate, headroomRate), lengths[n], BLOCKS_PER_YEAR);
    }
  }

  /** When the mainnet reward is zero: with a ceiling of at least one unit per
      block, exactly from a headroom below 126 144 000 on. */
  lemma ZeroRewardIff(supply: nat, cap: nat)
    requires cap * SUPPLY_CEILING_RATE / BASIS_POINTS >= BLOCKS_PER_YEAR
    ensures ComputeReward(supply, cap, SUPPLY_CEILING_RATE, SUPPLY_HEADROOM_RATE) == 0 <==> cap < supply + 126144000
  {
  }

  /** Emission stops: within as many blocks as there is headroom, the reward is
      zero, and from then on the supply stands still. */
  lemma {:induction false} EmissionStops(supply: nat, cap: nat, ceilingRate: nat, headroomRate: nat)
    requires headroomRate <= BASIS_POINTS && supply <= cap
    ensures exists n :: 0 <= n <= cap - supply
              && ComputeReward(Emit(supply, cap, ceilingRate, headroomRate, n), cap, ceilingRate, headroomRate) == 0
  {
    var room := cap - supply;
    if forall n :: 0 <= n <= room ==>
         ComputeReward(Emit(supply, cap, ceilingRate, headroomRate, n), cap, ceilingRate, headroomRate) > 0 {
      GrowsEachBlock(supply, cap, ceilingRate, headroomRate, room + 1);
      EmissionBounded(supply, cap, ceilingRate, headroomRate, 0, room + 1);
      assert false;
    }
  }

  lemma {:induction false} GrowsEachBlock(supply: nat, cap: nat, ceilingRate: nat, headroomRate: nat, k: nat)
    requires forall n :: 0 <= n < k ==>
               ComputeReward(Emit(supply, cap, ceilingRate, headroomRate, n), cap, ceilingRate, headroomRate) > 0
    ensures Emit(supply, cap, ceilingRate, headroomRate, k) >= supply + k
  {
    if k > 0 {
      GrowsEachBlock(supply, cap, ceilingRate, headroomRate, k - 1);
    }
  }

  lemma {:induction false} StandsStill(supply: nat, cap: nat, ceilingRate: nat, headroomRate: nat, n: nat, m: nat)
    requires n <= m
    requires ComputeReward(Emit(supply, cap, ceilingRate, headroomRate, n), cap, ceilingRate, headroomRate) == 0
    ensures Emit(supply, cap, ceilingRate, headroomRate, m) == Emit(supply, cap, ceilingRate, headroomRate, n)
    decreases m
  {
    if n < m {
      StandsStill(supply, cap, ceilingRate, headroomRate, n, m - 1);
    }
  }
}
