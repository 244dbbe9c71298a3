/** Stake-weighted commit votes and the two-thirds finality threshold. */
module Finality {
  import opened Primitives
  import opened Sums

  /** A commit vote; its signature is checked elsewhere. */
  datatype Vote = Vote(height: nat, blockHash: Bytes, validator: Address)

  datatype Tracker = Tracker(
    weights: map<Address, nat>, total: nat, commits: map<nat, seq<Vote>>, finalized: set<nat>)

  function VotesAt(t: Tracker, height: nat): seq<Vote> {
    if height in t.commits then t.commits[height] else []
  }

  /** The saturating sum of the voters' weights, in arrival order. */
  function SatWeight(weights: map<Address, nat>, votes: seq<Vote>): nat {
    if votes == [] then 0
    else
      var n := |votes| - 1;
      var rest := SatWeight(weights, votes[..n]);
      if votes[n].validator in weights then SatAdd(rest, weights[votes[n].validator]) else rest
  }

  /** More than two thirds, with both products checked against 2^256. */
  predicate Crosses(weight: nat, total: nat) {
    weight * 3 < U256_MOD && (total * 2 >= U256_MOD || weight * 3 > total * 2)
  }

  predicate HasVoted(votes: seq<Vote>, validator: Address) {
    exists i :: 0 <= i < |votes| && votes[i].validator == validator
  }

  predicate Accepts(t: Tracker, vote: Vote) {
    && vote.height !in t.finalized
    && vote.validator in t.weights
    && !HasVoted(VotesAt(t, vote.height), vote.validator)
  }

  function Record(t: Tracker, vote: Vote): Tracker {
    if !Accepts(t, vote) then t
    else
      var votes := VotesAt(t, vote.height) + [vote];
      t.(commits := t.commits[vote.height := votes],
         finalized := if Crosses(SatWeight(t.weights, votes), t.total) then t.finalized + {vote.height}
                      else t.finalized)
  }

  class CommitTracker {
    var commits: map<nat, seq<Vote>>
    const stakeWeights: map<Address, nat>
    const totalActiveStake: nat
    var finalized: set<nat>

    function View(): Tracker
      reads this
    {
      Tracker(stakeWeights, totalActiveStake, commits, finalized)
    }

    constructor (weights: map<Address, nat>)
      ensures View() == Tracker(weights, Min(Sum(weights), U256_MOD - 1), map[], {})
    {
      var total := TotalWeight(weights);
      stakeWeights, totalActiveStake := weights, total;
      commits, finalized := map[], {};
    }

    method AddVote(vote: Vote) returns (accepted: bool)
      modifies this
      ensures View() == Record(old(View()), vote)
      ensures accepted == Accepts(old(View()), vote)
    {
      var height := vote.height;
      if height in finalized {
        return false;
      }
      if vote.validator !in stakeWeights {
        return false;
      }
      var votes := if height in commits then commits[height] else [];
      for i := 0 to |votes|
        invariant forall j :: 0 <= j < i ==> votes[j].validator != vote.validator
      {
        if votes[i].validator == vote.validator {
          return false;
        }
      }
      commits := commits[height := votes + [vote]];
      var cumulative := CumulativeWeight(height);
      if cumulative * 3 < U256_MOD && (totalActiveStake * 2 >= U256_MOD || cumulative * 3 > totalActiveStake * 2) {
        finalized := finalized + {height};
      }
      return true;
    }

    method CumulativeWeight(height: nat) returns (weight: nat)
      ensures weight == SatWeight(stakeWeights, VotesAt(View(), height))
    {
      if height !in commits {
        return 0;
      }
      var votes := commits[height];
      weight := 0;
      for i := 0 to |votes|
        invariant weight == SatWeight(stakeWeights, votes[..i])
      {
        assert votes[..i + 1][..i] == votes[..i];
        if votes[i].validator in stakeWeights {
          weight := SatAdd(weight, stakeWeights[votes[i].validator]);
        }
      }
      assert votes[..|votes|] == votes;
    }

    method LastFinalizedHeight() returns (height: nat)
      ensures if finalized == {} then height == 0
              else height in finalized && forall h :: h in finalized ==> h <= height
    {
      height := 0;
      var rest := finalized;
      while rest != {}
        invariant rest <= finalized
        invariant forall h :: h in finalized && h !in rest ==> h <= height
        invariant if rest == finalized then height == 0 else height in finalized
        decreases |rest|
      {
        var h :| h in rest;
        if h > height || rest == finalized {
          height := h;
        }
        rest := rest - {h};
      }
    }
  }

  /** The saturating total over a hash map, whatever its iteration order. */
  method TotalWeight(weights: map<Address, nat>) returns (total: nat)
    ensures total == Min(Sum(weights), U256_MOD - 1)
  {
    total := 0;
    var rest := weights.Keys;
    assert weights.Keys - rest == {};
    WeightEmpty(weights);
    while rest != {}
      invariant rest <= weights.Keys
      invariant total == Min(Weight(weights, weights.Keys - rest), U256_MOD - 1)
      decreases |rest|
    {
      var v :| v in rest;
      WeightAdd(weights, weights.Keys - rest, v);
      assert weights.Keys - (rest - {v}) == (weights.Keys - rest) + {v};
      total := SatAdd(total, weights[v]);
      rest := rest - {v};
    }
    WeightAll(weights, weights.Keys - rest);
  }

  // ---------------------------------------------------------------------
  // Whole vote sequences
  // ---------------------------------------------------------------------

  ghost function NewTracker(weights: map<Address, nat>): Tracker {
    Tracker(weights, Min(Sum(weights), U256_MOD - 1), map[], {})
  }

  ghost function RunVotes(weights: map<Address, nat>, votes: seq<Vote>): Tracker {
    if votes == [] then NewTracker(weights)
    else Record(RunVotes(weights, votes[..|votes| - 1]), votes[|votes| - 1])
  }

  ghost predicate IsFinal(weights: map<Address, nat>, votes: seq<Vote>, height: nat) {
    height in RunVotes(weights, votes).finalized
  }

  /** The active validators with a vote for the height anywhere in the sequence. */
  ghost function Voters(weights: map<Address, nat>, votes: seq<Vote>, height: nat): set<Address> {
    set v | v in weights && VotedFor(votes, height, v)
  }

  ghost predicate VotedFor(votes: seq<Vote>, height: nat, validator: Address) {
    exists i :: 0 <= i < |votes| && votes[i].height == height && votes[i].validator == validator
  }

  ghost predicate Supermajority(weights: map<Address, nat>, voters: set<Address>) {
    3 * Weight(weights, voters) > 2 * Sum(weights)
  }

  function Recorded(votes: seq<Vote>): set<Address> {
    set i | 0 <= i < |votes| :: votes[i].validator
  }

  ghost predicate DistinctVoters(votes: seq<Vote>) {
    forall i, j :: 0 <= i < j < |votes| ==> votes[i].validator != votes[j].validator
  }

  lemma RecordedAppend(votes: seq<Vote>, vote: Vote)
    ensures Recorded(votes + [vote]) == Recorded(votes) + {vote.validator}
  {
    var all := votes + [vote];
    forall v ensures v in Recorded(all) <==> v in Recorded(votes) || v == vote.validator {
      if v in Recorded(votes) {
        var i :| 0 <= i < |votes| && votes[i].validator == v;
        assert all[i].validator == v;
      }
      if v == vote.validator {
        assert all[|votes|].validator == v;
      }
    }
  }

  /** Without duplicates and below saturation, the running weight is the weight of the voters. */
  lemma {:induction false} SatWeightExact(weights: map<Address, nat>, votes: seq<Vote>)
    requires DistinctVoters(votes) && Sum(weights) < U256_MOD
    ensures SatWeight(weights, votes) == Weight(weights, Recorded(votes))
  {
    if votes == [] {
      WeightEmpty(weights);
      assert Recorded(votes) == {};
    } else {
      var n := |votes| - 1;
      assert votes == votes[..n] + [votes[n]];
      SatWeightExact(weights, votes[..n]);
      RecordedAppend(votes[..n], votes[n]);
      assert votes[n].validator !in Recorded(votes[..n]);
      WeightAdd(weights, Recorded(votes[..n]), votes[n].validator);
      WeightAtMostSum(weights, Recorded(votes));
    }
  }

  /** What holds of every height after any vote sequence: the recorded votes are votes
      of the sequence, one a voter, and all of them for a height that is not final. */
  ghost predicate RecordedOk(t: Tracker, votes: seq<Vote>, height: nat) {
    var recorded := VotesAt(t, height);
    && DistinctVoters(recorded)
    && Recorded(recorded) <= Voters(t.weights, votes, height)
    && (forall i :: 0 <= i < |recorded| ==> recorded[i] in votes && recorded[i].height == height)
    && (height !in t.finalized ==> Recorded(recorded) == Voters(t.weights, votes, height))
  }

  /** And a height is final when its recorded voters are a supermajority. */
  ghost predicate HeightOk(t: Tracker, votes: seq<Vote>, height: nat) {
    && RecordedOk(t, votes, height)
    && (height in t.finalized <==> Supermajority(t.weights, Recorded(VotesAt(t, height))))
  }

  lemma VotersAppend(weights: map<Address, nat>, votes: seq<Vote>, vote: Vote, height: nat)
    ensures Voters(weights, votes + [vote], height) == Voters(weights, votes, height)
              + (if vote.height == height && vote.validator in weights then {vote.validator} else {})
  {
    var all := votes + [vote];
    forall v ensures VotedFor(all, height, v) <==>
                     VotedFor(votes, height, v) || (vote.height == height && vote.validator == v) {
      if VotedFor(votes, height, v) {
        var i :| 0 <= i < |votes| && votes[i].height == height && votes[i].validator == v;
        assert all[i] == votes[i];
      }
      if vote.height == height && vote.validator == v {
        assert all[|votes|] == vote;
      }
    }
  }

  /** Where nothing overflows, the checked threshold is the two-thirds threshold. */
  lemma CrossesIff(weights: map<Address, nat>, votes: seq<Vote>)
    requires DistinctVoters(votes) && 3 * Sum(weights) < U256_MOD
    ensures Crosses(SatWeight(weights, votes), Sum(weights)) <==> Supermajority(weights, Recorded(votes))
  {
    SatWeightExact(weights, votes);
    WeightAtMostSum(weights, Recorded(votes));
  }

  lemma AcceptedKeeps(t: Tracker, votes: seq<Vote>, vote: Vote)
    requires 3 * Sum(t.weights) < U256_MOD && t.total == Sum(t.weights)
    requires HeightOk(t, votes, vote.height) && Accepts(t, vote)
    ensures HeightOk(Record(t, vote), votes + [vote], vote.height)
  {
    var recorded := VotesAt(t, vote.height);
    assert VotesAt(Record(t, vote), vote.height) == recorded + [vote];
    StillDistinct(recorded, vote);
    CrossesIff(t.weights, recorded + [vote]);
    RecordedVoters(t.weights, votes, vote, recorded);
  }

  /** Recording one more vote adds its validator to the recorded and to the actual voters. */
  lemma RecordedVoters(weights: map<Address, nat>, votes: seq<Vote>, vote: Vote, recorded: seq<Vote>)
    requires vote.validator in weights && Recorded(recorded) == Voters(weights, votes, vote.height)
    requires forall i :: 0 <= i < |recorded| ==> recorded[i] in votes && recorded[i].height == vote.height
    ensures Recorded(recorded + [vote]) == Voters(weights, votes + [vote], vote.height)
    ensures forall i :: 0 <= i < |recorded + [vote]| ==>
              (recorded + [vote])[i] in votes + [vote] && (recorded + [vote])[i].height == vote.height
  {
    VotersAppend(weights, votes, vote, vote.height);
    RecordedAppend(recorded, vote);
  }

  lemma StillDistinct(recorded: seq<Vote>, vote: Vote)
    requires DistinctVoters(recorded) && !HasVoted(recorded, vote.validator)
    ensures DistinctVoters(recorded + [vote])
  {
  }

  lemma RejectedKeeps(t: Tracker, votes: seq<Vote>, vote: Vote, height: nat)
    requires HeightOk(t, votes, height) && (vote.height == height ==> !Accepts(t, vote))
    ensures HeightOk(Record(t, vote), votes + [vote], height)
  {
    var recorded := VotesAt(t, height);
    assert VotesAt(Record(t, vote), height) == recorded;
    VotersAppend(t.weights, votes, vote, height);
    if vote.height == height && HasVoted(recorded, vote.validator) {
      assert vote.validator in Recorded(recorded);
    }
  }

  lemma RecordKeeps(t: Tracker, votes: seq<Vote>, vote: Vote, height: nat)
    requires 3 * Sum(t.weights) < U256_MOD && t.total == Sum(t.weights)
    requires HeightOk(t, votes, height)
    ensures HeightOk(Record(t, vote), votes + [vote], height)
  {
    if vote.height == height && Accepts(t, vote) {
      AcceptedKeeps(t, votes, vote);
    } else {
      RejectedKeeps(t, votes, vote, height);
    }
  }

  lemma {:induction false} RunKeeps(weights: map<Address, nat>, votes: seq<Vote>, height: nat)
    requires 3 * Sum(weights) < U256_MOD
    ensures var t := RunVotes(weights, votes);
            t.weights == weights && t.total == Sum(weights) && HeightOk(t, votes, height)
  {
    if votes == [] {
      assert Recorded([]) == {} && Voters(weights, votes, height) == {};
      WeightEmpty(weights);
    } else {
      var n := |votes| - 1;
      RunKeeps(weights, votes[..n], height);
      RecordKeeps(RunVotes(weights, votes[..n]), votes[..n], votes[n], height);
      assert votes == votes[..n] + [votes[n]];
    }
  }

  /** The height is final exactly when the distinct active voters in the
      sequence hold more than two thirds of the stake. */
  ghost predicate FinalityExact(weights: map<Address, nat>, votes: seq<Vote>, height: nat) {
    IsFinal(weights, votes, height) <==> Supermajority(weights, Voters(weights, votes, height))
  }

  lemma FinalIff(weights: map<Address, nat>, votes: seq<Vote>, height: nat)
    requires 3 * Sum(weights) < U256_MOD
    ensures FinalityExact(weights, votes, height)
  {
    RunKeeps(weights, votes, height);
    var recorded := Recorded(VotesAt(RunVotes(weights, votes), height));
    WeightMonotone(weights, recorded, Voters(weights, votes, height));
  }

  /** For a given total stake, finality is exact for every distribution of it and
      every vote sequence if and only if three times the total fits in 256 bits. */
  lemma ExactIffTotalFits(total: nat)
    requires total < U256_MOD
    ensures 3 * total < U256_MOD <==>
            forall weights: map<Address, nat>, votes: seq<Vote>, height: nat ::
              Sum(weights) == total ==> FinalityExact(weights, votes, height)
  {
    if 3 * total < U256_MOD {
      forall weights: map<Address, nat>, votes: seq<Vote>, height: nat | Sum(weights) == total
        ensures FinalityExact(weights, votes, height)
      {
        FinalIff(weights, votes, height);
      }
    } else {
      var weights, votes := InexactVotes(total);
      assert !FinalityExact(weights, votes, 1);
    }
  }

  /** One validator with all the stake whose vote is not enough. */
  lemma InexactVotes(total: nat) returns (weights: map<Address, nat>, votes: seq<Vote>)
    requires total < U256_MOD <= 3 * total
    ensures Sum(weights) == total && !FinalityExact(weights, votes, 1)
  {
    var vote := Vote(1, [], 1);
    weights, votes := map[1 := total], [vote];
    SumUpdate<Address>(map[], 1, total);
    assert map[][1 := total] == weights;
    assert !IsFinal(weights, votes, 1) by {
      var t := NewTracker(weights);
      assert votes[..0] == [] && RunVotes(weights, votes) == Record(t, vote);
      assert SatWeight(weights, votes) == total;
      assert VotesAt(t, 1) + [vote] == votes;
    }
    assert votes[0].validator == 1;
    assert Voters(weights, votes, 1) == {1};
    WeightAll(weights, {1});
  }

  /** Three times the weight fits in 256 bits, and twice the total does not or is smaller. */
  ghost predicate CheckedTwoThirds(weight: nat, total: nat) {
    3 * weight < U256_MOD && (2 * total >= U256_MOD || 3 * weight > 2 * total)
  }

  /** The voters among the first `n` votes pass the checked comparison. */
  ghost predicate PassesAfter(weights: map<Address, nat>, votes: seq<Vote>, height: nat, n: nat)
    requires n <= |votes|
  {
    var voters := Voters(weights, votes[..n], height);
    voters != {} && CheckedTwoThirds(Weight(weights, voters), Sum(weights))
  }

  lemma RecordedKeeps(t: Tracker, votes: seq<Vote>, vote: Vote, height: nat)
    requires RecordedOk(t, votes, height)
    ensures RecordedOk(Record(t, vote), votes + [vote], height)
  {
    var recorded := VotesAt(t, height);
    VotersAppend(t.weights, votes, vote, height);
    if vote.height == height && Accepts(t, vote) {
      StillDistinct(recorded, vote);
      RecordedVoters(t.weights, votes, vote, recorded);
    } else if vote.height == height && HasVoted(recorded, vote.validator) {
      assert vote.validator in Recorded(recorded);
    }
  }

  lemma {:induction false} RunRecords(weights: map<Address, nat>, votes: seq<Vote>, height: nat)
    requires Sum(weights) < U256_MOD
    ensures var t := RunVotes(weights, votes);
            t.weights == weights && t.total == Sum(weights) && RecordedOk(t, votes, height)
  {
    if votes == [] {
      assert Recorded([]) == {} && Voters(weights, votes, height) == {};
    } else {
      var n := |votes| - 1;
      RunRecords(weights, votes[..n], height);
      RecordedKeeps(RunVotes(weights, votes[..n]), votes[..n], votes[n], height);
      assert votes == votes[..n] + [votes[n]];
    }
  }

  /** An accepted vote makes its height final exactly when all voters so far pass. */
  lemma AcceptedFinalIff(weights: map<Address, nat>, votes: seq<Vote>, vote: Vote)
    requires Sum(weights) < U256_MOD && Accepts(RunVotes(weights, votes), vote)
    ensures IsFinal(weights, votes + [vote], vote.height) <==>
            PassesAfter(weights, votes + [vote], vote.height, |votes| + 1)
  {
    var t, all := RunVotes(weights, votes), votes + [vote];
    var recorded := VotesAt(t, vote.height) + [vote];
    RunRecords(weights, votes, vote.height);
    AcceptedWeight(weights, votes, vote);
    RecordedAppend(VotesAt(t, vote.height), vote);
    assert all[..|votes|] == votes && all[..|votes| + 1] == all;
    assert RunVotes(weights, all) == Record(t, vote);
    hide RunVotes;
    hide Voters;
    hide SatWeight;
    hide Recorded;
    hide RecordedOk;
    assert vote.validator in Recorded(recorded);
  }

  /** The weight compared is that of all voters so far. */
  lemma AcceptedWeight(weights: map<Address, nat>, votes: seq<Vote>, vote: Vote)
    requires Sum(weights) < U256_MOD && Accepts(RunVotes(weights, votes), vote)
    ensures var recorded := VotesAt(RunVotes(weights, votes), vote.height) + [vote];
            && Recorded(recorded) == Voters(weights, votes + [vote], vote.height)
            && SatWeight(weights, recorded) == Weight(weights, Recorded(recorded))
  {
    RunRecords(weights, votes, vote.height);
    var recorded := VotesAt(RunVotes(weights, votes), vote.height);
    StillDistinct(recorded, vote);
    RecordedVoters(weights, votes, vote, recorded);
    SatWeightExact(weights, recorded + [vote]);
  }

  /** A vote is accepted exactly when its height is open and its voter is active
      and has not voted for that height in the whole sequence. */
  lemma AcceptedIff(weights: map<Address, nat>, votes: seq<Vote>, vote: Vote)
    requires Sum(weights) < U256_MOD
    ensures Accepts(RunVotes(weights, votes), vote) <==>
            && !IsFinal(weights, votes, vote.height)
            && vote.validator in weights
            && !VotedFor(votes, vote.height, vote.validator)
  {
    RunRecords(weights, votes, vote.height);
    var t := RunVotes(weights, votes);
    if vote.height !in t.finalized {
      var recorded := VotesAt(t, vote.height);
      assert vote.validator in Recorded(recorded) <==> HasVoted(recorded, vote.validator);
      assert vote.validator in Recorded(recorded) <==> vote.validator in Voters(weights, votes, vote.height);
    }
  }

  /** Any other vote changes neither the voters nor what is final. */
  lemma OtherVote(weights: map<Address, nat>, votes: seq<Vote>, vote: Vote, height: nat)
    requires Sum(weights) < U256_MOD && !IsFinal(weights, votes, height)
    requires vote.height == height ==> !Accepts(RunVotes(weights, votes), vote)
    ensures !IsFinal(weights, votes + [vote], height)
    ensures PassesAfter(weights, votes + [vote], height, |votes| + 1) <==> PassesAfter(weights, votes, height, |votes|)
  {
    OtherVoters(weights, votes, vote, height);
    assert (votes + [vote])[..|votes|] == votes && votes[..|votes|] == votes;
    assert (votes + [vote])[..|votes| + 1] == votes + [vote];
  }

  lemma OtherVoters(weights: map<Address, nat>, votes: seq<Vote>, vote: Vote, height: nat)
    requires Sum(weights) < U256_MOD && !IsFinal(weights, votes, height)
    requires vote.height == height ==> !Accepts(RunVotes(weights, votes), vote)
    ensures Voters(weights, votes + [vote], height) == Voters(weights, votes, height)
  {
    RunRecords(weights, votes, height);
    VotersAppend(weights, votes, vote, height);
    var recorded := VotesAt(RunVotes(weights, votes), height);
    if vote.height == height && HasVoted(recorded, vote.validator) {
      assert vote.validator in Recorded(recorded);
    }
  }

  ghost predicate SomePasses(weights: map<Address, nat>, votes: seq<Vote>, height: nat) {
    exists n :: 0 <= n <= |votes| && PassesAfter(weights, votes, height, n)
  }

  lemma SomePassesNext(weights: map<Address, nat>, votes: seq<Vote>, vote: Vote, height: nat)
    ensures SomePasses(weights, votes + [vote], height) <==>
            SomePasses(weights, votes, height) || PassesAfter(weights, votes + [vote], height, |votes| + 1)
  {
    var all := votes + [vote];
    forall n | 0 <= n <= |votes|
      ensures PassesAfter(weights, all, height, n) <==> PassesAfter(weights, votes, height, n)
    {
      assert all[..n] == votes[..n];
    }
    hide PassesAfter;
    if n :| 0 <= n <= |all| && PassesAfter(weights, all, height, n) {
      assert n <= |votes| ==> PassesAfter(weights, votes, height, n);
    }
  }

  /** Whatever the stakes below 2^256: a height is final exactly when after some vote
      the distinct active voters so far passed the checked comparison. */
  lemma {:induction false} FinalIffSomePasses(weights: map<Address, nat>, votes: seq<Vote>, height: nat)
    requires Sum(weights) < U256_MOD
    ensures IsFinal(weights, votes, height) <==> SomePasses(weights, votes, height)
  {
    if votes == [] {
      assert Voters(weights, [], height) == {};
    } else {
      hide PassesAfter;
      hide IsFinal;
      hide Accepts;
      hide RunVotes;
      var n := |votes| - 1;
      var before, vote := votes[..n], votes[n];
      FinalIffSomePasses(weights, before, height);
      SomePassesNext(weights, before, vote, height);
      assert votes == before + [vote];
      if IsFinal(weights, before, height) {
        FinalityMonotone(weights, before, [vote], height);
      } else if vote.height == height && Accepts(RunVotes(weights, before), vote) {
        AcceptedFinalIff(weights, before, vote);
      } else {
        OtherVote(weights, before, vote, height);
        assert !PassesAfter(weights, before, height, n);
      }
    }
  }

  /** Reordering votes, repeating them or adding outsiders changes no outcome. */
  lemma FinalityOrderIndependent(weights: map<Address, nat>, votes: seq<Vote>, votes': seq<Vote>, height: nat)
    requires 3 * Sum(weights) < U256_MOD
    requires forall v :: v in weights ==> (VotedFor(votes, height, v) <==> VotedFor(votes', height, v))
    ensures IsFinal(weights, votes, height) <==> IsFinal(weights, votes', height)
  {
    assert Voters(weights, votes, height) == Voters(weights, votes', height);
    FinalIff(weights, votes, height);
    FinalIff(weights, votes', height);
  }

  /** A final height stays final, with or without any bound on the stake. */
  lemma {:induction false} FinalityMonotone(weights: map<Address, nat>, votes: seq<Vote>, more: seq<Vote>, height: nat)
    requires IsFinal(weights, votes, height)
    ensures IsFinal(weights, votes + more, height)
  {
    if more == [] {
      assert votes + more == votes;
    } else {
      var n := |more| - 1;
      assert (votes + more)[..|votes + more| - 1] == votes + more[..n];
      FinalityMonotone(weights, votes, more[..n], height);
    }
  }

  // ---------------------------------------------------------------------
  // Accountable safety
  // ---------------------------------------------------------------------

  /** The votes the tracker has counted for a height. */
  ghost function Counted(weights: map<Address, nat>, votes: seq<Vote>, height: nat): seq<Vote> {
    VotesAt(RunVotes(weights, votes), height)
  }

  /** All of them name the same block. Votes of outsiders, repeated votes and votes
      that come too late are not counted and may name any block. */
  ghost predicate CountedFor(weights: map<Address, nat>, votes: seq<Vote>, height: nat, blockHash: Bytes) {
    forall i :: 0 <= i < |Counted(weights, votes, height)| ==> Counted(weights, votes, height)[i].blockHash == blockHash
  }

  /** The active validators that signed one block in `a` and another in `b`. */
  ghost function Equivocators(weights: map<Address, nat>, a: seq<Vote>, b: seq<Vote>, height: nat,
                              hash: Bytes, hash': Bytes): set<Address> {
    set v | v in weights && Vote(height, hash, v) in a && Vote(height, hash', v) in b
  }

  /** Two supermajorities share more than a third of the stake. */
  lemma QuorumIntersection(weights: map<Address, nat>, a: set<Address>, b: set<Address>)
    requires Supermajority(weights, a) && Supermajority(weights, b)
    ensures 3 * Weight(weights, a * b) > Sum(weights)
  {
    WeightUnion(weights, a, b);
    WeightAtMostSum(weights, a + b);
  }

  /** A counted vote is a vote of the sequence. */
  lemma CountedVote(weights: map<Address, nat>, votes: seq<Vote>, height: nat, blockHash: Bytes, v: Address)
    requires 3 * Sum(weights) < U256_MOD && CountedFor(weights, votes, height, blockHash)
    requires v in Recorded(Counted(weights, votes, height))
    ensures v in weights && Vote(height, blockHash, v) in votes
  {
    RunKeeps(weights, votes, height);
    var counted := Counted(weights, votes, height);
    var i :| 0 <= i < |counted| && counted[i].validator == v;
    assert counted[i] == Vote(height, blockHash, v);
  }

  /** If two trackers of the same validator set finalize a height, one having counted
      votes for one block only and the other for another, validators with more than
      a third of all stake have signed both. */
  lemma AccountableSafety(weights: map<Address, nat>, a: seq<Vote>, b: seq<Vote>, height: nat,
                          hash: Bytes, hash': Bytes)
    requires 3 * Sum(weights) < U256_MOD
    requires IsFinal(weights, a, height) && IsFinal(weights, b, height)
    requires CountedFor(weights, a, height, hash) && CountedFor(weights, b, height, hash')
    ensures 3 * Weight(weights, Equivocators(weights, a, b, height, hash, hash')) > Sum(weights)
  {
    RunKeeps(weights, a, height);
    RunKeeps(weights, b, height);
    var ra, rb := Recorded(Counted(weights, a, height)), Recorded(Counted(weights, b, height));
    QuorumIntersection(weights, ra, rb);
    forall v | v in ra * rb ensures v in Equivocators(weights, a, b, height, hash, hash') {
      CountedVote(weights, a, height, hash, v);
      CountedVote(weights, b, height, hash', v);
    }
    WeightMonotone(weights, ra * rb, Equivocators(weights, a, b, height, hash, hash'));
  }

  /** The votes agree in everything but the block they name. */
  ghost predicate SameButHash(votes: seq<Vote>, votes': seq<Vote>) {
    && |votes| == |votes'|
    && (forall i :: 0 <= i < |votes| ==>
          votes'[i].height == votes[i].height && votes'[i].validator == votes[i].validator)
  }

  ghost predicate TrackSame(t: Tracker, t': Tracker) {
    && t.weights == t'.weights && t.total == t'.total && t.finalized == t'.finalized
    && (forall height :: SameButHash(VotesAt(t, height), VotesAt(t', height)))
  }

  lemma {:induction false} SameWeight(weights: map<Address, nat>, votes: seq<Vote>, votes': seq<Vote>)
    requires SameButHash(votes, votes')
    ensures SatWeight(weights, votes) == SatWeight(weights, votes')
  {
    if votes != [] {
      SameWeight(weights, votes[..|votes| - 1], votes'[..|votes| - 1]);
    }
  }

  ghost predicate VoteSame(vote: Vote, vote': Vote) {
    vote'.height == vote.height && vote'.validator == vote.validator
  }

  lemma AcceptSame(t: Tracker, t': Tracker, vote: Vote, vote': Vote)
    requires TrackSame(t, t') && VoteSame(vote, vote')
    ensures Accepts(t, vote) <==> Accepts(t', vote')
    ensures SameButHash(VotesAt(t, vote.height) + [vote], VotesAt(t', vote.height) + [vote'])
  {
    assert SameButHash(VotesAt(t, vote.height), VotesAt(t', vote.height));
  }

  lemma RecordSame(t: Tracker, t': Tracker, vote: Vote, vote': Vote)
    requires TrackSame(t, t') && VoteSame(vote, vote')
    ensures TrackSame(Record(t, vote), Record(t', vote'))
  {
    hide SameButHash;
    AcceptSame(t, t', vote, vote');
    if Accepts(t, vote) {
      SameWeight(t.weights, VotesAt(t, vote.height) + [vote], VotesAt(t', vote.height) + [vote']);
      forall height ensures SameButHash(VotesAt(Record(t, vote), height), VotesAt(Record(t', vote'), height)) {
        assert SameButHash(VotesAt(t, height), VotesAt(t', height));
      }
    }
  }

  /** The tracker itself ignores block hashes: replacing them, whatever the stake,
      changes no outcome, so a height can become final on votes of which no two
      name the same block. */
  lemma {:induction false} FinalWithoutAgreement(weights: map<Address, nat>, votes: seq<Vote>, votes': seq<Vote>)
    requires SameButHash(votes, votes')
    ensures TrackSame(RunVotes(weights, votes), RunVotes(weights, votes'))
    ensures forall height :: IsFinal(weights, votes, height) <==> IsFinal(weights, votes', height)
  {
    if votes != [] {
      var n := |votes| - 1;
      FinalWithoutAgreement(weights, votes[..n], votes'[..n]);
      RecordSame(RunVotes(weights, votes[..n]), RunVotes(weights, votes'[..n]), votes[n], votes'[n]);
    }
  }
}
