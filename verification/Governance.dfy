/** Governance proposals: rate limits, parameter bounds and execution. */
module Governance {
  import opened Primitives
  import opened Sorting
  import opened Sums

  const PROPOSAL_DEPOSIT: nat := 10000000000000000000000000000000000
  const VOTING_WINDOW_ERAS: nat := 7
  const MAX_PER_PROPOSER: nat := 5
  const MAX_GLOBAL: nat := 50
  const TITLE_MAX_BYTES: nat := 256
  const DESC_MAX_BYTES: nat := 4096

  /** A 32-byte proposal identifier, read as a big-endian number. */
  type ProposalId = nat

  datatype Param =
    | MaxValidators
    | EraLength
    | BlockSizeCapBytes
    | BlockTxCap
    | FlatFee
    | PerByteRate
    | AntiSpamDeposit
    | MissedSlotPenalty
    | SupplyCeilingRate
    | SupplyHeadroomRate

  function Bounds(param: Param): (nat, nat) {
    match param
    case MaxValidators => (1, 1000)
    case EraLength => (100, 10000)
    case BlockSizeCapBytes => (1024, 2097152)
    case BlockTxCap => (1, 10000)
    case FlatFee => (0, 1000000000000000000000000000000000)
    case PerByteRate => (0, 10000000000000000000000000000000000)
    case AntiSpamDeposit => (0, 1000000000000000000000000000000000)
    case MissedSlotPenalty => (0, 100000000000000000000000000000000)
    case SupplyCeilingRate => (0, 20)
    case SupplyHeadroomRate => (0, 20)
  }

  predicate InBounds(param: Param, value: nat) {
    Bounds(param).0 <= value <= Bounds(param).1
  }

  datatype Action = UpdateParam(param: Param, newValue: nat) | IncreaseShards(newCount: nat, effectiveEra: nat)

  predicate ValidAction(action: Action) {
    match action
    case UpdateParam(param, value) => InBounds(param, value)
    case IncreaseShards(count, _) => count != 0
  }

  predicate ValidActions(actions: seq<Action>) {
    forall i :: 0 <= i < |actions| ==> ValidAction(actions[i])
  }

  datatype Status = Active | Approved | Rejected | Expired | Cancelled

  datatype Proposal = Proposal(
    id: ProposalId, proposer: Address, title: Bytes, description: Bytes,
    actions: seq<Action>, deposit: nat, submissionEra: nat, status: Status)

  datatype Ballot = Ballot(approve: bool, weight: nat, blockHeight: nat)

  /** The governance namespace, one map per family of sub-keys; an absent counter reads as zero. */
  datatype Gov = Gov(
    proposals: map<ProposalId, Proposal>,
    votes: map<(ProposalId, Address), Ballot>,
    params: map<Param, nat>,
    proposerCounts: map<Address, nat>,
    globalCount: nat)

  function Genesis(): Gov {
    Gov(map[], map[], map[], map[], 0)
  }

  function CountOf(g: Gov, proposer: Address): nat {
    if proposer in g.proposerCounts then g.proposerCounts[proposer] else 0
  }

  datatype Result =
    | Ok
    | AccountNotFound
    | InsufficientBalance
    | TitleTooLong
    | DescriptionTooLong
    | NoActions
    | BadAction
    | ProposerLimit
    | GlobalLimit
    | ProposalNotFound
    | NotActive
    | WindowClosed
    | NoStake
    | NotProposer

  // ---------------------------------------------------------------------
  // Transitions
  // ---------------------------------------------------------------------

  function NewProposal(proposer: Address, id: ProposalId, title: Bytes, description: Bytes,
                       actions: seq<Action>, era: nat): Proposal {
    Proposal(id, proposer, title, description, actions, PROPOSAL_DEPOSIT, era, Active)
  }

  /** `balance` is the proposer's balance, absent without an account. */
  function Submit(g: Gov, balance: Option<nat>, proposer: Address, id: ProposalId, title: Bytes,
                  description: Bytes, actions: seq<Action>, era: nat): (Gov, Result) {
    if balance.None? then (g, AccountNotFound)
    else if balance.value < PROPOSAL_DEPOSIT then (g, InsufficientBalance)
    else if |title| > TITLE_MAX_BYTES then (g, TitleTooLong)
    else if |description| > DESC_MAX_BYTES then (g, DescriptionTooLong)
    else if actions == [] then (g, NoActions)
    else if !ValidActions(actions) then (g, BadAction)
    else if CountOf(g, proposer) >= MAX_PER_PROPOSER then (g, ProposerLimit)
    else if g.globalCount >= MAX_GLOBAL then (g, GlobalLimit)
    else (Store(g, NewProposal(proposer, id, title, description, actions, era)), Ok)
  }

  /** Store a new proposal, over any older one with its identifier, and count it. */
  function Store(g: Gov, p: Proposal): Gov {
    g.(proposals := g.proposals[p.id := p],
       proposerCounts := g.proposerCounts[p.proposer := CountOf(g, p.proposer) + 1],
       globalCount := g.globalCount + 1)
  }

  /** `stake` is the voter's stake, absent without a validator entry. */
  function CastVote(g: Gov, stake: Option<nat>, id: ProposalId, voter: Address, approve: bool,
                    era: nat, blockHeight: nat): (Gov, Result) {
    if id !in g.proposals then (g, ProposalNotFound)
    else
      var p := g.proposals[id];
      if p.status != Active then (g, NotActive)
      else if era < p.submissionEra || era >= Add64(p.submissionEra, VOTING_WINDOW_ERAS) then (g, WindowClosed)
      else if stake.None? || stake.value == 0 then (g, NoStake)
      else (g.(votes := g.votes[(id, voter) := Ballot(approve, stake.value, blockHeight)]), Ok)
  }

  function Cancel(g: Gov, hasAccount: bool, id: ProposalId, caller: Address): (Gov, Result) {
    if id !in g.proposals then (g, ProposalNotFound)
    else
      var p := g.proposals[id];
      if p.proposer != caller then (g, NotProposer)
      else if p.status != Active then (g, NotActive)
      else if !hasAccount then (g, AccountNotFound)
      else
        (g.(proposals := g.proposals[id := p.(status := Cancelled)],
            proposerCounts := if CountOf(g, caller) > 0 then g.proposerCounts[caller := CountOf(g, caller) - 1]
                              else g.proposerCounts,
            globalCount := if g.globalCount > 0 then g.globalCount - 1 else 0), Ok)
  }

  function SetStatus(g: Gov, id: ProposalId, status: Status): Gov {
    if id in g.proposals then g.(proposals := g.proposals[id := g.proposals[id].(status := status)]) else g
  }

  function ApplyActions(params: map<Param, nat>, actions: seq<Action>): map<Param, nat> {
    if actions == [] then params
    else
      var n := |actions| - 1;
      var before := ApplyActions(params, actions[..n]);
      match actions[n]
      case UpdateParam(param, value) => before[param := value]
      case IncreaseShards(_, _) => before
  }

  predicate IsApproved(g: Gov, id: ProposalId) {
    id in g.proposals && g.proposals[id].status == Approved
  }

  predicate IdLe(a: ProposalId, b: ProposalId) {
    a <= b
  }

  function ExecuteInOrder(g: Gov, ids: seq<ProposalId>): Gov {
    if ids == [] then g
    else
      var n := |ids| - 1;
      var before := ExecuteInOrder(g, ids[..n]);
      if IsApproved(before, ids[n])
      then before.(params := ApplyActions(before.params, before.proposals[ids[n]].actions))
      else before
  }

  function Execute(g: Gov, ids: seq<ProposalId>): Gov {
    ExecuteInOrder(g, Sort(ids, IdLe))
  }

  // ---------------------------------------------------------------------
  // The invariant
  // ---------------------------------------------------------------------

  ghost function ActiveIds(g: Gov): set<ProposalId> {
    set id | id in g.proposals && g.proposals[id].status == Active
  }

  ghost function ActiveIdsOf(g: Gov, proposer: Address): set<ProposalId> {
    set id | id in g.proposals && g.proposals[id].status == Active && g.proposals[id].proposer == proposer
  }

  /** The global counter is the sum of the per-proposer counters; the counters
      bound the active proposals and respect their limits; every stored proposal
      has valid actions and every stored parameter is within its bounds. */
  ghost predicate GovOk(g: Gov) {
    && g.globalCount == Sum(g.proposerCounts) <= MAX_GLOBAL
    && (forall p :: CountOf(g, p) <= MAX_PER_PROPOSER)
    && (forall p :: |ActiveIdsOf(g, p)| <= CountOf(g, p))
    && |ActiveIds(g)| <= g.globalCount
    && (forall id :: id in g.proposals ==> g.proposals[id].id == id && ValidActions(g.proposals[id].actions))
    && (forall p :: p in g.params ==> InBounds(p, g.params[p]))
  }

  lemma GenesisOk()
    ensures GovOk(Genesis())
  {
    var g := Genesis();
    assert ActiveIds(g) == {};
    forall p ensures ActiveIdsOf(g, p) == {} {}
  }

  lemma StoreActives(g: Gov, p: Proposal, q: Address)
    ensures |ActiveIds(Store(g, p))| <= |ActiveIds(g)| + 1
    ensures |ActiveIdsOf(Store(g, p), q)| <= |ActiveIdsOf(g, q)| + (if q == p.proposer then 1 else 0)
  {
    var next := Store(g, p);
    SubsetSize(ActiveIds(next), ActiveIds(g) + {p.id});
    SubsetSize(ActiveIdsOf(next, q), ActiveIdsOf(g, q) + (if q == p.proposer then {p.id} else {}));
  }

  lemma StoreKeeps(g: Gov, p: Proposal)
    requires GovOk(g) && ValidActions(p.actions)
    requires CountOf(g, p.proposer) < MAX_PER_PROPOSER && g.globalCount < MAX_GLOBAL
    ensures GovOk(Store(g, p))
  {
    var next := Store(g, p);
    assert next.globalCount == Sum(next.proposerCounts) by {
      SumUpdate(g.proposerCounts, p.proposer, CountOf(g, p.proposer) + 1);
    }
    StoreActives(g, p, p.proposer);
    forall q ensures |ActiveIdsOf(next, q)| <= CountOf(next, q) && CountOf(next, q) <= MAX_PER_PROPOSER {
      StoreActives(g, p, q);
      assert |ActiveIdsOf(g, q)| <= CountOf(g, q) && CountOf(g, q) <= MAX_PER_PROPOSER;
    }
  }

  lemma SubmitKeeps(g: Gov, balance: Option<nat>, proposer: Address, id: ProposalId, title: Bytes,
                    description: Bytes, actions: seq<Action>, era: nat)
    requires GovOk(g)
    ensures GovOk(Submit(g, balance, proposer, id, title, description, actions, era).0)
  {
    var result := Submit(g, balance, proposer, id, title, description, actions, era).1;
    if result == Ok {
      StoreKeeps(g, NewProposal(proposer, id, title, description, actions, era));
    }
  }

  lemma CancelKeeps(g: Gov, hasAccount: bool, id: ProposalId, caller: Address)
    requires GovOk(g)
    ensures GovOk(Cancel(g, hasAccount, id, caller).0)
  {
    var (next, result) := Cancel(g, hasAccount, id, caller);
    if result == Ok {
      assert id in ActiveIdsOf(g, caller) && id in ActiveIds(g);
      assert |ActiveIdsOf(g, caller)| <= CountOf(g, caller);
      assert ActiveIdsOf(next, caller) == ActiveIdsOf(g, caller) - {id};
      assert ActiveIds(next) == ActiveIds(g) - {id};
      SumUpdate(g.proposerCounts, caller, CountOf(g, caller) - 1);
      forall p ensures |ActiveIdsOf(next, p)| <= CountOf(next, p) && CountOf(next, p) <= MAX_PER_PROPOSER {
        assert |ActiveIdsOf(g, p)| <= CountOf(g, p) && CountOf(g, p) <= MAX_PER_PROPOSER;
        if p != caller {
          assert ActiveIdsOf(next, p) == ActiveIdsOf(g, p);
        }
      }
    }
  }

  lemma VoteKeeps(g: Gov, stake: Option<nat>, id: ProposalId, voter: Address, approve: bool, era: nat, height: nat)
    requires GovOk(g)
    ensures GovOk(CastVote(g, stake, id, voter, approve, era, height).0)
  {
    var next := CastVote(g, stake, id, voter, approve, era, height).0;
    assert ActiveIds(next) == ActiveIds(g);
    forall p ensures ActiveIdsOf(next, p) == ActiveIdsOf(g, p) && CountOf(next, p) == CountOf(g, p) {}
  }

  /** Closing a proposal in any way keeps the invariant; reopening is not among the transitions. */
  lemma SetStatusKeeps(g: Gov, id: ProposalId, status: Status)
    requires GovOk(g) && status != Active
    ensures GovOk(SetStatus(g, id, status))
  {
    var next := SetStatus(g, id, status);
    SubsetSize(ActiveIds(next), ActiveIds(g));
    forall p ensures |ActiveIdsOf(next, p)| <= CountOf(next, p) && CountOf(next, p) <= MAX_PER_PROPOSER {
      SubsetSize(ActiveIdsOf(next, p), ActiveIdsOf(g, p));
      assert |ActiveIdsOf(g, p)| <= CountOf(g, p) && CountOf(g, p) <= MAX_PER_PROPOSER;
    }
  }

  lemma {:induction false} ApplyKeepsBounds(params: map<Param, nat>, actions: seq<Action>)
    requires ValidActions(actions) && forall p :: p in params ==> InBounds(p, params[p])
    ensures forall p :: p in ApplyActions(params, actions) ==> InBounds(p, ApplyActions(params, actions)[p])
  {
    if actions != [] {
      var n := |actions| - 1;
      ApplyKeepsBounds(params, actions[..n]);
      assert ValidAction(actions[n]);
    }
  }

  /** Execution rewrites parameters and nothing else. */
  lemma {:induction false} ExecuteFrame(g: Gov, ids: seq<ProposalId>)
    requires GovOk(g)
    ensures ExecuteInOrder(g, ids) == g.(params := ExecuteInOrder(g, ids).params)
    ensures forall p :: p in ExecuteInOrder(g, ids).params ==> InBounds(p, ExecuteInOrder(g, ids).params[p])
  {
    if ids != [] {
      var n := |ids| - 1;
      ExecuteFrame(g, ids[..n]);
      if IsApproved(g, ids[n]) {
        ApplyKeepsBounds(ExecuteInOrder(g, ids[..n]).params, g.proposals[ids[n]].actions);
      }
    }
  }

  lemma ExecuteKeeps(g: Gov, ids: seq<ProposalId>)
    requires GovOk(g)
    ensures GovOk(Execute(g, ids))
  {
    var next := Execute(g, ids);
    ExecuteFrame(g, Sort(ids, IdLe));
    assert ActiveIds(next) == ActiveIds(g);
    forall p ensures ActiveIdsOf(next, p) == ActiveIdsOf(g, p) && CountOf(next, p) == CountOf(g, p) {}
  }

  datatype Call =
    | DoSubmit(balance: Option<nat>, proposer: Address, id: ProposalId, title: Bytes, description: Bytes,
               actions: seq<Action>, era: nat)
    | DoVote(stake: Option<nat>, id: ProposalId, voter: Address, approve: bool, era: nat, blockHeight: nat)
    | DoCancel(hasAccount: bool, id: ProposalId, caller: Address)
    | DoClose(id: ProposalId, status: Status)
    | DoExecute(ids: seq<ProposalId>)

  function Handle(g: Gov, call: Call): Gov {
    match call
    case DoSubmit(balance, proposer, id, title, description, actions, era) =>
      Submit(g, balance, proposer, id, title, description, actions, era).0
    case DoVote(stake, id, voter, approve, era, height) => CastVote(g, stake, id, voter, approve, era, height).0
    case DoCancel(hasAccount, id, caller) => Cancel(g, hasAccount, id, caller).0
    case DoClose(id, status) => if status == Active then g else SetStatus(g, id, status)
    case DoExecute(ids) => Execute(g, ids)
  }

  function RunCalls(g: Gov, calls: seq<Call>): Gov {
    if calls == [] then g else Handle(RunCalls(g, calls[..|calls| - 1]), calls[|calls| - 1])
  }

  /** Over every run of calls the limits, counters and bounds hold. */
  lemma {:induction false} RunKeepsLimits(g: Gov, calls: seq<Call>)
    requires GovOk(g)
    ensures GovOk(RunCalls(g, calls))
  {
    if calls != [] {
      var n := |calls| - 1;
      RunKeepsLimits(g, calls[..n]);
      var mid := RunCalls(g, calls[..n]);
      match calls[n] {
        case DoSubmit(balance, proposer, id, title, description, actions, era) =>
          SubmitKeeps(mid, balance, proposer, id, title, description, actions, era);
        case DoVote(stake, id, voter, approve, era, height) => VoteKeeps(mid, stake, id, voter, approve, era, height);
        case DoCancel(hasAccount, id, caller) => CancelKeeps(mid, hasAccount, id, caller);
        case DoClose(id, status) =>
          if status != Active {
            SetStatusKeeps(mid, id, status);
          }
        case DoExecute(ids) => ExecuteKeeps(mid, ids);
      }
    }
  }

  /** In every reachable state a proposer has at most 5 active proposals, the
      network at most 50, and every stored parameter is within its bounds. */
  lemma ReachableLimits(calls: seq<Call>, proposer: Address)
    ensures var g := RunCalls(Genesis(), calls);
            && |ActiveIdsOf(g, proposer)| <= MAX_PER_PROPOSER
            && |ActiveIds(g)| <= MAX_GLOBAL
            && (forall p :: p in g.params ==> InBounds(p, g.params[p]))
  {
    GenesisOk();
    RunKeepsLimits(Genesis(), calls);
    var g := RunCalls(Genesis(), calls);
    assert |ActiveIdsOf(g, proposer)| <= CountOf(g, proposer) <= MAX_PER_PROPOSER;
  }

  // ---------------------------------------------------------------------
  // When a call is accepted, and what it then writes
  // ---------------------------------------------------------------------

  /** The answer to a submission: the first requirement that fails names it. */
  ghost predicate SubmitAnswer(g: Gov, balance: Option<nat>, proposer: Address, title: Bytes, description: Bytes,
                               actions: seq<Action>, result: Result) {
    var funds := balance.Some? && balance.value >= 10000000000000000000000000000000000;
    var texts := |title| <= 256 && |description| <= 4096;
    var acts := |actions| > 0 && forall i :: 0 <= i < |actions| ==> ValidAction(actions[i]);
    && (result == AccountNotFound <==> balance == None)
    && (result == InsufficientBalance <==> balance.Some? && !funds)
    && (result == TitleTooLong <==> funds && |title| > 256)
    && (result == DescriptionTooLong <==> funds && |title| <= 256 && |description| > 4096)
    && (result == NoActions <==> funds && texts && actions == [])
    && (result == BadAction <==> funds && texts && |actions| > 0 && !acts)
    && (result == ProposerLimit <==> funds && texts && acts && CountOf(g, proposer) >= 5)
    && (result == GlobalLimit <==> funds && texts && acts && CountOf(g, proposer) < 5 && g.globalCount >= 50)
    && (result == Ok <==> funds && texts && acts && CountOf(g, proposer) < 5 && g.globalCount < 50)
  }

  /** A submission is answered as required; if accepted, the proposal is stored as
      given, Active, and both counters grow by one. */
  lemma SubmitEffect(g: Gov, balance: Option<nat>, proposer: Address, id: ProposalId, title: Bytes,
                     description: Bytes, actions: seq<Action>, era: nat)
    ensures var (next, result) := Submit(g, balance, proposer, id, title, description, actions, era);
            && SubmitAnswer(g, balance, proposer, title, description, actions, result)
            && (result != Ok ==> next == g)
            && (result == Ok ==>
                  && id in next.proposals
                  && next.proposals[id].status == Active
                  && next.proposals[id].id == id && next.proposals[id].proposer == proposer
                  && next.proposals[id].title == title && next.proposals[id].description == description
                  && next.proposals[id].actions == actions && next.proposals[id].submissionEra == era
                  && next.proposals[id].deposit == 10000000000000000000000000000000000
                  && (forall other :: other != id ==>
                        (other in next.proposals <==> other in g.proposals)
                        && (other in g.proposals ==> next.proposals[other] == g.proposals[other]))
                  && (forall p :: CountOf(next, p) == CountOf(g, p) + (if p == proposer then 1 else 0))
                  && next.globalCount == g.globalCount + 1
                  && next.votes == g.votes && next.params == g.params)
  {
  }

  /** The answer to a cancellation. */
  ghost predicate CancelAnswer(g: Gov, hasAccount: bool, id: ProposalId, caller: Address, result: Result) {
    && (result == ProposalNotFound <==> id !in g.proposals)
    && (id in g.proposals ==>
          var p := g.proposals[id];
          && (result == NotProposer <==> p.proposer != caller)
          && (result == NotActive <==> p.proposer == caller && p.status != Active)
          && (result == AccountNotFound <==> p.proposer == caller && p.status == Active && !hasAccount)
          && (result == Ok <==> p.proposer == caller && p.status == Active && hasAccount))
  }

  /** An accepted cancellation marks the proposal and lowers both counters by one. */
  lemma CancelEffect(g: Gov, hasAccount: bool, id: ProposalId, caller: Address)
    requires GovOk(g)
    ensures var (next, result) := Cancel(g, hasAccount, id, caller);
            && CancelAnswer(g, hasAccount, id, caller, result)
            && (result != Ok ==> next == g)
            && (result == Ok ==>
                  && next.proposals == g.proposals[id := g.proposals[id].(status := Cancelled)]
                  && (forall p :: CountOf(next, p) + (if p == caller then 1 else 0) == CountOf(g, p))
                  && next.globalCount + 1 == g.globalCount
                  && next.votes == g.votes && next.params == g.params)
  {
    if Cancel(g, hasAccount, id, caller).1 == Ok {
      CancelCounted(g, hasAccount, id, caller);
      assert CountOf(g, caller) <= Sum(g.proposerCounts) by {
        SumRemove(g.proposerCounts, caller);
      }
    }
  }

  /** The proposal is open to a vote of positive stake in this era; the end of the
      window wraps around with the 64-bit eras. */
  ghost predicate MayVote(g: Gov, stake: Option<nat>, id: ProposalId, era: nat) {
    && id in g.proposals && g.proposals[id].status == Active
    && g.proposals[id].submissionEra <= era < (g.proposals[id].submissionEra + 7) % U64_MOD
    && stake.Some? && stake.value > 0
  }

  /** The answer to a vote. */
  ghost predicate VoteAnswer(g: Gov, stake: Option<nat>, id: ProposalId, era: nat, result: Result) {
    && (result == Ok <==> MayVote(g, stake, id, era))
    && (result == ProposalNotFound <==> id !in g.proposals)
    && (result == NotActive <==> id in g.proposals && g.proposals[id].status != Active)
    && (result == NoStake <==> (stake == None || stake == Some(0)) && MayVote(g, Some(1), id, era))
    && (result == WindowClosed <==>
          id in g.proposals && g.proposals[id].status == Active && !MayVote(g, Some(1), id, era))
  }

  /** An accepted vote writes its ballot, over an older one of the voter, and nothing else. */
  lemma VoteEffect(g: Gov, stake: Option<nat>, id: ProposalId, voter: Address, approve: bool, era: nat, height: nat)
    ensures var (next, result) := CastVote(g, stake, id, voter, approve, era, height);
            && VoteAnswer(g, stake, id, era, result)
            && next.proposals == g.proposals && next.params == g.params
            && next.proposerCounts == g.proposerCounts && next.globalCount == g.globalCount
            && (forall k :: BallotIn(next, k) ==
                  if result == Ok && k == (id, voter) then Some(Ballot(approve, stake.value, height))
                  else BallotIn(g, k))
  {
  }

  function BallotIn(g: Gov, k: (ProposalId, Address)): Option<Ballot> {
    if k in g.votes then Some(g.votes[k]) else None
  }

  /** The ballot of the voter's last accepted vote on the proposal, or the one there before. */
  ghost function LastBallot(g: Gov, calls: seq<Call>, id: ProposalId, voter: Address): Option<Ballot> {
    if calls == [] then BallotIn(g, (id, voter))
    else
      var n := |calls| - 1;
      var call := calls[n];
      if call.DoVote? && call.id == id && call.voter == voter
         && MayVote(RunCalls(g, calls[..n]), call.stake, id, call.era)
      then Some(Ballot(call.approve, call.stake.value, call.blockHeight))
      else LastBallot(g, calls[..n], id, voter)
  }

  /** After any run the ballot stored for a voter is that of its last accepted vote. */
  lemma {:induction false} BallotsAfterRun(g: Gov, calls: seq<Call>, id: ProposalId, voter: Address)
    requires GovOk(g)
    ensures BallotIn(RunCalls(g, calls), (id, voter)) == LastBallot(g, calls, id, voter)
  {
    if calls != [] {
      var n := |calls| - 1;
      BallotsAfterRun(g, calls[..n], id, voter);
      RunKeepsLimits(g, calls[..n]);
      var mid := RunCalls(g, calls[..n]);
      match calls[n] {
        case DoVote(stake, id', voter', approve, era, height) =>
          VoteEffect(mid, stake, id', voter', approve, era, height);
        case DoExecute(ids) => ExecuteFrame(mid, Sort(ids, IdLe));
        case _ =>
      }
    }
  }

  // ---------------------------------------------------------------------
  // The voting window
  // ---------------------------------------------------------------------

  /** A proposal that takes a vote of stake exactly in its seven eras. */
  ghost predicate OpenSevenEras(g: Gov, id: ProposalId)
    requires id in g.proposals
  {
    var start := g.proposals[id].submissionEra;
    forall era: nat, voter: Address, stake: nat, approve: bool, height: nat :: stake > 0 ==>
      (CastVote(g, Some(stake), id, voter, approve, era, height).1 == Ok <==> start <= era < start + VOTING_WINDOW_ERAS)
  }

  /** The documented window holds unless its end wraps around the 64-bit eras. */
  lemma VotingWindow(g: Gov, id: ProposalId)
    requires id in g.proposals && g.proposals[id].status == Active
    requires g.proposals[id].submissionEra < U64_MOD
    ensures OpenSevenEras(g, id) <==> g.proposals[id].submissionEra + VOTING_WINDOW_ERAS < U64_MOD
  {
    var start := g.proposals[id].submissionEra;
    if start + VOTING_WINDOW_ERAS >= U64_MOD {
      assert CastVote(g, Some(1), id, 0, true, start, 0).1 == WindowClosed;
    }
  }

  // ---------------------------------------------------------------------
  // What the counters count
  // ---------------------------------------------------------------------

  predicate Submits(g: Gov, call: Call, proposer: Address) {
    && call.DoSubmit?
    && call.proposer == proposer
    && Submit(g, call.balance, call.proposer, call.id, call.title, call.description, call.actions, call.era).1 == Ok
  }

  predicate Cancels(g: Gov, call: Call, proposer: Address) {
    call.DoCancel? && call.caller == proposer && Cancel(g, call.hasAccount, call.id, call.caller).1 == Ok
  }

  /** The accepted submissions of a proposer in a run from genesis. */
  function Submissions(calls: seq<Call>, proposer: Address): nat {
    if calls == [] then 0
    else
      var n := |calls| - 1;
      Submissions(calls[..n], proposer)
      + (if Submits(RunCalls(Genesis(), calls[..n]), calls[n], proposer) then 1 else 0)
  }

  /** The accepted cancellations of a proposer in a run from genesis. */
  function Cancellations(calls: seq<Call>, proposer: Address): nat {
    if calls == [] then 0
    else
      var n := |calls| - 1;
      Cancellations(calls[..n], proposer)
      + (if Cancels(RunCalls(Genesis(), calls[..n]), calls[n], proposer) then 1 else 0)
  }

  /** A cancelled proposal was counted, so its counter is there to be lowered. */
  lemma CancelCounted(g: Gov, hasAccount: bool, id: ProposalId, caller: Address)
    requires GovOk(g) && Cancel(g, hasAccount, id, caller).1 == Ok
    ensures CountOf(g, caller) > 0
  {
    SubsetSize({id}, ActiveIdsOf(g, caller));
    assert |ActiveIdsOf(g, caller)| <= CountOf(g, caller);
  }

  lemma CallCounts(g: Gov, call: Call, proposer: Address)
    requires GovOk(g)
    ensures CountOf(Handle(g, call), proposer) + (if Cancels(g, call, proposer) then 1 else 0)
            == CountOf(g, proposer) + (if Submits(g, call, proposer) then 1 else 0)
  {
    match call {
      case DoCancel(hasAccount, id, caller) =>
        if Cancel(g, hasAccount, id, caller).1 == Ok {
          CancelCounted(g, hasAccount, id, caller);
        }
      case DoExecute(ids) => ExecuteFrame(g, Sort(ids, IdLe));
      case _ =>
    }
  }

  /** A proposer's counter is its submissions less its cancellations: proposals
      that are approved, rejected or expired occupy their slot for ever. */
  lemma {:induction false} CounterLedger(calls: seq<Call>, proposer: Address)
    ensures CountOf(RunCalls(Genesis(), calls), proposer) + Cancellations(calls, proposer)
            == Submissions(calls, proposer)
  {
    if calls != [] {
      var n := |calls| - 1;
      var genesis := Genesis();
      CounterLedger(calls[..n], proposer);
      GenesisOk();
      RunKeepsLimits(genesis, calls[..n]);
      CallCounts(RunCalls(genesis, calls[..n]), calls[n], proposer);
    }
  }

  // ---------------------------------------------------------------------
  // When the counters count the active proposals
  // ---------------------------------------------------------------------

  /** The call takes an active proposal of the proposer away without lowering its
      counter: an accepted submission replaces it under its identifier, or it is closed. */
  predicate Displaces(g: Gov, call: Call, proposer: Address) {
    match call
    case DoSubmit(_, submitter, id, _, _, _, _) =>
      Submits(g, call, submitter) && id in g.proposals && ActiveOf(g, id, proposer)
    case DoClose(id, status) => status != Active && id in g.proposals && ActiveOf(g, id, proposer)
    case _ => false
  }

  predicate ActiveOf(g: Gov, id: ProposalId, proposer: Address)
    requires id in g.proposals
  {
    g.proposals[id].status == Active && g.proposals[id].proposer == proposer
  }

  /** How often that has happened to a proposer in a run from genesis. */
  function Displaced(calls: seq<Call>, proposer: Address): nat {
    if calls == [] then 0
    else
      var n := |calls| - 1;
      Displaced(calls[..n], proposer)
      + (if Displaces(RunCalls(Genesis(), calls[..n]), calls[n], proposer) then 1 else 0)
  }

  lemma StoreActiveIds(g: Gov, p: Proposal, q: Address)
    requires p.status == Active
    ensures p.id in ActiveIdsOf(g, q) <==> p.id in g.proposals && ActiveOf(g, p.id, q)
    ensures ActiveIdsOf(Store(g, p), q)
            == if q == p.proposer then ActiveIdsOf(g, q) + {p.id} else ActiveIdsOf(g, q) - {p.id}
  {
    var next := Store(g, p);
    forall id ensures id in ActiveIdsOf(next, q) <==>
                      if id == p.id then q == p.proposer else id in ActiveIdsOf(g, q) {}
  }

  /** How many of a proposer's proposals a submission makes active, less those it replaces. */
  lemma StoreActivesExactly(g: Gov, p: Proposal, q: Address)
    requires p.status == Active
    ensures |ActiveIdsOf(Store(g, p), q)| + (if p.id in g.proposals && ActiveOf(g, p.id, q) then 1 else 0)
            == |ActiveIdsOf(g, q)| + (if q == p.proposer then 1 else 0)
  {
    hide ActiveIdsOf;
    hide ActiveOf;
    StoreActiveIds(g, p, q);
  }

  lemma CloseActivesExactly(g: Gov, id: ProposalId, status: Status, q: Address)
    requires status != Active && id in g.proposals
    ensures |ActiveIdsOf(SetStatus(g, id, status), q)| + (if ActiveOf(g, id, q) then 1 else 0) == |ActiveIdsOf(g, q)|
  {
    assert ActiveIdsOf(SetStatus(g, id, status), q) == ActiveIdsOf(g, q) - {id};
  }

  lemma CancelActivesExactly(g: Gov, hasAccount: bool, id: ProposalId, caller: Address, q: Address)
    requires Cancel(g, hasAccount, id, caller).1 == Ok
    ensures |ActiveIdsOf(Cancel(g, hasAccount, id, caller).0, q)| + (if q == caller then 1 else 0)
            == |ActiveIdsOf(g, q)|
  {
    var next := Cancel(g, hasAccount, id, caller).0;
    assert ActiveIdsOf(next, q) == ActiveIdsOf(g, q) - (if q == caller then {id} else {});
    assert q == caller ==> id in ActiveIdsOf(g, q);
  }

  lemma SameActives(g: Gov, next: Gov, q: Address)
    requires next.proposals == g.proposals
    ensures ActiveIdsOf(next, q) == ActiveIdsOf(g, q)
  {
  }

  lemma CallActives(g: Gov, call: Call, q: Address)
    requires GovOk(g)
    ensures |ActiveIdsOf(Handle(g, call), q)| + (if Displaces(g, call, q) then 1 else 0)
              + (if Cancels(g, call, q) then 1 else 0)
            == |ActiveIdsOf(g, q)| + (if Submits(g, call, q) then 1 else 0)
  {
    match call {
      case DoSubmit(_, proposer, id, title, description, actions, era) =>
        if Submits(g, call, proposer) {
          StoreActivesExactly(g, NewProposal(proposer, id, title, description, actions, era), q);
        }
      case DoVote(_, _, _, _, _, _) => SameActives(g, Handle(g, call), q);
      case DoCancel(hasAccount, id, caller) =>
        if Cancels(g, call, caller) {
          CancelActivesExactly(g, hasAccount, id, caller, q);
        }
      case DoClose(id, status) =>
        if status != Active && id in g.proposals {
          CloseActivesExactly(g, id, status, q);
        }
      case DoExecute(ids) =>
        ExecuteFrame(g, Sort(ids, IdLe));
        SameActives(g, Handle(g, call), q);
    }
  }

  /** A counter is the number of active proposals plus what was displaced. */
  lemma {:induction false} CounterExcess(calls: seq<Call>, proposer: Address)
    ensures var g := RunCalls(Genesis(), calls);
            CountOf(g, proposer) == |ActiveIdsOf(g, proposer)| + Displaced(calls, proposer)
  {
    if calls == [] {
      assert ActiveIdsOf(Genesis(), proposer) == {};
    } else {
      var n := |calls| - 1;
      CounterExcess(calls[..n], proposer);
      GenesisOk();
      RunKeepsLimits(Genesis(), calls[..n]);
      var g := RunCalls(Genesis(), calls[..n]);
      CallCounts(g, calls[n], proposer);
      CallActives(g, calls[n], proposer);
    }
  }

  /** The i-th call of a run from genesis displaces a proposal of the proposer. */
  predicate DisplacesAt(calls: seq<Call>, i: nat, proposer: Address)
    requires i < |calls|
  {
    Displaces(RunCalls(Genesis(), calls[..i]), calls[i], proposer)
  }

  lemma {:induction false} NothingDisplaced(calls: seq<Call>, proposer: Address)
    ensures Displaced(calls, proposer) == 0 <==> forall i :: 0 <= i < |calls| ==> !DisplacesAt(calls, i, proposer)
  {
    if calls != [] {
      var n := |calls| - 1;
      NothingDisplaced(calls[..n], proposer);
      forall i | 0 <= i < n
        ensures DisplacesAt(calls[..n], i, proposer) <==> DisplacesAt(calls, i, proposer)
      {
        assert calls[..n][..i] == calls[..i];
      }
      assert Displaced(calls, proposer)
          == Displaced(calls[..n], proposer) + (if DisplacesAt(calls, n, proposer) then 1 else 0);
      hide Displaces;
      hide Displaced;
    }
  }

  /** The counter is the number of active proposals exactly as long as no call has
      displaced one. */
  lemma CounterExactIff(calls: seq<Call>, proposer: Address)
    ensures var g := RunCalls(Genesis(), calls);
            CountOf(g, proposer) == |ActiveIdsOf(g, proposer)| <==>
              forall i :: 0 <= i < |calls| ==> !DisplacesAt(calls, i, proposer)
  {
    CounterExcess(calls, proposer);
    NothingDisplaced(calls, proposer);
  }

  lemma RunTwo(g: Gov, first: Call, second: Call)
    ensures RunCalls(g, [first, second]) == Handle(Handle(g, first), second)
  {
    var both := [first, second];
    assert both[..|both| - 1] == [first];
    assert [first][..0] == [];
    assert RunCalls(g, [first]) == Handle(RunCalls(g, []), first);
  }

  function PlainSubmission(proposer: Address, id: ProposalId): Call {
    DoSubmit(Some(PROPOSAL_DEPOSIT), proposer, id, [], [], [IncreaseShards(1, 0)], 0)
  }

  lemma PlainSubmissionStores(g: Gov, proposer: Address, id: ProposalId)
    requires CountOf(g, proposer) < MAX_PER_PROPOSER && g.globalCount < MAX_GLOBAL
    ensures Handle(g, PlainSubmission(proposer, id))
            == Store(g, NewProposal(proposer, id, [], [], [IncreaseShards(1, 0)], 0))
  {
  }

  /** Two submissions of one identifier: the second proposer takes the place of the
      first, whose counter stays at one without any active proposal. */
  lemma OverwriteKeepsSlot(id: ProposalId, first: Address, second: Address)
    requires first != second
    ensures var g := RunCalls(Genesis(), [PlainSubmission(first, id), PlainSubmission(second, id)]);
            CountOf(g, first) == 1 && ActiveIdsOf(g, first) == {} && ActiveIdsOf(g, second) == {id}
  {
    RunTwo(Genesis(), PlainSubmission(first, id), PlainSubmission(second, id));
    PlainSubmissionStores(Genesis(), first, id);
    PlainSubmissionStores(Handle(Genesis(), PlainSubmission(first, id)), second, id);
  }

  // ---------------------------------------------------------------------
  // What execution means
  // ---------------------------------------------------------------------

  /** The value the last matching action assigns to a parameter, if any. */
  function LastUpdate(actions: seq<Action>, param: Param): Option<nat> {
    if actions == [] then None
    else
      var last := actions[|actions| - 1];
      if last.UpdateParam? && last.param == param then Some(last.newValue)
      else LastUpdate(actions[..|actions| - 1], param)
  }

  function ParamValue(params: map<Param, nat>, param: Param): Option<nat> {
    if param in params then Some(params[param]) else None
  }

  lemma {:induction false} ApplyMeaning(params: map<Param, nat>, actions: seq<Action>, param: Param)
    ensures ParamValue(ApplyActions(params, actions), param)
            == match LastUpdate(actions, param) case Some(v) => Some(v) case None => ParamValue(params, param)
  {
    if actions != [] {
      ApplyMeaning(params, actions[..|actions| - 1], param);
    }
  }

  /** An approved proposal among `ids` that sets the parameter. */
  ghost predicate Sets(g: Gov, ids: seq<ProposalId>, id: ProposalId, param: Param) {
    id in ids && IsApproved(g, id) && LastUpdate(g.proposals[id].actions, param).Some?
  }

  ghost predicate Winner(g: Gov, ids: seq<ProposalId>, id: ProposalId, param: Param) {
    Sets(g, ids, id, param) && forall other: ProposalId :: Sets(g, ids, other, param) ==> other <= id
  }

  /** `value` is what the parameter must hold after executing `ids`: the last
      assignment of the greatest setter, or the old value without setters. */
  ghost predicate Means(g: Gov, ids: seq<ProposalId>, param: Param, value: Option<nat>) {
    && (forall id: ProposalId :: Winner(g, ids, id, param) ==> value == LastUpdate(g.proposals[id].actions, param))
    && ((forall id: ProposalId :: !Sets(g, ids, id, param)) ==> value == ParamValue(g.params, param))
    && ((exists id: ProposalId :: Sets(g, ids, id, param)) ==> exists id: ProposalId :: Winner(g, ids, id, param))
  }

  lemma MeansSetter(g: Gov, rest: seq<ProposalId>, last: ProposalId, param: Param)
    requires Sets(g, [last], last, param) && forall id :: id in rest ==> id <= last
    ensures Means(g, rest + [last], param, LastUpdate(g.proposals[last].actions, param))
  {
    var ids := rest + [last];
    assert ids[|rest|] == last;
    assert Sets(g, ids, last, param);
    assert Winner(g, ids, last, param);
  }

  lemma MeansOther(g: Gov, rest: seq<ProposalId>, last: ProposalId, param: Param, value: Option<nat>)
    requires Means(g, rest, param, value) && !Sets(g, [last], last, param)
    ensures Means(g, rest + [last], param, value)
  {
    SameMeaning(g, g, rest, rest + [last], param, value);
  }

  /** Lists with the same setters mean the same. */
  lemma SameMeaning(g: Gov, h: Gov, ids: seq<ProposalId>, ids': seq<ProposalId>, param: Param, value: Option<nat>)
    requires g.proposals == h.proposals && ParamValue(g.params, param) == ParamValue(h.params, param)
    requires Means(g, ids, param, value)
    requires forall id: ProposalId :: Sets(g, ids, id, param) <==> Sets(h, ids', id, param)
    ensures Means(h, ids', param, value)
  {
    forall id: ProposalId ensures Winner(g, ids, id, param) <==> Winner(h, ids', id, param) {}
  }

  /** The meaning fixes the value. */
  lemma MeansUnique(g: Gov, ids: seq<ProposalId>, param: Param, v: Option<nat>, w: Option<nat>)
    requires Means(g, ids, param, v) && Means(g, ids, param, w)
    ensures v == w
  {
    if id: ProposalId :| Sets(g, ids, id, param) {
      var winner: ProposalId :| Winner(g, ids, winner, param);
    }
  }

  /** One more proposal executed after `rest`. */
  lemma ExecuteOneMeaning(g: Gov, before: map<Param, nat>, rest: seq<ProposalId>, last: ProposalId, param: Param)
    requires Means(g, rest, param, ParamValue(before, param)) && forall id :: id in rest ==> id <= last
    ensures var after := if IsApproved(g, last) then ApplyActions(before, g.proposals[last].actions) else before;
            Means(g, rest + [last], param, ParamValue(after, param))
  {
    if IsApproved(g, last) {
      ApplyMeaning(before, g.proposals[last].actions, param);
    }
    if Sets(g, [last], last, param) {
      MeansSetter(g, rest, last, param);
    } else {
      MeansOther(g, rest, last, param, ParamValue(before, param));
    }
  }

  lemma ExecuteLast(g: Gov, ids: seq<ProposalId>)
    requires GovOk(g) && ids != []
    ensures var last, before := ids[|ids| - 1], ExecuteInOrder(g, ids[..|ids| - 1]).params;
            ExecuteInOrder(g, ids).params
            == if IsApproved(g, last) then ApplyActions(before, g.proposals[last].actions) else before
  {
    ExecuteFrame(g, ids[..|ids| - 1]);
  }

  lemma {:induction false} OrderedMeaning(g: Gov, ids: seq<ProposalId>, param: Param)
    requires GovOk(g) && Sorted(ids, IdLe)
    ensures Means(g, ids, param, ParamValue(ExecuteInOrder(g, ids).params, param))
  {
    if ids != [] {
      var n := |ids| - 1;
      var rest := ids[..n];
      OrderedMeaning(g, rest, param);
      ExecuteLast(g, ids);
      forall id | id in rest ensures id <= ids[n] {
        var i :| 0 <= i < n && ids[i] == id;
        assert IdLe(ids[i], ids[n]);
      }
      hide Means;
      hide GovOk;
      hide ExecuteInOrder;
      hide IsApproved;
      ExecuteOneMeaning(g, ExecuteInOrder(g, rest).params, rest, ids[n], param);
      assert ids == rest + [ids[n]];
    }
  }

  /** After execution a parameter holds the last assignment of the approved
      proposal with the greatest identifier that sets it, or its old value. */
  lemma ExecuteMeaning(g: Gov, ids: seq<ProposalId>, param: Param)
    requires GovOk(g)
    ensures Means(g, ids, param, ParamValue(Execute(g, ids).params, param))
  {
    var sorted := Sort(ids, IdLe);
    SortPermutes(ids, IdLe);
    SortSorts(ids, IdLe);
    SameMembers(ids, sorted);
    OrderedMeaning(g, sorted, param);
    SameMeaning(g, g, sorted, ids, param, ParamValue(Execute(g, ids).params, param));
  }

  /** Execution depends on the set of identifiers only, not their order or repetition. */
  lemma ExecuteSetwise(g: Gov, ids: seq<ProposalId>, ids': seq<ProposalId>)
    requires GovOk(g) && forall id :: id in ids <==> id in ids'
    ensures Execute(g, ids) == Execute(g, ids')
  {
    var a, b := Execute(g, ids), Execute(g, ids');
    ExecuteFrame(g, Sort(ids, IdLe));
    ExecuteFrame(g, Sort(ids', IdLe));
    forall p: Param ensures ParamValue(a.params, p) == ParamValue(b.params, p) {
      ExecuteMeaning(g, ids, p);
      ExecuteMeaning(g, ids', p);
      SameMeaning(g, g, ids, ids', p, ParamValue(a.params, p));
      MeansUnique(g, ids', p, ParamValue(a.params, p), ParamValue(b.params, p));
    }
    SameParams(a.params, b.params);
  }

  lemma SameParams(a: map<Param, nat>, b: map<Param, nat>)
    requires forall p: Param :: ParamValue(a, p) == ParamValue(b, p)
    ensures a == b
  {
    forall p: Param ensures p in a <==> p in b {
      assert ParamValue(a, p) == ParamValue(b, p);
    }
    forall p: Param | p in a ensures a[p] == b[p] {
      assert ParamValue(a, p) == ParamValue(b, p);
    }
  }

  /** Approved proposals stay approved, and executing them again changes nothing. */
  lemma ExecuteIdempotent(g: Gov, ids: seq<ProposalId>)
    requires GovOk(g)
    ensures Execute(Execute(g, ids), ids) == Execute(g, ids)
  {
    var once := Execute(g, ids);
    ExecuteKeeps(g, ids);
    ExecuteFrame(g, Sort(ids, IdLe));
    ExecuteFrame(once, Sort(ids, IdLe));
    var twice := Execute(once, ids);
    forall p: Param ensures ParamValue(twice.params, p) == ParamValue(once.params, p) {
      ExecuteMeaning(g, ids, p);
      ExecuteMeaning(once, ids, p);
      SettlesAtMeaning(g, once, ids, p, ParamValue(once.params, p), ParamValue(twice.params, p));
    }
    SameParams(twice.params, once.params);
  }

  lemma SettlesAtMeaning(g: Gov, once: Gov, ids: seq<ProposalId>, param: Param, v: Option<nat>, w: Option<nat>)
    requires g.proposals == once.proposals && v == ParamValue(once.params, param)
    requires Means(g, ids, param, v) && Means(once, ids, param, w)
    ensures v == w
  {
    if id: ProposalId :| Sets(g, ids, id, param) {
      var winner: ProposalId :| Winner(g, ids, winner, param);
      assert Sets(once, ids, winner, param);
      forall other: ProposalId | Sets(once, ids, other, param) ensures other <= winner {
        assert Sets(g, ids, other, param);
      }
      assert Winner(once, ids, winner, param);
    } else {
      forall id: ProposalId ensures !Sets(once, ids, id, param) {
        assert !Sets(g, ids, id, param);
      }
    }
  }
}
