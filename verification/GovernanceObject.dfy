/** The governance engine on top of a state machine: it looks accounts and stakes
    up there and writes its own items into the same tree. */
module GovernanceObject {
  import opened Primitives
  import opened Sorting
  import opened Governance
  import opened StateKeys
  import opened StateMachineObject

  /** Encoders of the governance items. */
  datatype GovCodec = GovCodec(
    proposal: Proposal -> Bytes, ballot: Ballot -> Bytes, value: nat -> Bytes, count: nat -> Bytes)

  /** The item of a governance key. */
  function GovItem(c: GovCodec, g: Gov, k: StateKey): Option<Bytes> {
    match k
    case ProposalKey(id) => if id in g.proposals then Some(c.proposal(g.proposals[id])) else None
    case VoteKey(id, voter) => if (id, voter) in g.votes then Some(c.ballot(g.votes[(id, voter)])) else None
    case ParamKey(param) => if param in g.params then Some(c.value(g.params[param])) else None
    case ProposerCountKey(a) => if a in g.proposerCounts then Some(c.count(g.proposerCounts[a])) else None
    case ActiveCountKey => Some(c.count(g.globalCount))
    case _ => None
  }

  /** A counter that was never written reads as zero. */
  predicate Unwritten(g: Gov, items: Items, k: StateKey) {
    k == ActiveCountKey && g.globalCount == 0 && k !in items
  }

  /** The items are the encoded governance state. */
  ghost predicate Carries(c: GovCodec, items: Items, g: Gov) {
    forall k: StateKey :: ItemIn(items, k) == GovItem(c, g, k) || Unwritten(g, items, k)
  }

  /** Changing the governance state at one key is writing that item. */
  lemma CarriesWrite(c: GovCodec, items: Items, g: Gov, next: Gov, k: StateKey, value: Bytes)
    requires Carries(c, items, g)
    requires GovItem(c, next, k) == Some(value)
    requires forall j: StateKey :: j != k ==> GovItem(c, next, j) == GovItem(c, g, j)
    requires k != ActiveCountKey ==> next.globalCount == g.globalCount
    ensures Carries(c, items[k := value], next)
  {
    forall j: StateKey
      ensures ItemIn(items[k := value], j) == GovItem(c, next, j) || Unwritten(next, items[k := value], j)
    {
      if j != k {
        assert ItemIn(items, j) == GovItem(c, g, j) || Unwritten(g, items, j);
      }
    }
  }

  class GovernanceEngine {
    const state: StateMachine
    const codec: GovCodec
    var proposals: map<ProposalId, Proposal>
    var votes: map<(ProposalId, Address), Ballot>
    var params: map<Param, nat>
    var proposerCounts: map<Address, nat>
    var globalCount: nat

    function View(): Gov
      reads this
    {
      Gov(proposals, votes, params, proposerCounts, globalCount)
    }

    /** The machine's tree is in step, and its other items are the governance state. */
    ghost predicate Synced()
      reads this, state, state.tree
    {
      state.Synced() && Carries(codec, state.rest, View())
    }

    constructor (state: StateMachine, codec: GovCodec, stored: Gov)
      requires state.Synced() && Carries(codec, state.rest, stored)
      ensures Synced() && View() == stored
      ensures this.state == state && this.codec == codec
    {
      this.state, this.codec := state, codec;
      proposals, votes, params := stored.proposals, stored.votes, stored.params;
      proposerCounts, globalCount := stored.proposerCounts, stored.globalCount;
    }

    function BalanceSeen(addr: Address): Option<nat>
      reads state
    {
      if addr in state.accounts then Some(state.accounts[addr].balance) else None
    }

    function StakeSeen(addr: Address): Option<nat>
      reads state
    {
      if addr in state.validators then Some(state.validators[addr].stake) else None
    }

    // -------------------------------------------------------------------
    // Writes
    // -------------------------------------------------------------------

    method PutProposal(id: ProposalId, p: Proposal)
      requires Synced()
      modifies this`proposals, state`rest, state.tree
      ensures Synced()
      ensures View() == old(View()).(proposals := old(proposals)[id := p])
    {
      CarriesWrite(codec, state.rest, View(), View().(proposals := proposals[id := p]),
                   ProposalKey(id), codec.proposal(p));
      state.GovernanceInsert(ProposalKey(id), codec.proposal(p));
      proposals := proposals[id := p];
    }

    method PutVote(id: ProposalId, voter: Address, ballot: Ballot)
      requires Synced()
      modifies this`votes, state`rest, state.tree
      ensures Synced()
      ensures View() == old(View()).(votes := old(votes)[(id, voter) := ballot])
    {
      CarriesWrite(codec, state.rest, View(), View().(votes := votes[(id, voter) := ballot]),
                   VoteKey(id, voter), codec.ballot(ballot));
      state.GovernanceInsert(VoteKey(id, voter), codec.ballot(ballot));
      votes := votes[(id, voter) := ballot];
    }

    method PutParam(param: Param, value: nat)
      requires Synced()
      modifies this`params, state`rest, state.tree
      ensures Synced()
      ensures View() == old(View()).(params := old(params)[param := value])
    {
      CarriesWrite(codec, state.rest, View(), View().(params := params[param := value]),
                   ParamKey(param), codec.value(value));
      state.GovernanceInsert(ParamKey(param), codec.value(value));
      params := params[param := value];
    }

    method PutProposerCount(proposer: Address, count: nat)
      requires Synced()
      modifies this`proposerCounts, state`rest, state.tree
      ensures Synced()
      ensures View() == old(View()).(proposerCounts := old(proposerCounts)[proposer := count])
    {
      CarriesWrite(codec, state.rest, View(), View().(proposerCounts := proposerCounts[proposer := count]),
                   ProposerCountKey(proposer), codec.count(count));
      state.GovernanceInsert(ProposerCountKey(proposer), codec.count(count));
      proposerCounts := proposerCounts[proposer := count];
    }

    method PutGlobalCount(count: nat)
      requires Synced()
      modifies this`globalCount, state`rest, state.tree
      ensures Synced()
      ensures View() == old(View()).(globalCount := count)
    {
      CarriesWrite(codec, state.rest, View(), View().(globalCount := count), ActiveCountKey, codec.count(count));
      state.GovernanceInsert(ActiveCountKey, codec.count(count));
      globalCount := count;
    }

    // -------------------------------------------------------------------
    // Calls
    // -------------------------------------------------------------------

    /** The deposit is compared with the balance but never taken: no account changes. */
    method SubmitProposal(proposer: Address, id: ProposalId, title: Bytes, description: Bytes,
                          actions: seq<Action>, era: nat) returns (result: Result)
      requires Synced()
      modifies this, state`rest, state.tree
      ensures Synced()
      ensures (View(), result)
              == Submit(old(View()), old(BalanceSeen(proposer)), proposer, id, title, description, actions, era)
    {
      hide Synced;
      var balance := BalanceSeen(proposer);
      if balance.None? {
        return AccountNotFound;
      }
      if balance.value < PROPOSAL_DEPOSIT {
        return InsufficientBalance;
      }
      if |title| > TITLE_MAX_BYTES {
        return TitleTooLong;
      }
      if |description| > DESC_MAX_BYTES {
        return DescriptionTooLong;
      }
      if actions == [] {
        return NoActions;
      }
      for i := 0 to |actions|
        invariant Synced() && View() == old(View())
        invariant ValidActions(actions[..i])
      {
        if !ValidAction(actions[i]) {
          return BadAction;
        }
      }
      if CountOf(View(), proposer) >= MAX_PER_PROPOSER {
        return ProposerLimit;
      }
      if globalCount >= MAX_GLOBAL {
        return GlobalLimit;
      }
      PutProposal(id, NewProposal(proposer, id, title, description, actions, era));
      PutProposerCount(proposer, CountOf(View(), proposer) + 1);
      PutGlobalCount(globalCount + 1);
      return Ok;
    }

    method Vote(id: ProposalId, voter: Address, approve: bool, era: nat, blockHeight: nat) returns (result: Result)
      requires Synced()
      modifies this, state`rest, state.tree
      ensures Synced()
      ensures (View(), result) == CastVote(old(View()), old(StakeSeen(voter)), id, voter, approve, era, blockHeight)
    {
      hide Synced;
      if id !in proposals {
        return ProposalNotFound;
      }
      var proposal := proposals[id];
      if proposal.status != Active {
        return NotActive;
      }
      if era < proposal.submissionEra || era >= Add64(proposal.submissionEra, VOTING_WINDOW_ERAS) {
        return WindowClosed;
      }
      var stake := StakeSeen(voter);
      var weight := if stake.Some? then stake.value else 0;
      if weight == 0 {
        return NoStake;
      }
      PutVote(id, voter, Ballot(approve, weight, blockHeight));
      return Ok;
    }

    method CancelProposal(id: ProposalId, caller: Address) returns (result: Result)
      requires Synced()
      modifies this, state`rest, state.tree
      ensures Synced()
      ensures (View(), result) == Cancel(old(View()), old(BalanceSeen(caller)).Some?, id, caller)
    {
      hide Synced;
      if id !in proposals {
        return ProposalNotFound;
      }
      var proposal := proposals[id];
      if proposal.proposer != caller {
        return NotProposer;
      }
      if proposal.status != Active {
        return NotActive;
      }
      if BalanceSeen(caller).None? {
        return AccountNotFound;
      }
      PutProposal(id, proposal.(status := Cancelled));
      var current := CountOf(View(), caller);
      if current > 0 {
        PutProposerCount(caller, current - 1);
      }
      if globalCount > 0 {
        PutGlobalCount(globalCount - 1);
      }
      return Ok;
    }

    method SetProposalStatus(id: ProposalId, status: Status)
      requires Synced()
      modifies this, state`rest, state.tree
      ensures Synced()
      ensures View() == SetStatus(old(View()), id, status)
    {
      hide Synced;
      if id in proposals {
        PutProposal(id, proposals[id].(status := status));
      }
    }

    method ExecuteApproved(ids: seq<ProposalId>)
      requires Synced()
      modifies this, state`rest, state.tree
      ensures Synced()
      ensures View() == Execute(old(View()), ids)
    {
      hide Synced;
      var sorted := Sort(ids, IdLe);
      for i := 0 to |sorted|
        invariant Synced()
        invariant View() == ExecuteInOrder(old(View()), sorted[..i])
      {
        assert sorted[..i + 1][..i] == sorted[..i];
        if sorted[i] in proposals {
          var proposal := proposals[sorted[i]];
          if proposal.status == Approved {
            ApplyEach(proposal.actions);
          }
        }
      }
      assert sorted[..|sorted|] == sorted;
    }

    method ApplyEach(actions: seq<Action>)
      requires Synced()
      modifies this`params, state`rest, state.tree
      ensures Synced()
      ensures View() == old(View()).(params := ApplyActions(old(params), actions))
    {
      hide Synced;
      for j := 0 to |actions|
        invariant Synced()
        invariant View() == old(View()).(params := ApplyActions(old(params), actions[..j]))
      {
        assert actions[..j + 1][..j] == actions[..j];
        match actions[j] {
          case UpdateParam(param, value) => PutParam(param, value);
          case IncreaseShards(_, _) =>
        }
      }
      assert actions[..|actions|] == actions;
    }
  }
}
