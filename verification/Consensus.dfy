/** The consensus round of Consensus.h as an object. Every public operation keeps Valid, and so does
    every run of them. The answers of the adaptor are arbitrary values, but that a ledger or a set it acquires is
    the one asked for, and that its first position is its first set. */
module Consensus {
  import opened DisputedTx
  import opened Disputes
  import opened Options
  import CloseTime
  import Thresholds

  type LedgerId = nat
  type Seq = x: nat | x <= SEQ_LEAVE
  type Resolution = x: nat | x > 0 witness 1

  const SEQ_JOIN := 0
  const SEQ_LEAVE := 0xffff_ffff

  // In seconds.
  const PROPOSE_FRESHNESS := 20
  const PROPOSE_INTERVAL := 12
  // In milliseconds.
  const MIN_CONSENSUS_TIME := 5000

  datatype Phase = Open | Establish | Accepted
  datatype Mode = Proposing | Observing | WrongLedger | SwitchedLedger

  /** ConsensusProposal.h */
  datatype Proposal = Proposal(prevLedger: LedgerId, proposeSeq: Seq, position: TxSet, closeTime: nat, time: int,
                               node: Node) {
    predicate IsInitial() {
      proposeSeq == SEQ_JOIN
    }

    predicate IsBowOut() {
      proposeSeq == SEQ_LEAVE
    }

    predicate IsStale(cutoff: int) {
      time <= cutoff
    }

    function ChangePosition(newPosition: TxSet, newCloseTime: nat, now: int): Proposal {
      Proposal(prevLedger, if IsBowOut() then proposeSeq else proposeSeq + 1, newPosition, newCloseTime, now, node)
    }

    function BowOut(now: int): Proposal {
      this.(time := now, proposeSeq := SEQ_LEAVE)
    }
  }

  /** Our stance in the round. */
  datatype Result = Result(books: Books, position: Proposal, roundTime: int, proposers: nat, state: Thresholds.State)

  function Sets(positions: map<Node, Proposal>): map<Node, TxSet> {
    map n | n in positions :: positions[n].position
  }

  /** Our position is our set, that set is known, and the disputes match all of it. */
  ghost predicate Agreed(r: Result, positions: map<Node, Proposal>, acquired: set<TxSet>) {
    && r.position.position == r.books.txns && r.books.txns in acquired
    && Kept(r.books, positions.Keys, Settled(Sets(positions), acquired))
  }

  /** The position we took and our set stay; only the disputes may differ. */
  ghost predicate SameStance(r: Option<Result>, r': Option<Result>) {
    if r.None? then r'.None? else r'.Some? && r'.value == r.value.(books := r'.value.books)
                                  && r'.value.books.txns == r.value.books.txns
  }

  ghost predicate SameBooks(r: Option<Result>, r': Option<Result>) {
    r.Some? && r'.Some? && r'.value.books == r.value.books && r'.value.position == r.value.position
  }

  /** The peer of p is at p or a later position, or has bowed out. */
  ghost predicate Considered(p: Proposal, positions: map<Node, Proposal>, dead: set<Node>) {
    p.node in dead || (p.node in positions && positions[p.node].proposeSeq >= p.proposeSeq)
  }

  /** The first i recent proposals of a peer for this ledger have been considered. */
  ghost predicate AllConsidered(props: seq<Proposal>, i: nat, ledgerID: LedgerId, positions: map<Node, Proposal>,
                                dead: set<Node>)
    requires i <= |props|
  {
    forall k :: 0 <= k < i && props[k].prevLedger == ledgerID ==> Considered(props[k], positions, dead)
  }

  lemma AgreedLeave(r: Result, positions: map<Node, Proposal>, acquired: set<TxSet>, node: Node)
    requires Agreed(r, positions, acquired)
    ensures Agreed(r.(books := r.books.(disputes := UnVotes(r.books.disputes, node))), positions - {node}, acquired)
  {
    KeptLeave(r.books, node, positions.Keys, Settled(Sets(positions), acquired));
    assert (positions - {node}).Keys == positions.Keys - {node};
    assert Settled(Sets(positions - {node}), acquired) == Settled(Sets(positions), acquired) - {node};
  }

  /** A peer takes a position whose set is not known yet. */
  lemma AgreedMove(r: Result, positions: map<Node, Proposal>, acquired: set<TxSet>, p: Proposal)
    requires Agreed(r, positions, acquired) && p.position !in acquired
    ensures Agreed(r, positions[p.node := p], acquired)
  {
    var after := positions[p.node := p];
    KeptUnsettle(r.books, positions.Keys, after.Keys, Settled(Sets(positions), acquired),
                 Settled(Sets(after), acquired));
  }

  /** A peer takes a position whose set is known. */
  method TakePosition(r: Result, positions: map<Node, Proposal>, acquired: set<TxSet>, p: Proposal) returns (r': Result)
    requires Agreed(r, positions, acquired) && p.position in acquired
    ensures Agreed(r', positions[p.node := p], acquired) && SameStance(Some(r), Some(r'))
  {
    var after := positions[p.node := p];
    ghost var settled := Settled(Sets(positions), acquired) - {p.node};
    KeptUnsettle(r.books, positions.Keys, after.Keys, Settled(Sets(positions), acquired), settled);
    assert Sets(after).Keys == after.Keys;
    var books := UpdateDisputes(r.books, p.node, p.position, Sets(after), acquired, settled);
    assert settled[p.node := p.position] == Settled(Sets(after), acquired);
    r' := r.(books := books);
  }

  /** The rounded close times of the peers. */
  ghost function Ballots(positions: map<Node, Proposal>, resolution: nat): map<Node, nat>
    requires resolution > 0
  {
    map n | n in positions :: CloseTime.RoundCloseTime(positions[n].closeTime, resolution)
  }

  /** A result without the votes of the peers in gone. */
  ghost function SiftResult(r: Result, gone: set<Node>): Result {
    r.(books := Sift(r.books, gone))
  }

  /** The positions when all peers but those in todo have been checked for freshness. */
  ghost predicate Sifted(before: map<Node, Proposal>, positions: map<Node, Proposal>, cutoff: int, todo: set<Node>) {
    && todo <= positions.Keys <= before.Keys && (forall n :: n in positions ==> positions[n] == before[n])
    && forall n :: n in before && n !in todo ==> (n in positions <==> before[n].time > cutoff)
  }

  /** The peers outside todo have voted on the close time. */
  ghost predicate Counted(votes: map<nat, nat>, ballots: map<Node, nat>, positions: map<Node, Proposal>,
                          resolution: nat, todo: set<Node>)
    requires resolution > 0
  {
    && ballots.Keys == positions.Keys - todo
    && (forall n :: n in ballots ==>
          ballots[n] == CloseTime.RoundCloseTime(positions[n].closeTime, resolution))
    && CloseTime.Counts(votes, ballots)
  }

  method CountFresh(votes: map<nat, nat>, ghost ballots: map<Node, nat>, positions: map<Node, Proposal>,
                    resolution: nat, ghost todo: set<Node>, n: Node)
    returns (votes': map<nat, nat>)
    requires resolution > 0 && Counted(votes, ballots, positions, resolution, todo) && n in todo && n in positions
    ensures var t := CloseTime.RoundCloseTime(positions[n].closeTime, resolution);
            Counted(votes', ballots[n := t], positions, resolution, todo - {n})
  {
    var t := CloseTime.RoundCloseTime(positions[n].closeTime, resolution);
    CloseTime.CountsAdd(votes, ballots, n, t);
    votes' := CloseTime.Increment(votes, t);
  }

  lemma DropKeeps(before: map<Node, Proposal>, positions: map<Node, Proposal>, cutoff: int, todo: set<Node>,
                  votes: map<nat, nat>, ballots: map<Node, nat>, resolution: nat, n: Node)
    requires resolution > 0 && Sifted(before, positions, cutoff, todo) && n in todo && positions[n].IsStale(cutoff)
    requires Counted(votes, ballots, positions, resolution, todo)
    ensures before.Keys - (positions - {n}).Keys == before.Keys - positions.Keys + {n}
    ensures Sifted(before, positions - {n}, cutoff, todo - {n})
    ensures Counted(votes, ballots, positions - {n}, resolution, todo - {n})
  {
    assert (positions - {n}).Keys == positions.Keys - {n};
  }

  lemma AllCounted(votes: map<nat, nat>, ballots: map<Node, nat>, positions: map<Node, Proposal>, resolution: nat)
    requires resolution > 0 && Counted(votes, ballots, positions, resolution, {})
    ensures ballots == Ballots(positions, resolution)
  {
  }

  /** The ballots of all participants; ours counts only when we propose. */
  ghost function AllBallots(ballots: map<int, nat>, proposing: bool, own: nat): map<int, nat> {
    if proposing then ballots[-1 := own] else ballots
  }

  /** The choice of a close time when there are peers. */
  method ChooseCloseTime(votes: map<nat, nat>, peers: nat, proposing: bool, own: nat, percent: int,
                         ghost ballots: map<int, nat>)
    returns (time: nat, have: bool)
    requires CloseTime.Counts(votes, ballots) && |ballots| == peers && -1 !in ballots
    ensures var all := AllBallots(ballots, proposing, own);
            var votes := CloseTime.VotesOf(all);
            CloseTime.Chosen(votes, votes.Keys, CloseTime.ParticipantsNeeded(|all|, Threshold(percent)),
              CloseTime.ParticipantsNeeded(|all|, CloseTime.CT_PCT), time, have)
  {
    var counted, participants := AddOwn(votes, peers, proposing, own, ballots);
    var threshVote := CloseTime.ParticipantsNeeded(participants, Threshold(percent));
    var threshConsensus := CloseTime.ParticipantsNeeded(participants, CloseTime.CT_PCT);
    time, have := CloseTime.Choose(counted, threshVote, threshConsensus);
  }

  /** Our own vote on the close time, when we propose. */
  method AddOwn(votes: map<nat, nat>, peers: nat, proposing: bool, own: nat, ghost ballots: map<int, nat>)
    returns (counted: map<nat, nat>, participants: nat)
    requires CloseTime.Counts(votes, ballots) && |ballots| == peers && -1 !in ballots
    ensures var all := AllBallots(ballots, proposing, own);
            counted == CloseTime.VotesOf(all) && participants == |all|
  {
    counted, participants := votes, peers;
    if proposing {
      CloseTime.CountsAdd(votes, ballots, -1, own);
      counted, participants := CloseTime.Increment(votes, own), peers + 1;
    }
    CloseTime.CountsVotes(counted, AllBallots(ballots, proposing, own));
  }

  /** Without peers our own close time stands. Otherwise it is the latest of those with the most votes,
      if they are enough, and consensus on it takes three quarters of the participants. */
  ghost predicate CloseTimeChosen(positions: map<Node, Proposal>, resolution: nat, proposing: bool, ours: Proposal,
                                  percent: int, time: nat, have: bool)
    requires resolution > 0
  {
    var own := CloseTime.RoundCloseTime(ours.closeTime, resolution);
    if positions == map[] then have && time == own
    else
      var all := AllBallots(Ballots(positions, resolution), proposing, own);
      var votes := CloseTime.VotesOf(all);
      CloseTime.Chosen(votes, votes.Keys, CloseTime.ParticipantsNeeded(|all|, Threshold(percent)),
        CloseTime.ParticipantsNeeded(|all|, CloseTime.CT_PCT), time, have)
  }

  /** The close times the ballots give, with consensus or without. */
  ghost function Elected(positions: map<Node, Proposal>, resolution: nat, proposing: bool, ours: Proposal, percent: int,
                         have: bool): iset<nat>
    requires resolution > 0
  {
    iset time: nat | CloseTimeChosen(positions, resolution, proposing, ours, percent, time, have)
  }

  /** The ballots are the rounded close times of the peers, and our own when we propose. */
  ghost predicate AreBallots(all: map<int, nat>, positions: map<Node, Proposal>, resolution: nat, proposing: bool,
                             ours: Proposal)
    requires resolution > 0
  {
    && (forall n :: n in all <==> (n >= 0 && n in positions) || (n == -1 && proposing))
    && (forall n :: n in positions ==>
          n in all && all[n] == CloseTime.RoundCloseTime(positions[n].closeTime, resolution))
    && (proposing ==> -1 in all && all[-1] == CloseTime.RoundCloseTime(ours.closeTime, resolution))
  }

  lemma BallotsUnique(all: map<int, nat>, positions: map<Node, Proposal>, resolution: nat, proposing: bool,
                      ours: Proposal)
    requires resolution > 0 && AreBallots(all, positions, resolution, proposing, ours)
    ensures all == AllBallots(Ballots(positions, resolution), proposing,
                     CloseTime.RoundCloseTime(ours.closeTime, resolution))
  {
    var peers: map<int, nat> := Ballots(positions, resolution);
    assert forall n: int :: n in peers <==> n >= 0 && n in positions;
    assert forall n: int :: n in peers ==>
             peers[n] == CloseTime.RoundCloseTime(positions[n].closeTime, resolution) == all[n];
    assert forall n: int :: n in all && n != -1 ==> n in peers;
  }

  /** The choice in terms of the ballots. Where the ballots for some time are enough at the percentage of the moment,
      those for the chosen time are; it is the latest of the times with the most ballots; and there is consensus
      exactly when its ballots are enough at 75 percent. */
  lemma ElectedExactly(positions: map<Node, Proposal>, resolution: nat, proposing: bool, ours: Proposal, percent: int,
                       time: nat, have: bool, all: map<int, nat>)
    requires resolution > 0 && AreBallots(all, positions, resolution, proposing, ours)
    ensures time in Elected(positions, resolution, proposing, ours, percent, have) <==>
            if positions == map[] then have && time == CloseTime.RoundCloseTime(ours.closeTime, resolution)
            else if exists t :: CloseTime.Enough(all, t, Threshold(percent)) then
              && CloseTime.Enough(all, time, Threshold(percent)) && CloseTime.Leads(all, time)
              && (have <==> CloseTime.Enough(all, time, 75))
            else time == 0 && !have
  {
    BallotsUnique(all, positions, resolution, proposing, ours);
    CloseTime.ChosenExactly(all, Threshold(percent), time, have);
  }

  method AgreeOnCloseTime(votes: map<nat, nat>, positions: map<Node, Proposal>, resolution: nat, proposing: bool,
                          ours: Proposal, percent: int)
    returns (time: nat, have: bool)
    requires resolution > 0 && CloseTime.Counts(votes, Ballots(positions, resolution))
    ensures CloseTimeChosen(positions, resolution, proposing, ours, percent, time, have)
  {
    var own := CloseTime.RoundCloseTime(ours.closeTime, resolution);
    if positions == map[] {
      return own, true;
    }
    ghost var ballots := Ballots(positions, resolution);
    assert ballots.Keys == positions.Keys;
    time, have := ChooseCloseTime(votes, |positions|, proposing, own, percent, ballots);
  }

  /** Our proposal when our set is txns and the close time is chosen: a new one when either changed, or when the
      old one is stale. */
  function NewProposal(p: Proposal, txns: TxSet, time: nat, now: int, resolution: nat): Proposal
    requires resolution > 0
  {
    if txns != p.position || time != CloseTime.RoundCloseTime(p.closeTime, resolution)
      || p.IsStale(now - PROPOSE_INTERVAL)
    then p.ChangePosition(txns, time, now) else p
  }

  /** The proposal after updateOurPositions, field by field: with a changed set or time, or when the old one is older
      than 12 seconds, it has the next sequence number, unless we have bowed out, and the time of now. */
  lemma NewProposalExactly(p: Proposal, txns: TxSet, time: nat, now: int, resolution: nat)
    requires resolution > 0
    ensures var q := NewProposal(p, txns, time, now, resolution);
            if txns != p.position || time != CloseTime.RoundCloseTime(p.closeTime, resolution) || p.time + 12 <= now
            then
              && q.proposeSeq == (if p.proposeSeq == 0xffff_ffff then 0xffff_ffff else p.proposeSeq + 1)
              && q.position == txns && q.closeTime == time && q.time == now
              && q.node == p.node && q.prevLedger == p.prevLedger
            else q == p
  {
  }

  /** A node that has heard our old proposal takes the new one exactly when there is a new one and we have not bowed
      out. The proposal numbered 0xffff_fffe is the last: its successor bows out. */
  lemma NewProposalAdmitted(c: Consensus, p: Proposal, txns: TxSet, time: nat, now: int, resolution: nat)
    requires resolution > 0 && c.Valid() && c.phase != Accepted && c.prevLedgerID == p.prevLedger && c.Heard(p)
    ensures var q := NewProposal(p, txns, time, now, resolution);
            && (c.Admits(q) <==> p.proposeSeq < 0xffff_ffff
                                 && (txns != p.position || p.time + 12 <= now
                                     || time != CloseTime.RoundCloseTime(p.closeTime, resolution)))
            && (c.Admits(q) ==> (q.proposeSeq == 0xffff_ffff <==> p.proposeSeq == 0xffff_fffe))
  {
  }

  /** Our set is the one our votes give, and it is known; our proposal follows from it and the close time. */
  ghost predicate Repositioned(r: Result, acquired: set<TxSet>, r': Result, acquired': set<TxSet>, percent: int,
                               proposing: bool, time: nat, now: int, resolution: nat)
    requires resolution > 0
  {
    && r'.books.txns == Revote(r.books, percent, proposing).txns && acquired' == acquired + {r'.books.txns}
    && r'.position == NewProposal(r.position, r'.books.txns, time, now, resolution)
    && r'.roundTime == r.roundTime && r'.proposers == r.proposers && r'.state == r.state
  }

  /** Stale peers are gone, the close time is chosen, and our set and proposal follow from the votes. */
  ghost predicate Updated(before: Result, was: map<Node, Proposal>, known: set<TxSet>, after: Result,
                          positions: map<Node, Proposal>, acquired: set<TxSet>, now: int, proposing: bool, percent: int,
                          resolution: nat, have: bool, time: nat, sifted: Result)
    requires resolution > 0
  {
    forall k {:trigger Shown(k)} :: Shown(k) ==>
      && Sifted(was, positions, now - 20, {}) && sifted == SiftResult(before, was.Keys - positions.Keys)
      && time in Elected(positions, resolution, proposing, before.position, percent, have)
      && Repositioned(sifted, known, after, acquired, percent, proposing, time, now, resolution)
  }

  // An update is looked into only where Shown names a number.
  ghost predicate Shown(k: int) {
    true
  }

  /** What an update is. */
  lemma UpdatedExactly(before: Result, was: map<Node, Proposal>, known: set<TxSet>, after: Result,
                       positions: map<Node, Proposal>, acquired: set<TxSet>, now: int, proposing: bool, percent: int,
                       resolution: nat, have: bool, time: nat, sifted: Result)
    requires resolution > 0
    ensures Updated(before, was, known, after, positions, acquired, now, proposing, percent, resolution, have, time,
                    sifted)
            <==>
            && Sifted(was, positions, now - 20, {}) && sifted == SiftResult(before, was.Keys - positions.Keys)
            && time in Elected(positions, resolution, proposing, before.position, percent, have)
            && Repositioned(sifted, known, after, acquired, percent, proposing, time, now, resolution)
  {
    assert Shown(0);
  }

  lemma UpdatedTime(before: Result, was: map<Node, Proposal>, known: set<TxSet>, after: Result,
                    positions: map<Node, Proposal>, acquired: set<TxSet>, now: int, proposing: bool, percent: int,
                    resolution: nat, have: bool, time: nat, sifted: Result)
    requires resolution > 0
    requires Updated(before, was, known, after, positions, acquired, now, proposing, percent, resolution, have, time,
                     sifted)
    ensures time in Elected(positions, resolution, proposing, before.position, percent, have)
    ensures after.roundTime == before.roundTime
  {
    assert Shown(0);
  }

  /** The votes on the disputes, and the new position. */
  method Reposition(r: Result, percent: int, proposing: bool, time: nat, now: int, resolution: nat,
                    positions: map<Node, Proposal>, acquired: set<TxSet>)
    returns (r': Result, acquired': set<TxSet>)
    requires resolution > 0 && Agreed(r, positions, acquired)
    ensures Agreed(r', positions, acquired')
    ensures Repositioned(r, acquired, r', acquired', percent, proposing, time, now, resolution)
  {
    var books, changed := UpdateVotes(r.books, percent, proposing);
    KeptRevote(r.books, percent, proposing, positions.Keys, Settled(Sets(positions), acquired));
    r', acquired' := NewPosition(r, books, changed, time, now, resolution, positions, acquired);
  }

  /** The end of updateOurPositions: a new position when our set or the close time changed, or when
      the old position is stale. */
  method NewPosition(r: Result, books: Books, changed: bool, time: nat, now: int, resolution: nat,
                     positions: map<Node, Proposal>, acquired: set<TxSet>)
    returns (r': Result, acquired': set<TxSet>)
    requires resolution > 0 && r.position.position == r.books.txns && r.books.txns in acquired
    requires Kept(books, positions.Keys, Settled(Sets(positions), acquired))
    requires (changed <==> books.txns != r.books.txns) && (!changed ==> books == r.books)
    ensures Agreed(r', positions, acquired') && acquired' == acquired + {books.txns} && r'.books.txns == books.txns
    ensures r' == r.(books := r'.books, position := NewProposal(r.position, books.txns, time, now, resolution))
  {
    r', acquired' := r.(books := books), acquired;
    if changed || time != CloseTime.RoundCloseTime(r.position.closeTime, resolution)
       || r.position.IsStale(now - PROPOSE_INTERVAL)
    {
      r' := r'.(position := r.position.ChangePosition(books.txns, time, now));
      if books.txns !in acquired {
        assert Sets(positions).Keys == positions.Keys;
        var recorded := RecordArrival(books, books.txns, Sets(positions), acquired);
        r', acquired' := r'.(books := recorded), acquired + {books.txns};
      }
    }
    assert acquired' == acquired + {books.txns};
  }

  ghost predicate Bounded(recent: map<Node, seq<Proposal>>) {
    forall n :: n in recent ==> |recent[n]| <= 10
  }

  /** A call from outside, or the part of timerEntry after checkLedger. */
  datatype Event =
    | StartRound(time: int, ledgerID: LedgerId, ledger: LedgerId, nowUntrusted: set<Node>, proposing: bool,
                 resolution: Resolution)
    | PeerProposal(time: int, proposal: Proposal)
    | GotTxSet(time: int, txSet: TxSet)
    | CheckLedger(time: int, netLedger: LedgerId, resolution: Resolution)
    | PhaseStep(close: bool, roundTime: nat, pause: bool, finished: nat)
    | Simulate(time: int, delay: int)

  class Consensus {
    var phase: Phase
    var mode: Mode
    var now: int
    var prevLedgerID: LedgerId
    var previousLedger: LedgerId
    var result: Option<Result>
    var positions: map<Node, Proposal>
    var acquired: set<TxSet>
    var dead: set<Node>
    var recent: map<Node, seq<Proposal>>
    var closeTimes: map<nat, nat>
    var closeResolution: nat
    var haveCloseTimeConsensus: bool
    var convergePercent: int
    var prevProposers: nat
    var prevRoundTime: int

    ghost predicate Valid()
      reads this
    {
      && (phase == Open ==> result.None?) && (phase == Establish ==> result.Some?)
      && positions.Keys !! dead
      && (forall n :: n in positions ==>
            positions[n].node == n && !positions[n].IsBowOut() && positions[n].prevLedger == prevLedgerID)
      && (result.Some? ==> Agreed(result.value, positions, acquired))
      && closeResolution > 0 && Bounded(recent)
    }

    constructor (resolution: nat, roundTime: int)
      requires resolution > 0
      ensures Valid() && phase == Accepted && mode == Observing && result.None?
      ensures positions == map[] && acquired == {} && dead == {} && recent == map[] && closeTimes == map[]
      ensures now == prevLedgerID == previousLedger == convergePercent == prevProposers == 0
      ensures closeResolution == resolution && prevRoundTime == roundTime && !haveCloseTimeConsensus
    {
      phase, mode, now, prevLedgerID, previousLedger := Accepted, Observing, 0, 0, 0;
      result, positions, acquired, dead, recent, closeTimes := None, map[], {}, {}, map[], map[];
      closeResolution, haveCloseTimeConsensus, convergePercent := resolution, false, 0;
      prevProposers, prevRoundTime := 0, roundTime;
    }

    /** The rule by which a proposal is taken. */
    ghost predicate Admits(p: Proposal)
      reads this
    {
      && phase != Accepted && p.prevLedger == prevLedgerID && p.node !in dead
      && (p.node in positions ==> p.proposeSeq > positions[p.node].proposeSeq)
    }

    /** A node that has heard p last from its proposer, which is out of the round for a p that bows out. */
    ghost predicate Heard(p: Proposal)
      reads this
    {
      if p.proposeSeq == 0xffff_ffff then p.node in dead else p.node in positions && positions[p.node] == p
    }

    /** gotTxSet */
    method GotTxSet(time: int, txSet: TxSet)
      requires Valid()
      modifies `now, `acquired, `result
      ensures Valid() && SameStance(old(result), result)
      ensures acquired == old(acquired) + if phase == Accepted then {} else {txSet}
      ensures now == if phase == Accepted then old(now) else time
    {
      if phase == Accepted {
        return;
      }
      now := time;
      if txSet in acquired {
        return;
      }
      if result.Some? {
        assert txSet != result.value.position.position;
        assert Sets(positions).Keys == positions.Keys;
        var books := RecordArrival(result.value.books, txSet, Sets(positions), acquired);
        result := Some(result.value.(books := books));
      }
      acquired := acquired + {txSet};
    }

    /** peerProposalInternal */
    method PeerProposalInternal(time: int, p: Proposal) returns (ok: bool)
      requires Valid()
      modifies `now, `acquired, `result, `positions, `dead, `closeTimes
      ensures Valid() && SameStance(old(result), result)
      ensures ok == (phase != Accepted && p.prevLedger == prevLedgerID && p.node !in old(dead)
                     && (p.node in old(positions) ==> p.proposeSeq > old(positions)[p.node].proposeSeq))
      ensures !ok ==>
                positions == old(positions) && dead == old(dead) && acquired == old(acquired) && result == old(result)
      ensures ok == old(Admits(p))
      ensures ok && p.proposeSeq == 0xffff_ffff ==>
                positions == old(positions) - {p.node} && dead == old(dead) + {p.node}
      ensures ok && p.proposeSeq != 0xffff_ffff ==> positions == old(positions)[p.node := p] && dead == old(dead)
      ensures closeTimes == if ok && p.proposeSeq == 0 then CloseTime.Increment(old(closeTimes), p.closeTime)
              else old(closeTimes)
      ensures now == if phase == Accepted then old(now) else time
    {
      if phase == Accepted {
        return false;
      }
      now := time;
      if p.prevLedger != prevLedgerID || p.node in dead {
        return false;
      }
      if p.node in positions && p.proposeSeq <= positions[p.node].proposeSeq {
        return false;
      }
      if p.IsBowOut() {
        BowOut(p.node);
      } else {
        TakePlace(p);
      }
      return true;
    }

    /** A peer leaves the round with its votes, and cannot come back. */
    method BowOut(n: Node)
      requires Valid()
      modifies `result, `positions, `dead
      ensures Valid() && SameStance(old(result), result)
      ensures positions == old(positions) - {n} && dead == old(dead) + {n}
    {
      if result.Some? {
        AgreedLeave(result.value, positions, acquired, n);
        var disputes := UnVoteAll(result.value.books.disputes, n);
        result := Some(result.value.(books := result.value.books.(disputes := disputes)));
      }
      positions, dead := positions - {n}, dead + {n};
    }

    /** The rest of peerProposalInternal: p is the new position of its peer. */
    method TakePlace(p: Proposal)
      requires Valid() && phase != Accepted && p.prevLedger == prevLedgerID && p.node !in dead && !p.IsBowOut()
      modifies `now, `acquired, `result, `positions, `closeTimes
      ensures Valid() && SameStance(old(result), result)
      ensures positions == old(positions)[p.node := p] && now == old(now)
      ensures closeTimes == if p.IsInitial() then CloseTime.Increment(old(closeTimes), p.closeTime) else old(closeTimes)
    {
      if p.IsInitial() {
        closeTimes := CloseTime.Increment(closeTimes, p.closeTime);
      }
      if p.position in acquired {
        if result.Some? {
          var r := TakePosition(result.value, positions, acquired, p);
          result := Some(r);
        }
        positions := positions[p.node := p];
      } else {
        AwaitSet(p);
        var available: bool := *;
        if available {
          GotTxSet(now, p.position);
        }
      }
    }

    method AwaitSet(p: Proposal)
      requires Valid() && p.prevLedger == prevLedgerID && p.node !in dead && !p.IsBowOut() && p.position !in acquired
      modifies `positions
      ensures Valid() && positions == old(positions)[p.node := p]
    {
      if result.Some? {
        AgreedMove(result.value, positions, acquired, p);
      }
      positions := positions[p.node := p];
    }

    /** peerProposal: the ten latest proposals of each peer are kept for playback. */
    method PeerProposal(time: int, p: Proposal) returns (ok: bool)
      requires Valid()
      modifies `now, `acquired, `result, `positions, `dead, `closeTimes, `recent
      ensures Valid() && SameStance(old(result), result)
      ensures p.node in recent && recent == old(recent)[p.node := recent[p.node]]
      ensures var all := (if p.node in old(recent) then old(recent)[p.node] else []) + [p];
              recent[p.node] == all[if |all| > 10 then |all| - 10 else 0..]
      ensures ok == old(Admits(p)) && now == if phase == Accepted then old(now) else time
      ensures positions == if !ok then old(positions)
                           else if p.proposeSeq == 0xffff_ffff then old(positions) - {p.node}
                           else old(positions)[p.node := p]
      ensures dead == old(dead) + if ok && p.proposeSeq == 0xffff_ffff then {p.node} else {}
    {
      var props := if p.node in recent then recent[p.node] else [];
      if |props| >= 10 {
        props := props[1..];
      }
      recent := recent[p.node := props + [p]];
      ok := PeerProposalInternal(time, p);
    }

    /** All recent proposals for this ledger have been considered. */
    ghost predicate PlayedBack(nodes: set<Node>)
      reads this
    {
      forall n :: n in recent && n in nodes ==> AllConsidered(recent[n], |recent[n]|, prevLedgerID, positions, dead)
    }

    /** A proposal among the recent ones. */
    ghost predicate IsRecent(p: Proposal)
      reads this
    {
      exists k :: k in recent && p in recent[k]
    }

    /** Every position was there before or is a recent proposal. */
    ghost predicate Recalled(before: map<Node, Proposal>)
      reads this
    {
      forall n :: n in positions ==> (n in before && positions[n] == before[n]) || IsRecent(positions[n])
    }

    /** playbackProposals */
    method PlaybackProposals()
      requires Valid() && phase != Accepted
      modifies `now, `acquired, `result, `positions, `dead, `closeTimes
      ensures Valid() && SameStance(old(result), result) && PlayedBack(recent.Keys) && Recalled(old(positions))
      ensures now == old(now)
    {
      var todo := recent.Keys;
      while todo != {}
        invariant Valid() && todo <= recent.Keys && SameStance(old(result), result) && PlayedBack(recent.Keys - todo)
        invariant Recalled(old(positions)) && now == old(now)
      {
        var n :| n in todo;
        PlaybackPeer(n, recent.Keys - todo, old(positions));
        todo := todo - {n};
      }
      assert recent.Keys - todo == recent.Keys;
    }

    method PlaybackPeer(n: Node, ghost done: set<Node>, ghost before: map<Node, Proposal>)
      requires Valid() && phase != Accepted && n in recent && PlayedBack(done) && Recalled(before)
      modifies `now, `acquired, `result, `positions, `dead, `closeTimes
      ensures Valid() && SameStance(old(result), result) && PlayedBack(done + {n}) && Recalled(before)
      ensures now == old(now)
    {
      for i := 0 to |recent[n]|
        invariant Valid() && SameStance(old(result), result) && PlayedBack(done) && Recalled(before) && now == old(now)
        invariant AllConsidered(recent[n], i, prevLedgerID, positions, dead)
      {
        if recent[n][i].prevLedger == prevLedgerID {
          assert IsRecent(recent[n][i]);
          PlaybackOne(recent[n][i], done, recent[n], i, before);
        }
      }
    }

    method PlaybackOne(p: Proposal, ghost done: set<Node>, ghost props: seq<Proposal>, ghost i: nat,
                       ghost before: map<Node, Proposal>)
      requires Valid() && phase != Accepted && p.prevLedger == prevLedgerID && PlayedBack(done)
      requires Recalled(before) && IsRecent(p) && i <= |props|
      requires AllConsidered(props, i, prevLedgerID, positions, dead)
      modifies `now, `acquired, `result, `positions, `dead, `closeTimes
      ensures Valid() && SameStance(old(result), result) && PlayedBack(done) && Recalled(before) && now == old(now)
      ensures AllConsidered(props, i, prevLedgerID, positions, dead) && Considered(p, positions, dead)
    {
      ghost var was, gone := positions, dead;
      var _ := PeerProposalInternal(now, p);
      forall q: Proposal | Considered(q, was, gone)
        ensures Considered(q, positions, dead)
      {
      }
    }

    /** The round state startRoundInternal clears. */
    method Reset(resolution: nat)
      requires Bounded(recent) && resolution > 0
      modifies `phase, `result, `positions, `acquired, `closeTimes, `dead, `closeResolution
      ensures Valid() && phase == Open && positions == map[] && acquired == {} && dead == {}
      ensures closeResolution == resolution
    {
      phase, result, positions, acquired, closeTimes, dead := Open, None, map[], {}, map[], {};
      closeResolution := resolution;
    }

    /** startRoundInternal, without the nested call of timerEntry, which is a step of its own. */
    method StartRoundInternal(time: int, ledgerID: LedgerId, ledger: LedgerId, newMode: Mode, resolution: nat)
      requires Valid() && resolution > 0
      modifies this
      ensures Valid() && phase == Open && prevLedgerID == ledgerID && previousLedger == ledger && mode == newMode
      ensures recent == old(recent) && PlayedBack(recent.Keys) && Recalled(map[])
      ensures now == time && convergePercent == 0 && !haveCloseTimeConsensus && closeResolution == resolution
    {
      Reset(resolution);
      mode, now, prevLedgerID, previousLedger := newMode, time, ledgerID, ledger;
      convergePercent, haveCloseTimeConsensus := 0, false;
      PlaybackProposals();
    }

    /** startRound. The ledger handed in may not be the one asked for; then it is acquired or not. */
    method StartRound(time: int, ledgerID: LedgerId, ledger: LedgerId, nowUntrusted: set<Node>, proposing: bool,
                      resolution: nat)
      requires Valid() && resolution > 0
      modifies this
      ensures Valid() && phase == Open && prevLedgerID == ledgerID
      ensures previousLedger == ledgerID || (previousLedger == ledger && mode == WrongLedger)
      ensures previousLedger == ledgerID ==> mode == if proposing then Proposing else Observing
      ensures recent == old(recent) - nowUntrusted && PlayedBack(recent.Keys) && Recalled(map[])
      ensures now == time && convergePercent == 0 && !haveCloseTimeConsensus && closeResolution == resolution
    {
      recent := recent - nowUntrusted;
      var startMode, base := if proposing then Proposing else Observing, ledger;
      if ledger != ledgerID {
        var found: bool := *;
        if found {
          base := ledgerID;
        } else {
          startMode := WrongLedger;
        }
      }
      StartRoundInternal(time, ledgerID, base, startMode, resolution);
    }

    /** leaveConsensus */
    method LeaveConsensus()
      requires Valid()
      modifies `mode, `result
      ensures Valid() && mode == (if old(mode) == Proposing then Observing else old(mode))
      ensures if old(mode) == Proposing && old(result).Some? then
                var p := old(result).value.position;
                result == Some(old(result).value.(position :=
                                 if p.proposeSeq == 0xffff_ffff then p else p.(time := now, proposeSeq := 0xffff_ffff)))
              else result == old(result)
    {
      if mode == Proposing {
        if result.Some? && !result.value.position.IsBowOut() {
          result := Some(result.value.(position := result.value.position.BowOut(now)));
        }
        mode := Observing;
      }
    }

    /** The part of handleWrongLedger for a ledger that is new to us. */
    method SwitchLedger(ledgerID: LedgerId)
      requires Valid() && phase != Accepted
      modifies `prevLedgerID, `now, `acquired, `result, `positions, `dead, `closeTimes
      ensures Valid() && prevLedgerID == ledgerID && SameStance(old(result), result) && PlayedBack(recent.Keys)
      ensures Recalled(map[]) && now == old(now)
    {
      prevLedgerID := ledgerID;
      if result.Some? {
        result := Some(result.value.(books := Books(result.value.books.txns, map[], {})));
      }
      positions, closeTimes, dead := map[], map[], {};
      PlaybackProposals();
    }

    /** handleWrongLedger */
    method HandleWrongLedger(ledgerID: LedgerId, resolution: nat)
      requires Valid() && phase != Accepted
      requires resolution > 0 && (ledgerID != prevLedgerID || previousLedger != ledgerID)
      modifies this
      ensures Valid() && prevLedgerID == ledgerID && mode != Proposing && now == old(now)
      ensures previousLedger == ledgerID || mode == WrongLedger
      ensures phase == Open || phase == old(phase)
      ensures old(previousLedger) != ledgerID && previousLedger == ledgerID ==> phase == Open && mode == SwitchedLedger
      ensures result.Some? ==>
                && old(result).Some? && result.value.books.txns == old(result).value.books.txns
                && (old(mode) == Proposing ==> result.value.position.proposeSeq == 0xffff_ffff)
      ensures recent == old(recent) && (old(prevLedgerID) != ledgerID ==> PlayedBack(recent.Keys) && Recalled(map[]))
    {
      LeaveConsensus();
      if prevLedgerID != ledgerID {
        SwitchLedger(ledgerID);
      }
      if previousLedger == prevLedgerID {
        return;
      }
      var found: bool := *;
      if found {
        StartRoundInternal(now, ledgerID, ledgerID, SwitchedLedger, resolution);
      } else {
        mode := WrongLedger;
      }
    }

    /** checkLedger: the start of timerEntry, with the ledger the adaptor prefers. */
    method CheckLedger(time: int, netLedger: LedgerId, resolution: nat)
      requires Valid() && resolution > 0
      modifies this
      ensures Valid() && (phase == Accepted <==> old(phase) == Accepted)
      ensures now == if phase == Accepted then old(now) else time
      ensures phase != Accepted ==> prevLedgerID == netLedger && (previousLedger == netLedger || mode == WrongLedger)
      ensures old(phase) == Accepted || (netLedger == old(prevLedgerID) == old(previousLedger)) ==>
                && phase == old(phase) && mode == old(mode) && result == old(result) && positions == old(positions)
                && prevLedgerID == old(prevLedgerID) && previousLedger == old(previousLedger)
    {
      if phase == Accepted {
        return;
      }
      now := time;
      if netLedger != prevLedgerID || previousLedger != prevLedgerID {
        HandleWrongLedger(netLedger, resolution);
      }
    }

    /** closeLedger. The adaptor gives our first set, and a position that is that set. */
    method CloseLedger()
      requires Valid() && phase == Open
      modifies `phase, `acquired, `result
      ensures Valid() && phase == Establish && acquired == old(acquired) + {result.value.books.txns}
      ensures result.value.state == Thresholds.No && result.value.roundTime == 0 && result.value.proposers == 0
    {
      assert result.None?;
      phase := Establish;
      var txns: TxSet := *;
      var position: Proposal := *;
      acquired := acquired + {txns};
      assert Sets(positions).Keys == positions.Keys;
      var books := FirstDisputes(txns, Sets(positions), acquired);
      result := Some(Result(books, position.(position := txns), 0, 0, Thresholds.No));
    }

    /** The start of updateOurPositions: stale peers leave, the others vote on the close time. */
    method RemoveStale(cutoff: int) returns (votes: map<nat, nat>)
      requires Valid() && result.Some?
      modifies `positions, `result
      ensures Valid() && Sifted(old(positions), positions, cutoff, {})
      ensures result == Some(SiftResult(old(result).value, old(positions).Keys - positions.Keys))
      ensures CloseTime.Counts(votes, Ballots(positions, closeResolution))
    {
      votes := map[];
      var todo := positions.Keys;
      ghost var ballots: map<Node, nat> := map[];
      SiftNone(result.value.books);
      assert positions.Keys - positions.Keys == {};
      while todo != {}
        invariant Valid() && result == Some(SiftResult(old(result).value, old(positions).Keys - positions.Keys))
        invariant Sifted(old(positions), positions, cutoff, todo)
        invariant Counted(votes, ballots, positions, closeResolution, todo)
      {
        var n :| n in todo;
        votes, ballots := Inspect(n, cutoff, votes, ballots, old(positions), old(result).value, todo);
        todo := todo - {n};
      }
      AllCounted(votes, ballots, positions, closeResolution);
    }

    method Inspect(n: Node, cutoff: int, votes: map<nat, nat>, ghost ballots: map<Node, nat>,
                   ghost before: map<Node, Proposal>, ghost r: Result, ghost todo: set<Node>)
      returns (votes': map<nat, nat>, ghost ballots': map<Node, nat>)
      requires Valid() && n in todo && result == Some(SiftResult(r, before.Keys - positions.Keys))
      requires Sifted(before, positions, cutoff, todo) && Counted(votes, ballots, positions, closeResolution, todo)
      modifies `positions, `result
      ensures Valid() && result == Some(SiftResult(r, before.Keys - positions.Keys))
      ensures Sifted(before, positions, cutoff, todo - {n})
      ensures Counted(votes', ballots', positions, closeResolution, todo - {n})
    {
      if positions[n].IsStale(cutoff) {
        DropKeeps(before, positions, cutoff, todo, votes, ballots, closeResolution, n);
        Drop(n, before.Keys - positions.Keys, r);
        votes', ballots' := votes, ballots;
      } else {
        votes' := CountFresh(votes, ballots, positions, closeResolution, todo, n);
        ballots' := ballots[n := CloseTime.RoundCloseTime(positions[n].closeTime, closeResolution)];
      }
    }

    /** A stale peer is erased with its votes. */
    method Drop(n: Node, ghost gone: set<Node>, ghost r: Result)
      requires Valid() && result == Some(SiftResult(r, gone))
      modifies `positions, `result
      ensures Valid() && positions == old(positions) - {n} && result == Some(SiftResult(r, gone + {n}))
    {
      AgreedLeave(result.value, positions, acquired, n);
      SiftOne(r.books, gone, n);
      var disputes := UnVoteAll(result.value.books.disputes, n);
      result := Some(result.value.(books := result.value.books.(disputes := disputes)));
      positions := positions - {n};
    }

    /** updateOurPositions. The close time is chosen, and our new set is what our votes give, once the stale
        peers are gone. The vote on the close time reads nothing that the votes on the disputes change, and
        goes first here. */
    method UpdateOurPositions() returns (ghost time: nat, ghost sifted: Result)
      requires Valid() && result.Some?
      modifies `positions, `result, `acquired, `haveCloseTimeConsensus
      ensures Valid() && result.Some? && Sifted(old(positions), positions, now - 20, {})
      ensures sifted == SiftResult(old(result).value, old(positions).Keys - positions.Keys)
      ensures time in Elected(positions, closeResolution, mode == Proposing, sifted.position, convergePercent,
                haveCloseTimeConsensus)
      ensures Repositioned(sifted, old(acquired), result.value, acquired, convergePercent, mode == Proposing, time, now,
                closeResolution)
      ensures var p, q := old(result).value.position, result.value.position;
              if result.value.books.txns != old(result).value.books.txns || p.time + 12 <= now
                 || time != CloseTime.RoundCloseTime(p.closeTime, closeResolution)
              then
                && q.proposeSeq == (if p.proposeSeq == 0xffff_ffff then 0xffff_ffff else p.proposeSeq + 1)
                && q.position == result.value.books.txns && q.closeTime == time && q.time == now
                && q.node == p.node && q.prevLedger == p.prevLedger
              else q == p
    {
      ghost var p := result.value.position;
      var votes := RemoveStale(now - PROPOSE_FRESHNESS);
      sifted := result.value;
      ghost var remaining := positions;
      assert Sifted(old(positions), remaining, now - PROPOSE_FRESHNESS, {});
      time := Decide(votes);
      assert positions == remaining;
      NewProposalExactly(p, result.value.books.txns, time, now, closeResolution);
    }

    /** The votes on the close time and on the disputes, and what follows for our position. */
    method Decide(votes: map<nat, nat>) returns (ghost chosen: nat)
      requires Valid() && result.Some? && CloseTime.Counts(votes, Ballots(positions, closeResolution))
      modifies `result, `acquired, `haveCloseTimeConsensus
      ensures Valid() && result.Some?
      ensures chosen in Elected(positions, closeResolution, mode == Proposing, old(result).value.position,
                convergePercent, haveCloseTimeConsensus)
      ensures Repositioned(old(result).value, old(acquired), result.value, acquired, convergePercent, mode == Proposing,
                chosen, now, closeResolution)
    {
      var time := VoteOnCloseTime(votes);
      Adopt(time);
      chosen := time;
    }

    method Adopt(time: nat)
      requires Valid() && result.Some?
      modifies `result, `acquired
      ensures Valid() && result.Some?
      ensures Repositioned(old(result).value, old(acquired), result.value, acquired, convergePercent, mode == Proposing,
                time, now, closeResolution)
    {
      var r, known := Reposition(result.value, convergePercent, mode == Proposing, time, now, closeResolution,
        positions, acquired);
      result, acquired := Some(r), known;
    }

    method VoteOnCloseTime(votes: map<nat, nat>) returns (time: nat)
      requires Valid() && result.Some? && CloseTime.Counts(votes, Ballots(positions, closeResolution))
      modifies `haveCloseTimeConsensus
      ensures Valid() && time in Elected(positions, closeResolution, mode == Proposing, result.value.position,
                                         convergePercent, haveCloseTimeConsensus)
    {
      var have;
      time, have := AgreeOnCloseTime(votes, positions, closeResolution, mode == Proposing, result.value.position,
        convergePercent);
      haveCloseTimeConsensus := have;
    }

    /** What checkConsensus says of the peers at our set, from the numbers of the former round. */
    ghost function StateOf(proposers: nat, finished: nat, roundTime: int): Thresholds.State
      reads this
      requires result.Some?
    {
      Thresholds.CheckConsensus(proposers, |Sets(positions).Keys|,
        |Thresholds.At(positions.Keys, Sets(positions), result.value.books.txns)|, finished, roundTime,
        result.value.roundTime, mode == Proposing)
    }

    /** haveConsensus */
    method HaveConsensus(finished: nat) returns (have: bool)
      requires Valid() && result.Some?
      modifies `result
      ensures Valid() && result.Some? && result == Some(old(result).value.(state := result.value.state))
      ensures result.value.state == StateOf(prevProposers, finished, prevRoundTime)
      ensures have <==> result.value.state != Thresholds.No
    {
      assert Sets(positions).Keys == positions.Keys;
      var agree, disagree := Thresholds.CountAgreement(Sets(positions), result.value.position.position);
      var state := Thresholds.CheckConsensus(prevProposers, agree + disagree, agree, finished, prevRoundTime,
        result.value.roundTime, mode == Proposing);
      result := Some(result.value.(state := state));
      have := state != Thresholds.No;
    }

    /** What phaseEstablish does once there was time enough: our votes and position are updated as in
        updateOurPositions, and the round is accepted exactly when, without a pause, the peers at our set give
        consensus on the set and the ballots give it on the close time. */
    ghost predicate Established(before: Result, was: map<Node, Proposal>, known: set<TxSet>, pause: bool, finished: nat,
                                prevProposers: nat, prevRoundTime: int, time: nat, sifted: Result)
      reads this
    {
      && closeResolution > 0 && result.Some?
      && Updated(before, was, known, result.value.(state := before.state), positions, acquired, now, mode == Proposing,
                 convergePercent, closeResolution, haveCloseTimeConsensus, time, sifted)
      && result.value.state == (if pause then before.state else StateOf(prevProposers, finished, prevRoundTime))
      && phase == if !pause && result.value.state != Thresholds.No && haveCloseTimeConsensus then Accepted
                  else Establish
    }

    /** phaseEstablish */
    method PhaseEstablish(roundTime: nat, pause: bool, finished: nat) returns (ghost time: nat, ghost sifted: Result)
      requires Valid() && phase == Establish
      modifies `phase, `positions, `result, `acquired, `haveCloseTimeConsensus, `convergePercent, `prevProposers,
               `prevRoundTime
      ensures Valid() && phase != Open
      ensures convergePercent == roundTime * 100 / if old(prevRoundTime) < 5000 then 5000 else old(prevRoundTime)
      ensures roundTime < 1950 ==> phase == Establish && SameBooks(old(result), result) && positions == old(positions)
      ensures roundTime >= 1950 ==>
                Established(old(result).value.(roundTime := roundTime, proposers := |old(positions)|), old(positions),
                  old(acquired), pause, finished, old(prevProposers), old(prevRoundTime), time, sifted)
      ensures phase == Accepted ==> prevProposers == |positions| && prevRoundTime == roundTime
      ensures phase == Accepted ==>
                && !pause && result.Some? && result.value.roundTime == roundTime
                && result.value.state == StateOf(old(prevProposers), finished, old(prevRoundTime)) != Thresholds.No
                && time in Elected(positions, closeResolution, mode == Proposing, old(result).value.position,
                     convergePercent, true)
    {
      time := 0;
      assert result.Some?;
      result := Some(result.value.(roundTime := roundTime, proposers := |positions|));
      sifted := result.value;
      convergePercent := roundTime * 100 / if prevRoundTime < MIN_CONSENSUS_TIME then MIN_CONSENSUS_TIME
        else prevRoundTime;
      if roundTime < Thresholds.MIN_CONSENSUS {
        return;
      }
      ghost var r, was, known := result.value, positions, acquired;
      time, sifted := UpdateAndTry(pause, finished);
      UpdatedTime(r, was, known, result.value.(state := r.state), positions, acquired, now, mode == Proposing,
        convergePercent, closeResolution, haveCloseTimeConsensus, time, sifted);
    }

    method UpdateAndTry(pause: bool, finished: nat) returns (ghost time: nat, ghost sifted: Result)
      requires Valid() && phase == Establish
      modifies `phase, `positions, `result, `acquired, `haveCloseTimeConsensus, `prevProposers, `prevRoundTime
      ensures Valid() && phase != Open
      ensures Established(old(result).value, old(positions), old(acquired), pause, finished, old(prevProposers),
                old(prevRoundTime), time, sifted)
      ensures phase == Accepted ==> prevProposers == |positions| && prevRoundTime == old(result).value.roundTime
    {
      time, sifted := UpdateForRound();
      ghost var mid := result.value;
      if !pause {
        TryAccept(finished);
      }
      assert result.value.(state := mid.state) == mid;
    }

    /** What phaseEstablish needs of updateOurPositions. */
    method UpdateForRound() returns (ghost time: nat, ghost sifted: Result)
      requires Valid() && result.Some?
      modifies `positions, `result, `acquired, `haveCloseTimeConsensus
      ensures Valid() && result.Some? && result.value.state == old(result).value.state
      ensures result.value.roundTime == old(result).value.roundTime
      ensures Updated(old(result).value, old(positions), old(acquired), result.value, positions, acquired, now,
                mode == Proposing, convergePercent, closeResolution, haveCloseTimeConsensus, time, sifted)
    {
      time, sifted := UpdateOurPositions();
    }

    method TryAccept(finished: nat)
      requires Valid() && phase == Establish
      modifies `phase, `result, `prevProposers, `prevRoundTime
      ensures Valid() && result.Some? && result == Some(old(result).value.(state := result.value.state))
      ensures result.value.state == StateOf(old(prevProposers), finished, old(prevRoundTime))
      ensures phase == if result.value.state != Thresholds.No && haveCloseTimeConsensus then Accepted else Establish
      ensures phase == Accepted ==> prevProposers == |positions| && prevRoundTime == result.value.roundTime
    {
      var have := HaveConsensus(finished);
      if !have || !haveCloseTimeConsensus {
        return;
      }
      prevProposers, prevRoundTime, phase := |positions|, result.value.roundTime, Accepted;
    }

    /** The end of timerEntry; close is what shouldCloseLedger answers in phaseOpen. */
    method Phase(close: bool, roundTime: nat, pause: bool, finished: nat)
      returns (ghost time: nat, ghost sifted: Result)
      requires Valid()
      modifies this
      ensures Valid() && recent == old(recent)
      ensures old(phase) == Open ==> phase == if close then Establish else Open
      ensures old(phase) == Open && close ==>
                result.value.state == Thresholds.No && acquired == old(acquired) + {result.value.books.txns}
      ensures old(phase) == Establish ==> phase != Open && result.Some?
      ensures old(phase) == Establish && roundTime < 1950 ==> phase == Establish && SameBooks(old(result), result)
      ensures old(phase) == Establish && roundTime >= 1950 ==>
                Established(old(result).value.(roundTime := roundTime, proposers := |old(positions)|), old(positions),
                  old(acquired), pause, finished, old(prevProposers), old(prevRoundTime), time, sifted)
      ensures old(phase) == Accepted ==> phase == Accepted
    {
      time, sifted := *, *;
      if phase == Open {
        if close {
          CloseLedger();
        }
      } else if phase == Establish {
        time, sifted := PhaseEstablish(roundTime, pause, finished);
      }
    }

    /** simulate: a round is accepted whose state is still No, as PhaseEstablish never accepts one. */
    method ForceAccept(time: int, delay: int)
      requires Valid() && phase == Open
      modifies this
      ensures Valid() && phase == Accepted && result.Some? && recent == old(recent)
      ensures result.value.state == Thresholds.No && result.value.proposers == |positions|
              && positions == old(positions)
      ensures result.value.roundTime == prevRoundTime == delay && prevProposers == |positions| && now == time
    {
      now := time;
      CloseLedger();
      result := Some(result.value.(roundTime := delay, proposers := |positions|));
      prevProposers, prevRoundTime, phase := |positions|, delay, Accepted;
    }

    /** One event, with simulate called only while open. */
    method Step(e: Event)
      requires Valid()
      modifies this
      ensures Valid()
      ensures e.StartRound? ==> phase == Open && prevLedgerID == e.ledgerID && now == e.time
                                && recent == old(recent) - e.nowUntrusted && PlayedBack(recent.Keys)
      ensures e.PeerProposal? ==> IsRecent(e.proposal) && recent.Keys == old(recent.Keys) + {e.proposal.node}
      ensures e.GotTxSet? ==> acquired == old(acquired) + if phase == Accepted then {} else {e.txSet}
      ensures e.CheckLedger? && phase != Accepted ==> prevLedgerID == e.netLedger && now == e.time
      ensures e.PhaseStep? && old(phase) == Open ==> phase == if e.close then Establish else Open
      ensures e.PhaseStep? && old(phase) == Establish ==>
                && result.Some?
                && (phase == Accepted <==> && e.roundTime >= 1950 && !e.pause && result.value.state != Thresholds.No
                                           && haveCloseTimeConsensus)
      ensures e.Simulate? && old(phase) == Open ==> phase == Accepted && prevRoundTime == e.delay
    {
      match e
      case StartRound(time, ledgerID, ledger, nowUntrusted, proposing, resolution) =>
        StartRound(time, ledgerID, ledger, nowUntrusted, proposing, resolution);
      case PeerProposal(time, proposal) =>
        var _ := PeerProposal(time, proposal);
        assert recent[proposal.node][|recent[proposal.node]| - 1] == proposal;
      case GotTxSet(time, txSet) =>
        GotTxSet(time, txSet);
      case CheckLedger(time, netLedger, resolution) =>
        CheckLedger(time, netLedger, resolution);
      case PhaseStep(close, roundTime, pause, finished) =>
        ghost var _, _ := Phase(close, roundTime, pause, finished);
      case Simulate(time, delay) =>
        if phase == Open {
          ForceAccept(time, delay);
        }
    }

    /** Any run of events. */
    method Run(events: seq<Event>)
      requires Valid()
      modifies this
      ensures Valid()
    {
      for i := 0 to |events|
        invariant Valid()
      {
        Step(events[i]);
      }
    }
  }

  /** What haveConsensus finds, in shares. There is time enough after 1.95 seconds, if three quarters of the former
      proposers are there or the round is that much longer than the former one. Then four fifths at our set, ourselves
      included when we propose, are consensus, and otherwise four fifths of the peers that have finished. */
  lemma StateOfExactly(c: Consensus, proposers: nat, finished: nat, roundTime: int)
    requires c.result.Some?
    ensures var n, self := |c.positions|, if c.mode == Proposing then 1 else 0;
            var agree := |set k | k in c.positions && c.positions[k].position == c.result.value.books.txns|;
            var time := c.result.value.roundTime;
            var timely := time > 1950 && (4 * n + 3 >= 3 * proposers || time >= roundTime + 1950);
            c.StateOf(proposers, finished, roundTime)
            == if timely && (n == 0 || 5 * (agree + self) >= 4 * (n + self)) then Thresholds.Yes
               else if timely && 5 * finished >= 4 * n then Thresholds.MovedOn
               else Thresholds.No
  {
    var sets, ours := Sets(c.positions), c.result.value.books.txns;
    assert sets.Keys == c.positions.Keys;
    assert Thresholds.At(c.positions.Keys, sets, ours)
        == set k | k in c.positions && c.positions[k].position == ours;
    Thresholds.StateExactly(proposers, |c.positions|, |Thresholds.At(c.positions.Keys, sets, ours)|, finished,
      roundTime, c.result.value.roundTime, c.mode == Proposing);
  }

  /** In every reachable state in which the sets of all peers are known: nobody votes against us on
      any dispute exactly when every peer proposes our set. */
  lemma PeersAgree(c: Consensus)
    requires c.Valid() && c.result.Some? && forall n :: n in c.positions ==> c.positions[n].position in c.acquired
    ensures Unanimous(c.result.value.books.disputes)
            <==> forall n :: n in c.positions ==> c.positions[n].position == c.result.value.books.txns
  {
    var settled := Settled(Sets(c.positions), c.acquired);
    assert settled.Keys == c.positions.Keys;
    Converged(c.result.value.books, settled);
    assert forall n :: n in c.positions ==> settled[n] == c.positions[n].position;
  }
}
