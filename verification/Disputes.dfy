/** The disputes of a consensus round (createDisputes, updateDisputes and the dispute part of
    updateOurPositions in Consensus.h). A transaction set is its own identifier. */
module Disputes {
  import opened DisputedTx

  type TxSet = set<Tx>

  /** Our transactions, the disputes by transaction, and the sets compared with ours so far. */
  datatype Books = Books(txns: TxSet, disputes: map<Tx, Dispute>, compares: set<TxSet>)

  /** The peers whose proposed set has been acquired, each with that set. */
  function Settled(positions: map<Node, TxSet>, acquired: set<TxSet>): map<Node, TxSet> {
    map n | n in positions && positions[n] in acquired :: positions[n]
  }

  /** Only present peers have votes, and each settled peer has its true vote. */
  ghost predicate Recorded(d: Dispute, t: Tx, present: set<Node>, settled: map<Node, TxSet>) {
    && d.Valid() && d.votes.Keys <= present
    && forall n :: n in settled ==> n in d.votes && d.votes[n] == (t in settled[n])
  }

  /** Every difference between o and our set is in dispute. */
  ghost predicate Covered(b: Books, o: TxSet) {
    forall t :: (t in o) != (t in b.txns) ==> t in b.disputes
  }

  /** The disputes match our set, the peers and the sets that were compared. */
  ghost predicate Tallied(b: Books, present: set<Node>, settled: map<Node, TxSet>) {
    && settled.Keys <= present
    && (forall t :: t in b.disputes ==>
          b.disputes[t].ourVote == (t in b.txns) && Recorded(b.disputes[t], t, present, settled))
    && (forall o :: o in b.compares ==> Covered(b, o))
  }

  /** What every step keeps: moreover the sets of all settled peers were compared. */
  ghost predicate Kept(b: Books, present: set<Node>, settled: map<Node, TxSet>) {
    Tallied(b, present, settled) && forall n :: n in settled ==> settled[n] in b.compares
  }

  ghost predicate Within(settled: map<Node, TxSet>, full: map<Node, TxSet>) {
    forall n :: n in settled ==> n in full && full[n] == settled[n]
  }

  /** A dispute about t with the votes of all peers whose sets are known. */
  method OpenDispute(t: Tx, ourVote: bool, positions: map<Node, TxSet>, acquired: set<TxSet>) returns (d: Dispute)
    ensures d.Valid() && d.ourVote == ourVote && d.votes.Keys == Settled(positions, acquired).Keys
    ensures forall n :: n in d.votes ==> d.votes[n] == (t in positions[n])
  {
    d := Tally(ourVote, map[]);
    var todo := positions.Keys;
    while todo != {}
      invariant todo <= positions.Keys && d.Valid() && d.ourVote == ourVote
      invariant forall n :: n in d.votes <==> n in positions && n !in todo && positions[n] in acquired
      invariant forall n :: n in d.votes ==> d.votes[n] == (t in positions[n])
    {
      var n :| n in todo;
      if positions[n] in acquired {
        d := d.SetVote(n, t in positions[n]);
      }
      todo := todo - {n};
    }
  }

  function Differences(a: TxSet, b: TxSet): set<Tx> {
    (a - b) + (b - a)
  }

  lemma TalliedAdd(b: Books, t: Tx, d: Dispute, positions: map<Node, TxSet>, acquired: set<TxSet>,
                   settled: map<Node, TxSet>)
    requires Tallied(b, positions.Keys, settled) && Within(settled, Settled(positions, acquired)) && t !in b.disputes
    requires d.Valid() && d.ourVote == (t in b.txns) && d.votes.Keys == Settled(positions, acquired).Keys
    requires forall n :: n in d.votes ==> d.votes[n] == (t in positions[n])
    ensures Tallied(b.(disputes := b.disputes[t := d]), positions.Keys, settled)
  {
    assert Recorded(d, t, positions.Keys, settled);
    forall o | o in b.compares ensures Covered(b.(disputes := b.disputes[t := d]), o) {
      assert Covered(b, o);
    }
  }

  /** A dispute for every transaction in just one of our set and o, unless it has one. */
  method AddDisputes(b: Books, o: TxSet, positions: map<Node, TxSet>, acquired: set<TxSet>,
                     ghost settled: map<Node, TxSet>)
    returns (b': Books)
    requires Tallied(b, positions.Keys, settled) && Within(settled, Settled(positions, acquired))
    ensures Tallied(b', positions.Keys, settled) && b'.txns == b.txns && b'.compares == b.compares
    ensures b'.disputes.Keys == b.disputes.Keys + Differences(b.txns, o)
    ensures forall t :: t in b.disputes ==> b'.disputes[t] == b.disputes[t]
  {
    b' := b;
    var todo := Differences(b.txns, o);
    while todo != {}
      invariant todo <= Differences(b.txns, o)
      invariant Tallied(b', positions.Keys, settled) && b'.txns == b.txns && b'.compares == b.compares
      invariant b'.disputes.Keys == b.disputes.Keys + (Differences(b.txns, o) - todo)
      invariant forall t :: t in b.disputes ==> b'.disputes[t] == b.disputes[t]
    {
      var t :| t in todo;
      assert (t in b.txns && t !in o) || (t !in b.txns && t in o);
      if t !in b'.disputes {
        var d := OpenDispute(t, t in b.txns, positions, acquired);
        TalliedAdd(b', t, d, positions, acquired, settled);
        b' := b'.(disputes := b'.disputes[t := d]);
      }
      todo := todo - {t};
    }
  }

  /** createDisputes */
  method CreateDisputes(b: Books, o: TxSet, positions: map<Node, TxSet>, acquired: set<TxSet>,
                        ghost settled: map<Node, TxSet>)
    returns (b': Books)
    requires Tallied(b, positions.Keys, settled) && Within(settled, Settled(positions, acquired))
    ensures Tallied(b', positions.Keys, settled) && b'.txns == b.txns && b'.compares == b.compares + {o}
    ensures b'.disputes.Keys == b.disputes.Keys + if o in b.compares then {} else Differences(b.txns, o)
    ensures forall t :: t in b.disputes ==> b'.disputes[t] == b.disputes[t]
  {
    if o in b.compares {
      assert b.compares + {o} == b.compares;
      return b;
    }
    b' := AddDisputes(b, o, positions, acquired, settled);
    TalliedCompared(b', o, positions.Keys, settled);
    b' := b'.(compares := b'.compares + {o});
  }

  lemma TalliedCompared(b: Books, o: TxSet, present: set<Node>, settled: map<Node, TxSet>)
    requires Tallied(b, present, settled) && Covered(b, o)
    ensures Tallied(b.(compares := b.compares + {o}), present, settled)
  {
    var b' := b.(compares := b.compares + {o});
    forall s | s in b'.compares ensures Covered(b', s) {
      assert Covered(b, s);
    }
  }

  /** setVote on every dispute */
  function SetVotes(disputes: map<Tx, Dispute>, node: Node, o: TxSet): map<Tx, Dispute> {
    map t | t in disputes :: disputes[t].SetVote(node, t in o)
  }

  lemma RecordedVote(d: Dispute, t: Tx, node: Node, o: TxSet, present: set<Node>, settled: map<Node, TxSet>)
    requires Recorded(d, t, present, settled) && node in present && node !in settled
    ensures Recorded(d.SetVote(node, t in o), t, present, settled[node := o])
  {
  }

  lemma KeptVote(b: Books, node: Node, o: TxSet, present: set<Node>, settled: map<Node, TxSet>)
    requires Kept(b, present, settled) && node in present && node !in settled && o in b.compares
    ensures Kept(b.(disputes := SetVotes(b.disputes, node, o)), present, settled[node := o])
  {
    var b' := b.(disputes := SetVotes(b.disputes, node, o));
    forall t | t in b'.disputes ensures Recorded(b'.disputes[t], t, present, settled[node := o]) {
      RecordedVote(b.disputes[t], t, node, o, present, settled);
    }
    forall s | s in b'.compares ensures Covered(b', s) {
      assert Covered(b, s);
    }
  }

  method VoteAll(disputes: map<Tx, Dispute>, node: Node, o: TxSet) returns (done: map<Tx, Dispute>)
    ensures done == SetVotes(disputes, node, o)
  {
    done := disputes;
    var todo := disputes.Keys;
    while todo != {}
      invariant todo <= disputes.Keys == done.Keys
      invariant forall t :: t in done ==>
                  done[t] == if t in todo then disputes[t] else disputes[t].SetVote(node, t in o)
    {
      var t :| t in todo;
      done := done[t := done[t].SetVote(node, t in o)];
      todo := todo - {t};
    }
  }

  /** updateDisputes */
  method UpdateDisputes(b: Books, node: Node, o: TxSet, positions: map<Node, TxSet>, acquired: set<TxSet>,
                        ghost settled: map<Node, TxSet>)
    returns (b': Books)
    requires Kept(b, positions.Keys, settled) && Within(settled, Settled(positions, acquired))
    requires node in positions && positions[node] == o && o in acquired && node !in settled
    ensures Kept(b', positions.Keys, settled[node := o]) && b'.txns == b.txns && b'.compares == b.compares + {o}
  {
    b' := CreateDisputes(b, o, positions, acquired, settled);
    KeptVote(b', node, o, positions.Keys, settled);
    var done := VoteAll(b'.disputes, node, o);
    b' := b'.(disputes := done);
  }

  /** gotTxSet: the set o has arrived, and the peers that propose it vote. */
  method RecordArrival(b: Books, o: TxSet, positions: map<Node, TxSet>, acquired: set<TxSet>) returns (b': Books)
    requires Kept(b, positions.Keys, Settled(positions, acquired)) && o !in acquired
    ensures Kept(b', positions.Keys, Settled(positions, acquired + {o})) && b'.txns == b.txns
  {
    b' := b;
    var todo := positions.Keys;
    ghost var settled := Settled(positions, acquired);
    while todo != {}
      invariant todo <= positions.Keys && Kept(b', positions.Keys, settled) && b'.txns == b.txns
      invariant Arrived(settled, positions, acquired, o, todo)
    {
      var n :| n in todo;
      if positions[n] == o {
        b' := UpdateDisputes(b', n, o, positions, acquired + {o}, settled);
        settled := settled[n := o];
      }
      todo := todo - {n};
    }
    assert settled == Settled(positions, acquired + {o});
  }

  /** The settled peers when those in todo have not voted on o yet. */
  ghost predicate Arrived(settled: map<Node, TxSet>, positions: map<Node, TxSet>, acquired: set<TxSet>, o: TxSet,
                          todo: set<Node>)
  {
    && (forall n :: n in settled <==> n in positions && (positions[n] in acquired || (positions[n] == o && n !in todo)))
    && (forall n :: n in settled ==> settled[n] == positions[n])
  }

  /** The disputes when the ledger closes: ours is the set txns, and no votes are recorded yet. */
  method FirstDisputes(txns: TxSet, positions: map<Node, TxSet>, acquired: set<TxSet>) returns (b: Books)
    ensures Kept(b, positions.Keys, Settled(positions, acquired)) && b.txns == txns
  {
    b := Books(txns, map[], {});
    var todo := positions.Keys;
    while todo != {}
      invariant todo <= positions.Keys && Tallied(b, positions.Keys, Settled(positions, acquired)) && b.txns == txns
      invariant forall n :: n in positions && n !in todo && positions[n] in acquired ==> positions[n] in b.compares
    {
      var n :| n in todo;
      if positions[n] in acquired {
        b := CreateDisputes(b, positions[n], positions, acquired, Settled(positions, acquired));
      }
      todo := todo - {n};
    }
  }

  /** unVote on every dispute */
  function UnVotes(disputes: map<Tx, Dispute>, node: Node): map<Tx, Dispute> {
    map t | t in disputes :: disputes[t].UnVote(node)
  }

  method UnVoteAll(disputes: map<Tx, Dispute>, node: Node) returns (done: map<Tx, Dispute>)
    ensures done == UnVotes(disputes, node)
  {
    done := disputes;
    var todo := disputes.Keys;
    while todo != {}
      invariant todo <= disputes.Keys == done.Keys
      invariant forall t :: t in done ==> done[t] == if t in todo then disputes[t] else disputes[t].UnVote(node)
    {
      var t :| t in todo;
      done := done[t := done[t].UnVote(node)];
      todo := todo - {t};
    }
  }

  /** A peer that leaves takes its votes with it. */
  lemma KeptLeave(b: Books, node: Node, present: set<Node>, settled: map<Node, TxSet>)
    requires Kept(b, present, settled)
    ensures Kept(b.(disputes := UnVotes(b.disputes, node)), present - {node}, settled - {node})
  {
    var b' := b.(disputes := UnVotes(b.disputes, node));
    forall t | t in b'.disputes ensures Recorded(b'.disputes[t], t, present - {node}, settled - {node}) {
      assert Recorded(b.disputes[t], t, present, settled);
    }
    forall s | s in b'.compares ensures Covered(b', s) {
      assert Covered(b, s);
    }
  }

  /** A peer whose new set is not known yet is no longer settled, and more peers may be present. */
  lemma KeptUnsettle(b: Books, present: set<Node>, present': set<Node>, settled: map<Node, TxSet>,
                     less: map<Node, TxSet>)
    requires Kept(b, present, settled) && present <= present' && Within(less, settled)
    ensures Kept(b, present', less)
  {
    forall t | t in b.disputes ensures Recorded(b.disputes[t], t, present', less) {
      assert Recorded(b.disputes[t], t, present, settled);
    }
  }

  /** A dispute without the votes of the peers in gone. */
  ghost function Without(d: Dispute, gone: set<Node>): Dispute {
    Tally(d.ourVote, d.votes - gone)
  }

  lemma WithoutOne(d: Dispute, gone: set<Node>, node: Node)
    ensures Without(d, gone).UnVote(node) == Without(d, gone + {node})
  {
    assert d.votes - gone - {node} == d.votes - (gone + {node});
  }

  ghost function Sift(b: Books, gone: set<Node>): Books {
    b.(disputes := map t | t in b.disputes :: Without(b.disputes[t], gone))
  }

  lemma SiftNone(b: Books)
    requires forall t :: t in b.disputes ==> b.disputes[t].Valid()
    ensures Sift(b, {}) == b
  {
    forall t | t in b.disputes ensures Without(b.disputes[t], {}) == b.disputes[t] {
      assert b.disputes[t].votes - {} == b.disputes[t].votes;
    }
    assert Sift(b, {}).disputes == b.disputes;
  }

  lemma SiftOne(b: Books, gone: set<Node>, node: Node)
    ensures UnVotes(Sift(b, gone).disputes, node) == Sift(b, gone + {node}).disputes
  {
    forall t | t in b.disputes ensures Without(b.disputes[t], gone).UnVote(node)
      == Without(b.disputes[t], gone + {node}) {
      WithoutOne(b.disputes[t], gone, node);
    }
  }

  /** Our vote after updateVote on a dispute. */
  function NewVote(d: Dispute, percentTime: int, proposing: bool): Dispute {
    d.(ourVote := d.Next(percentTime, proposing))
  }

  /** The disputes after updateVote on each, and the set our votes give. */
  ghost function Revote(b: Books, percentTime: int, proposing: bool): Books {
    Books((b.txns - b.disputes.Keys) + (set t | t in b.disputes && b.disputes[t].Next(percentTime, proposing)),
          map t | t in b.disputes :: NewVote(b.disputes[t], percentTime, proposing), b.compares)
  }

  lemma KeptRevote(b: Books, percentTime: int, proposing: bool, present: set<Node>, settled: map<Node, TxSet>)
    requires Kept(b, present, settled)
    ensures Kept(Revote(b, percentTime, proposing), present, settled)
  {
    var b' := Revote(b, percentTime, proposing);
    forall t | t in b'.disputes
      ensures b'.disputes[t].ourVote == (t in b'.txns) && Recorded(b'.disputes[t], t, present, settled)
    {
      assert Recorded(b.disputes[t], t, present, settled);
    }
    forall s | s in b'.compares ensures Covered(b', s) {
      assert Covered(b, s);
    }
  }

  /** The recorded votes on t are the memberships of t in the sets of the settled peers, once all are settled. */
  lemma VotesAreSets(d: Dispute, t: Tx, settled: map<Node, TxSet>)
    requires Recorded(d, t, settled.Keys, settled)
    ensures (set n | n in d.votes && d.votes[n]) == (set n | n in settled && t in settled[n])
    ensures (set n | n in d.votes && !d.votes[n]) == (set n | n in settled && t !in settled[n])
    ensures |d.votes| == |settled|
  {
    assert d.votes.Keys == settled.Keys;
  }

  /** Our new set when the sets of all peers are known, transaction by transaction and disputed or not. Membership
      stays where no peer differs. Otherwise an observer takes the transactions that strictly more peers have than
      not, and a proposer those that more than 50, 65, 70 or 95 percent of all have, itself included. */
  lemma NewSetExactly(b: Books, settled: map<Node, TxSet>, percentTime: int, proposing: bool, t: Tx)
    requires Kept(b, settled.Keys, settled)
    ensures var yes, no := set n | n in settled && t in settled[n], set n | n in settled && t !in settled[n];
            var against, own := if t in b.txns then no else yes, if t in b.txns then 1 else 0;
            var p := if percentTime < 0 then percentTime + 0x1_0000_0000_0000_0000 else percentTime;
            var needed := if p < 50 then 51 else if p < 85 then 66 else if p < 200 then 71 else 96;
            t in Revote(b, percentTime, proposing).txns <==>
            if against == {} then t in b.txns
            else if proposing then 100 * (|yes| + own) >= needed * (|settled| + 1)
            else |yes| > |no|
  {
    if t in b.disputes {
      VotesAreSets(b.disputes[t], t, settled);
      NextExactly(b.disputes[t], percentTime, proposing);
    } else {
      forall n | n in settled
        ensures (t in settled[n]) == (t in b.txns)
      {
        assert Covered(b, settled[n]);
      }
    }
  }

  /** The vote loop of updateOurPositions. The set is copied and changed only with a changed vote. */
  method UpdateVotes(b: Books, percentTime: int, proposing: bool) returns (b': Books, changed: bool)
    requires forall t :: t in b.disputes ==> b.disputes[t].ourVote == (t in b.txns)
    ensures b' == Revote(b, percentTime, proposing)
    ensures changed <==> b'.txns != b.txns
    ensures !changed ==> b' == b
  {
    b', changed := b, false;
    var todo := b.disputes.Keys;
    while todo != {}
      invariant todo <= b.disputes.Keys == b'.disputes.Keys && b'.compares == b.compares
      invariant forall t :: t in b.disputes ==>
                  b'.disputes[t] == if t in todo then b.disputes[t] else NewVote(b.disputes[t], percentTime, proposing)
      invariant forall t :: t in b'.txns <==> if t in b.disputes then b'.disputes[t].ourVote else t in b.txns
      invariant !changed ==> b' == b
      invariant changed ==> exists t :: t in b.disputes && t !in todo && (t in b'.txns) != (t in b.txns)
    {
      var t :| t in todo;
      var d := b'.disputes[t];
      var vote := d.Next(percentTime, proposing);
      if vote != d.ourVote {
        changed := true;
        b' := Books(if vote then b'.txns + {t} else b'.txns - {t}, b'.disputes[t := d.(ourVote := vote)], b'.compares);
      }
      todo := todo - {t};
    }
    assert b'.disputes == Revote(b, percentTime, proposing).disputes;
    assert b'.txns == Revote(b, percentTime, proposing).txns;
  }

  /** Nobody votes against us on any dispute. */
  ghost predicate Unanimous(disputes: map<Tx, Dispute>) {
    forall t :: t in disputes ==> if disputes[t].ourVote then disputes[t].nays == 0 else disputes[t].yays == 0
  }

  /** When the sets of all present peers are known, the disputes are unanimous exactly when every
      peer proposes our set. */
  lemma Converged(b: Books, settled: map<Node, TxSet>)
    requires Kept(b, settled.Keys, settled)
    ensures Unanimous(b.disputes) <==> forall n :: n in settled ==> settled[n] == b.txns
  {
    if Unanimous(b.disputes) {
      forall n | n in settled ensures settled[n] == b.txns {
        forall t ensures t in settled[n] <==> t in b.txns {
          assert Covered(b, settled[n]);
          if t in b.disputes {
            var d := b.disputes[t];
            assert Recorded(d, t, settled.Keys, settled);
            assert d.votes[n] != d.ourVote ==> n in Voters(d.votes, !d.ourVote);
          }
        }
      }
    } else if forall n :: n in settled ==> settled[n] == b.txns {
      forall t | t in b.disputes
        ensures if b.disputes[t].ourVote then b.disputes[t].nays == 0 else b.disputes[t].yays == 0
      {
        var d := b.disputes[t];
        assert Recorded(d, t, settled.Keys, settled);
        assert Voters(d.votes, !d.ourVote) == {};
      }
    }
  }
}
