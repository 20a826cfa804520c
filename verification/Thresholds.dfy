/** When a round has consensus (Consensus.cpp, and the count in haveConsensus of Consensus.h). */
module Thresholds {
  import opened DisputedTx
  import opened Disputes
  import opened Words
  import opened FiniteSets

  datatype State = No | MovedOn | Yes

  const MIN_CONSENSUS_PCT := 80
  // In milliseconds.
  const MIN_CONSENSUS := 1950

  function CheckConsensusReached(agreeing: nat, total: nat, countSelf: bool, minPct: nat): bool {
    if total == 0 then true
    else
      var a := if countSelf then agreeing + 1 else agreeing;
      var n := if countSelf then total + 1 else total;
      a * 100 / n >= minPct
  }

  function CheckConsensus(prevProposers: nat, currentProposers: nat, currentAgree: nat, currentFinished: nat,
                          previousAgreeTime: int, currentAgreeTime: int, proposing: bool): State {
    if currentAgreeTime <= MIN_CONSENSUS then No
    else if currentProposers < prevProposers * 3 / 4 && currentAgreeTime < previousAgreeTime + MIN_CONSENSUS then No
    else if CheckConsensusReached(currentAgree, currentProposers, proposing, MIN_CONSENSUS_PCT) then Yes
    else if CheckConsensusReached(currentFinished, currentProposers, false, MIN_CONSENSUS_PCT) then MovedOn
    else No
  }

  /** Rounding down does not matter: the threshold is met exactly when the agreeing share is. */
  lemma ReachedExactly(agreeing: nat, total: nat, countSelf: bool, minPct: nat)
    ensures var s := if countSelf then 1 else 0;
            CheckConsensusReached(agreeing, total, countSelf, minPct)
            <==> total == 0 || 100 * (agreeing + s) >= minPct * (total + s)
  {
    var s := if countSelf then 1 else 0;
    if total > 0 {
      QuotientAtLeast((agreeing + s) * 100, total + s, minPct);
    }
  }

  /** The outcome in terms of shares: at least three quarters of the former proposers or enough time,
      then four fifths at our position, or four fifths of the peers finished. */
  lemma StateExactly(prevProposers: nat, currentProposers: nat, currentAgree: nat, currentFinished: nat,
                     previousAgreeTime: int, currentAgreeTime: int, proposing: bool)
    ensures var s := if proposing then 1 else 0;
            var timely := currentAgreeTime > 1950
                          && (4 * currentProposers + 3 >= 3 * prevProposers
                              || currentAgreeTime >= previousAgreeTime + 1950);
            var agreed := currentProposers == 0 || 5 * (currentAgree + s) >= 4 * (currentProposers + s);
            var finished := 5 * currentFinished >= 4 * currentProposers;
            CheckConsensus(prevProposers, currentProposers, currentAgree, currentFinished, previousAgreeTime,
              currentAgreeTime, proposing)
            == if timely && agreed then Yes else if timely && finished then MovedOn else No
  {
    ReachedExactly(currentAgree, currentProposers, proposing, MIN_CONSENSUS_PCT);
    ReachedExactly(currentFinished, currentProposers, false, MIN_CONSENSUS_PCT);
  }

  /** The participants at position x. */
  ghost function At(u: set<Node>, pos: map<Node, TxSet>, x: TxSet): set<Node> {
    set n | n in u && n in pos && pos[n] == x
  }

  lemma AtStep(done: set<Node>, n: Node, pos: map<Node, TxSet>, x: TxSet)
    requires n !in done && n in pos
    ensures |At(done + {n}, pos, x)| == |At(done, pos, x)| + if pos[n] == x then 1 else 0
  {
    assert At(done + {n}, pos, x) == At(done, pos, x) + if pos[n] == x then {n} else {};
  }

  /** The count of haveConsensus. */
  method CountAgreement(positions: map<Node, TxSet>, ours: TxSet) returns (agree: nat, disagree: nat)
    ensures agree == |At(positions.Keys, positions, ours)| && agree + disagree == |positions.Keys|
  {
    agree, disagree := 0, 0;
    var todo := positions.Keys;
    ghost var done: set<Node> := {};
    while todo != {}
      invariant todo == positions.Keys - done && done <= positions.Keys
      invariant agree == |At(done, positions, ours)| && agree + disagree == |done|
    {
      var n :| n in todo;
      AtStep(done, n, positions, ours);
      if positions[n] == ours {
        agree := agree + 1;
      } else {
        disagree := disagree + 1;
      }
      todo, done := todo - {n}, done + {n};
    }
    assert done == positions.Keys;
  }

  /** The participants a node counts: its peers, and itself when it proposes. */
  function View(peers: set<Node>, self: Node, proposing: bool): set<Node> {
    if proposing then peers + {self} else peers
  }

  /** A node at x declares consensus on one snapshot of positions. */
  ghost predicate Declares(peers: set<Node>, self: Node, proposing: bool, pos: map<Node, TxSet>, x: TxSet,
                           prevProposers: nat, finished: nat, previousAgreeTime: int, currentAgreeTime: int)
  {
    && self !in peers && View(peers, self, proposing) <= pos.Keys && (proposing ==> pos[self] == x)
    && CheckConsensus(prevProposers, |peers|, |At(peers, pos, x)|, finished, previousAgreeTime, currentAgreeTime,
                      proposing).Yes?
  }

  /** At least four fifths of the participants of a node that declares consensus are at its position. */
  lemma DeclaredShare(peers: set<Node>, self: Node, proposing: bool, pos: map<Node, TxSet>, x: TxSet,
                      prevProposers: nat, finished: nat, previousAgreeTime: int, currentAgreeTime: int)
    requires Declares(peers, self, proposing, pos, x, prevProposers, finished, previousAgreeTime, currentAgreeTime)
    ensures var u := View(peers, self, proposing); 5 * |u - At(u, pos, x)| <= |u|
  {
    var u := View(peers, self, proposing);
    ReachedExactly(|At(peers, pos, x)|, |peers|, proposing, MIN_CONSENSUS_PCT);
    if proposing {
      assert At(u, pos, x) == At(peers, pos, x) + {self};
    }
    Remainder(At(u, pos, x), u);
    if peers == {} {
      assert u - At(u, pos, x) == {};
    }
  }

  /** Two nodes whose views overlap in more than a fifth of their sizes together cannot declare
      consensus on different positions. */
  lemma Agreement(peers1: set<Node>, self1: Node, proposing1: bool, x1: TxSet, prev1: nat, finished1: nat,
                  before1: int, time1: int,
                  peers2: set<Node>, self2: Node, proposing2: bool, x2: TxSet, prev2: nat, finished2: nat,
                  before2: int, time2: int, pos: map<Node, TxSet>)
    requires Declares(peers1, self1, proposing1, pos, x1, prev1, finished1, before1, time1)
    requires Declares(peers2, self2, proposing2, pos, x2, prev2, finished2, before2, time2)
    requires var u1, u2 := View(peers1, self1, proposing1), View(peers2, self2, proposing2);
             5 * |u1 * u2| > |u1| + |u2|
    ensures x1 == x2
  {
    var u1, u2 := View(peers1, self1, proposing1), View(peers2, self2, proposing2);
    DeclaredShare(peers1, self1, proposing1, pos, x1, prev1, finished1, before1, time1);
    DeclaredShare(peers2, self2, proposing2, pos, x2, prev2, finished2, before2, time2);
    if x1 != x2 {
      var d1, d2 := u1 - At(u1, pos, x1), u2 - At(u2, pos, x2);
      assert u1 * u2 <= d1 + d2;
      SubsetSize(u1 * u2, d1 + d2);
    }
  }

  /** The overlap cannot be any smaller: at exactly a fifth two nodes can declare consensus apart. */
  lemma OverlapTight(x1: TxSet, x2: TxSet)
    requires x1 != x2
    ensures var pos := map[1 := x1, 2 := x1, 3 := x1, 4 := x1, 5 := x2, 6 := x2, 7 := x2, 8 := x2];
            var p1, p2 := {1, 2, 3, 4, 5}, {4, 5, 6, 7, 8};
            && 5 * |p1 * p2| == |p1| + |p2|
            && Declares(p1, 9, false, pos, x1, 0, 0, 0, 2000) && Declares(p2, 9, false, pos, x2, 0, 0, 0, 2000)
  {
    var pos := map[1 := x1, 2 := x1, 3 := x1, 4 := x1, 5 := x2, 6 := x2, 7 := x2, 8 := x2];
    var p1, p2 := {1, 2, 3, 4, 5}, {4, 5, 6, 7, 8};
    assert p1 * p2 == {4, 5};
    assert At(p1, pos, x1) == {1, 2, 3, 4} && At(p2, pos, x2) == {5, 6, 7, 8};
  }
}
