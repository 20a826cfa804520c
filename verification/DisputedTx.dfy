/** A transaction in dispute and the votes on it (DisputedTx.h, ConsensusParms.h). */
module DisputedTx {
  import opened Words

  // Identifiers of peers and of transactions.
  type Node = nat
  type Tx = nat

  const INIT_PCT := 50
  const MID_TIME := 50
  const MID_PCT := 65
  const LATE_TIME := 85
  const LATE_PCT := 70
  const STUCK_TIME := 200
  const STUCK_PCT := 95

  function Voters(votes: map<Node, bool>, yes: bool): set<Node> {
    set n | n in votes && votes[n] == yes
  }

  // An int compared with a size_t is converted first.
  function Unsigned(x: int): int {
    if x < 0 then x + 0x1_0000_0000_0000_0000 else x
  }

  /** The percentage a yes needs, which rises as the round goes on. */
  function Threshold(percentTime: int): nat {
    var p := Unsigned(percentTime);
    if p < MID_TIME then INIT_PCT else if p < LATE_TIME then MID_PCT else if p < STUCK_TIME then LATE_PCT else STUCK_PCT
  }

  /** A dispute whose counts are taken from the votes. */
  function Tally(ourVote: bool, votes: map<Node, bool>): Dispute {
    Dispute(|Voters(votes, true)|, |Voters(votes, false)|, ourVote, votes)
  }

  /** The state of a dispute: cached counts, our vote, and the votes of the peers. */
  datatype Dispute = Dispute(yays: nat, nays: nat, ourVote: bool, votes: map<Node, bool>) {
    /** The cached counts are the true counts. */
    ghost predicate Valid() {
      this == Tally(ourVote, votes)
    }

    /** What setVote and unVote mean: the vote is put or removed, and all votes are counted again. */
    function SetVote(peer: Node, yes: bool): (d: Dispute)
      ensures d.Valid()
    {
      Tally(ourVote, votes[peer := yes])
    }

    function UnVote(peer: Node): (d: Dispute)
      ensures d.Valid()
    {
      Tally(ourVote, votes - {peer})
    }

    function Weight(): int {
      (yays * 100 + if ourVote then 100 else 0) / (nays + yays + 1)
    }

    /** The vote that updateVote moves to. */
    predicate Next(percentTime: int, proposing: bool) {
      if ourVote && nays == 0 then true
      else if !ourVote && yays == 0 then false
      else if proposing then Weight() > Threshold(percentTime)
      else yays > nays
    }
  }

  /** One vote set. */
  lemma VoterJoins(votes: map<Node, bool>, peer: Node, yes: bool)
    ensures |Voters(votes[peer := yes], yes)| == |Voters(votes, yes)|
            + (if peer in votes && votes[peer] == yes then 0 else 1)
  {
    var v := Voters(votes, yes);
    assert Voters(votes[peer := yes], yes) == v + {peer};
    if peer in v {
      assert v + {peer} == v;
    }
  }

  lemma VoterMoves(votes: map<Node, bool>, peer: Node, yes: bool)
    ensures |Voters(votes[peer := yes], !yes)|
            == |Voters(votes, !yes)| - (if peer in votes && votes[peer] == !yes then 1 else 0)
  {
    assert Voters(votes[peer := yes], !yes) == Voters(votes, !yes) - {peer};
  }

  lemma VoterLeaves(votes: map<Node, bool>, peer: Node, yes: bool)
    ensures |Voters(votes - {peer}, yes)|
            == |Voters(votes, yes)| - (if peer in votes && votes[peer] == yes then 1 else 0)
  {
    assert Voters(votes - {peer}, yes) == Voters(votes, yes) - {peer};
  }

  lemma VotersAll(votes: map<Node, bool>)
    ensures |Voters(votes, true)| + |Voters(votes, false)| == |votes|
  {
    assert Voters(votes, true) !! Voters(votes, false);
    assert Voters(votes, true) + Voters(votes, false) == votes.Keys;
  }

  lemma WeighedExactly(d: Dispute, p: nat)
    ensures d.Weight() > p <==> 100 * (d.yays + if d.ourVote then 1 else 0) >= (p + 1) * (d.yays + d.nays + 1)
  {
    QuotientAtLeast(d.yays * 100 + if d.ourVote then 100 else 0, d.nays + d.yays + 1, p + 1);
  }

  /** The new vote from the votes of the peers. It stays where nobody is against us. Otherwise an observer votes yes
      exactly with strictly more peers for than against, and a proposer, who counts as a voter, exactly with more
      than 50, 65, 70 or 95 percent of all voters, in whole percents. A negative percentage counts as the latest. */
  lemma NextExactly(d: Dispute, percentTime: int, proposing: bool)
    requires d.Valid()
    ensures var yes, no := set n | n in d.votes && d.votes[n], set n | n in d.votes && !d.votes[n];
            var against, own := if d.ourVote then no else yes, if d.ourVote then 1 else 0;
            var p := if percentTime < 0 then percentTime + 0x1_0000_0000_0000_0000 else percentTime;
            var needed := if p < 50 then 51 else if p < 85 then 66 else if p < 200 then 71 else 96;
            d.Next(percentTime, proposing) <==>
            if against == {} then d.ourVote
            else if proposing then 100 * (|yes| + own) >= needed * (|d.votes| + 1)
            else |yes| > |no|
  {
    var yes, no := set n | n in d.votes && d.votes[n], set n | n in d.votes && !d.votes[n];
    assert yes == Voters(d.votes, true) && no == Voters(d.votes, false);
    VotersAll(d.votes);
    WeighedExactly(d, Threshold(percentTime));
  }

  class DisputedTx {
    var yays: nat
    var nays: nat
    var ourVote: bool
    var votes: map<Node, bool>

    function State(): Dispute
      reads this
    {
      Dispute(yays, nays, ourVote, votes)
    }

    constructor (vote: bool)
      ensures State() == Tally(vote, map[])
    {
      yays, nays, ourVote, votes := 0, 0, vote, map[];
    }

    method SetVote(peer: Node, yes: bool)
      requires State().Valid()
      modifies this
      ensures State() == old(State()).SetVote(peer, yes)
    {
      VoterJoins(votes, peer, yes);
      VoterMoves(votes, peer, yes);
      assert peer in votes && votes[peer] == yes ==> votes[peer := yes] == votes;
      if peer !in votes {
        votes := votes[peer := yes];
        if yes {
          yays := yays + 1;
        } else {
          nays := nays + 1;
        }
      } else if yes && !votes[peer] {
        nays, yays, votes := nays - 1, yays + 1, votes[peer := true];
      } else if !yes && votes[peer] {
        nays, yays, votes := nays + 1, yays - 1, votes[peer := false];
      }
    }

    method UnVote(peer: Node)
      requires State().Valid()
      modifies this
      ensures State() == old(State()).UnVote(peer)
    {
      VoterLeaves(votes, peer, true);
      VoterLeaves(votes, peer, false);
      assert peer !in votes ==> votes - {peer} == votes;
      if peer in votes {
        if votes[peer] {
          yays := yays - 1;
        } else {
          nays := nays - 1;
        }
        votes := votes - {peer};
      }
    }

    method UpdateVote(percentTime: int, proposing: bool) returns (changed: bool)
      modifies this`ourVote
      ensures ourVote == old(State().Next(percentTime, proposing)) && changed == (ourVote != old(ourVote))
    {
      if ourVote && nays == 0 {
        return false;
      }
      if !ourVote && yays == 0 {
        return false;
      }
      var newPosition;
      if proposing {
        var weight := (yays * 100 + if ourVote then 100 else 0) / (nays + yays + 1);
        if Unsigned(percentTime) < MID_TIME {
          newPosition := weight > INIT_PCT;
        } else if Unsigned(percentTime) < LATE_TIME {
          newPosition := weight > MID_PCT;
        } else if Unsigned(percentTime) < STUCK_TIME {
          newPosition := weight > LATE_PCT;
        } else {
          newPosition := weight > STUCK_PCT;
        }
      } else {
        newPosition := yays > nays;
      }
      if newPosition == ourVote {
        return false;
      }
      ourVote := newPosition;
      return true;
    }
  }

  /** Our votes after each of a run of updates with unchanged peer votes. */
  function Run(d: Dispute, proposing: bool, times: seq<int>): (s: seq<bool>)
    ensures |s| == |times| + 1 && s[0] == d.ourVote
    decreases |times|
  {
    if times == [] then [d.ourVote]
    else [d.ourVote] + Run(d.(ourVote := d.Next(times[0], proposing)), proposing, times[1..])
  }

  /** The threshold never falls. */
  ghost predicate Rising(times: seq<int>) {
    forall i, j :: 0 <= i <= j < |times| ==> Threshold(times[i]) <= Threshold(times[j])
  }

  /** It does not fall while the percentage, as an unsigned number, does not fall. */
  lemma RisingTimes(times: seq<int>)
    requires forall i, j :: 0 <= i <= j < |times| ==> Unsigned(times[i]) <= Unsigned(times[j])
    ensures Rising(times)
  {
  }

  function Changes(s: seq<bool>): nat {
    if |s| <= 1 then 0 else (if s[0] != s[1] then 1 else 0) + Changes(s[1..])
  }

  lemma YesWeighsMore(d: Dispute)
    ensures d.(ourVote := false).Weight() <= d.(ourVote := true).Weight()
  {
    DivMono(d.yays * 100, d.yays * 100 + 100, d.nays + d.yays + 1);
  }

  lemma DivMono(a: int, b: int, n: int)
    requires a <= b && n > 0
    ensures a / n <= b / n
  {
    var k := a / n - b / n;
    assert n * k < n;
    assert k >= 1 ==> n * k >= n;
  }

  /** A no that a threshold forces is kept at every threshold that is not lower. */
  lemma {:induction false} StaysNo(d: Dispute, proposing: bool, t: int, times: seq<int>)
    requires !d.ourVote && !d.(ourVote := true).Next(t, proposing)
    requires proposing ==> forall i :: 0 <= i < |times| ==> Threshold(t) <= Threshold(times[i])
    ensures forall i :: 0 <= i < |Run(d, proposing, times)| ==> !Run(d, proposing, times)[i]
    decreases |times|
  {
    if times != [] {
      YesWeighsMore(d);
      assert !d.Next(times[0], proposing);
      StaysNo(d, proposing, t, times[1..]);
    }
  }

  lemma {:induction false} NoChanges(s: seq<bool>)
    requires forall i :: 0 <= i < |s| ==> !s[i]
    ensures Changes(s) == 0
  {
    if |s| > 1 {
      NoChanges(s[1..]);
    }
  }

  /** A change from yes to no is the last change. */
  ghost predicate FinalNo(s: seq<bool>) {
    forall i, j :: 0 <= i < j < |s| && s[i] && !s[i + 1] ==> !s[j]
  }

  /** With unchanged peer votes our vote does not oscillate while the threshold does not fall: it
      changes at most twice, and a change from yes to no is final. */
  lemma {:induction false} Settles(d: Dispute, proposing: bool, times: seq<int>)
    requires proposing ==> Rising(times)
    ensures var s := Run(d, proposing, times); Changes(s) <= (if d.ourVote then 1 else 2) && FinalNo(s)
    decreases |times|
  {
    if times != [] {
      var next := d.(ourVote := d.Next(times[0], proposing));
      var s, r := Run(d, proposing, times), Run(next, proposing, times[1..]);
      assert s[1..] == r && s[1] == next.ourVote;
      Settles(next, proposing, times[1..]);
      if d.ourVote && !next.ourVote {
        assert next.(ourVote := true) == d;
        StaysNo(next, proposing, times[0], times[1..]);
        NoChanges(r);
      }
      forall i, j | 0 <= i < j < |s| && s[i] && !s[i + 1] ensures !s[j] {
        assert s[j] == r[j - 1] && s[i + 1] == r[i] && (i > 0 ==> s[i] == r[i - 1]);
      }
    }
  }

  /** The votes of peers 0 to n - 1, of whom the first k say yes. */
  function FirstSayYes(k: nat, n: nat): map<Node, bool> {
    if n == 0 then map[] else FirstSayYes(k, n - 1)[n - 1 := n - 1 < k]
  }

  lemma {:induction false} FirstSayYesCounts(k: nat, n: nat)
    ensures |Voters(FirstSayYes(k, n), true)| == (if n < k then n else k)
    ensures |Voters(FirstSayYes(k, n), false)| == (if n < k then 0 else n - k)
    ensures forall p :: p in FirstSayYes(k, n) ==> p < n
  {
    if n == 0 {
      assert Voters(FirstSayYes(k, n), true) == {} && Voters(FirstSayYes(k, n), false) == {};
    } else {
      FirstSayYesCounts(k, n - 1);
      VoterJoins(FirstSayYes(k, n - 1), n - 1, n - 1 < k);
      VoterMoves(FirstSayYes(k, n - 1), n - 1, n - 1 < k);
    }
  }

  /** A dispute of 99 voters that is just decided at threshold t: yes below it, no from it on. */
  function Edge(t: nat, vote: bool): Dispute
    requires t > 0
  {
    Tally(vote, FirstSayYes(t - 1, 99))
  }

  lemma EdgeNext(t: nat, vote: bool, time: int)
    requires t in {INIT_PCT, MID_PCT, LATE_PCT, STUCK_PCT}
    ensures Edge(t, vote).Next(time, true) == (Threshold(time) < t)
  {
    FirstSayYesCounts(t - 1, 99);
    assert Edge(t, vote).Weight() == if vote then t else t - 1;
  }

  lemma {:induction false} EdgeFollows(t: nat, vote: bool, times: seq<int>, k: nat)
    requires t in {INIT_PCT, MID_PCT, LATE_PCT, STUCK_PCT} && k < |times|
    ensures Run(Edge(t, vote), true, times)[k + 1] == (Threshold(times[k]) < t)
    decreases |times|
  {
    EdgeNext(t, vote, times[0]);
    var next := Threshold(times[0]) < t;
    assert Edge(t, vote).(ourVote := next) == Edge(t, next);
    if k > 0 {
      EdgeFollows(t, next, times[1..], k - 1);
    }
  }

  /** Where the threshold falls from time i to time j, there is a dispute, with true counts, on which we change
      to no and back to yes. */
  lemma Oscillates(times: seq<int>, i: nat, j: nat)
    requires i < j < |times| && Threshold(times[i]) > Threshold(times[j])
    ensures var d := Edge(Threshold(times[i]), true); d.Valid() && !FinalNo(Run(d, true, times))
  {
    var t := Threshold(times[i]);
    var s := Run(Edge(t, true), true, times);
    EdgeFollows(t, true, times, i);
    EdgeFollows(t, true, times, j);
    var a := i;
    while !s[a]
      invariant a <= i && !s[a + 1]
      decreases a
    {
      a := a - 1;
    }
  }

  /** Proposing votes settle, for every dispute with true counts, exactly when the threshold never falls. */
  lemma SettlesExactly(times: seq<int>)
    ensures (forall d: Dispute :: d.Valid() ==> FinalNo(Run(d, true, times))) <==> Rising(times)
  {
    if Rising(times) {
      forall d: Dispute | d.Valid() ensures FinalNo(Run(d, true, times)) {
        Settles(d, true, times);
      }
    } else {
      var i, j :| 0 <= i <= j < |times| && Threshold(times[i]) > Threshold(times[j]);
      Oscillates(times, i, j);
    }
  }

  /** A percentage of -1 followed by one of 0, both proposing: yes, no, and yes again. */
  lemma NegativePercentage()
    ensures var d := Edge(STUCK_PCT, true); d.Valid() && Run(d, true, [-1, 0]) == [true, false, true]
  {
    var times := [-1, 0];
    EdgeFollows(STUCK_PCT, true, times, 0);
    EdgeFollows(STUCK_PCT, true, times, 1);
  }
}
