/** Votes on the close time (updateOurPositions in Consensus.h, roundCloseTime in LedgerTiming.h).
    A ballot is the rounded time of one participant; our own is kept under -1. */
module CloseTime {
  import opened Words

  const CT_PCT := 75

  function RoundCloseTime(t: nat, resolution: nat): nat
    requires resolution > 0
  {
    if t == 0 then t else var u := t + resolution / 2; u - u % resolution
  }

  /** A time is rounded to the nearest multiple, upwards from midway; time 0 stays 0. */
  lemma Nearest(t: nat, resolution: nat)
    requires resolution > 0
    ensures var r := RoundCloseTime(t, resolution);
            r % resolution == 0 && 2 * (r - t) <= resolution && 2 * (t - r) < resolution
  {
    if t > 0 {
      Floor(t + resolution / 2, resolution);
    }
  }

  lemma Floor(u: nat, n: nat)
    requires n > 0
    ensures (u - u % n) % n == 0 && u - n < u - u % n <= u
  {
    ModUnique(u - u % n, 0, u / n, n);
  }

  lemma RoundTwice(t: nat, resolution: nat)
    requires resolution > 0
    ensures RoundCloseTime(RoundCloseTime(t, resolution), resolution) == RoundCloseTime(t, resolution)
  {
    var r := RoundCloseTime(t, resolution);
    Nearest(t, resolution);
    Nearest(r, resolution);
    var s := RoundCloseTime(r, resolution);
    NoneBetween(r, s, resolution);
  }

  /** Two multiples of n closer than n are equal. */
  lemma NoneBetween(r: int, s: int, n: int)
    requires n > 0 && r % n == 0 && s % n == 0 && -n < r - s < n
    ensures r == s
  {
    var k := r / n - s / n;
    assert r - s == n * k;
    assert k >= 1 ==> n * k >= n;
    assert k <= -1 ==> n * k <= -n;
  }

  function ParticipantsNeeded(participants: nat, percent: nat): nat {
    var result := (participants * percent + percent / 2) / 100;
    if result == 0 then 1 else result
  }

  /** v votes are enough exactly when one more would be above the share of the participants, with half the
      percentage added to it, and there is at least one. */
  lemma NeededExactly(v: nat, participants: nat, percent: nat)
    ensures v >= ParticipantsNeeded(participants, percent)
            <==> v >= 1 && 100 * (v + 1) > participants * percent + percent / 2
  {
  }

  ghost function For(ballots: map<int, nat>, t: nat): set<int> {
    set n | n in ballots && ballots[n] == t
  }

  /** The ballots for t are enough at the given percentage. */
  ghost predicate Enough(ballots: map<int, nat>, t: nat, percent: nat) {
    |For(ballots, t)| >= ParticipantsNeeded(|ballots|, percent)
  }

  lemma EnoughExactly(ballots: map<int, nat>, t: nat, percent: nat)
    ensures var v := |For(ballots, t)|;
            Enough(ballots, t, percent) <==> v >= 1 && 100 * (v + 1) > |ballots| * percent + percent / 2
  {
    NeededExactly(|For(ballots, t)|, |ballots|, percent);
  }

  /** Somebody voted for t. */
  ghost predicate Held(ballots: map<int, nat>, t: nat) {
    exists n :: n in ballots && ballots[n] == t
  }

  /** The votes are the sizes of the groups of equal ballots. */
  ghost predicate Counts(votes: map<nat, nat>, ballots: map<int, nat>) {
    && (forall n :: n in ballots ==> ballots[n] in votes)
    && (forall t :: t in votes ==> votes[t] == |For(ballots, t)| && Held(ballots, t))
  }

  /** The votes of the ballots. */
  ghost function VotesOf(ballots: map<int, nat>): map<nat, nat> {
    var times := set n | n in ballots :: ballots[n];
    map t | t in times :: |For(ballots, t)|
  }

  lemma CountsVotes(votes: map<nat, nat>, ballots: map<int, nat>)
    requires Counts(votes, ballots)
    ensures votes == VotesOf(ballots)
  {
    forall t: nat ensures t in votes <==> t in VotesOf(ballots) {
      if t in votes {
        var n :| n in ballots && ballots[n] == t;
      }
    }
  }

  /** ++closeTimeVotes[t] */
  function Increment(votes: map<nat, nat>, t: nat): map<nat, nat> {
    votes[t := (if t in votes then votes[t] else 0) + 1]
  }

  lemma CountsAdd(votes: map<nat, nat>, ballots: map<int, nat>, n: int, t: nat)
    requires Counts(votes, ballots) && n !in ballots
    ensures Counts(Increment(votes, t), ballots[n := t])
  {
    var after := ballots[n := t];
    assert For(after, t) == For(ballots, t) + {n};
    if t !in votes {
      assert For(ballots, t) == {} by {
        assert forall k :: k in ballots ==> ballots[k] != t;
      }
    }
    assert n in after && after[n] == t;
    forall u | u in votes && u != t ensures For(after, u) == For(ballots, u) && Held(after, u) {
      var k :| k in ballots && ballots[k] == u;
      assert k in after && after[k] == u;
    }
  }

  /** The votes for the times before n. */
  ghost function Sum(votes: map<nat, nat>, n: nat): nat {
    if n == 0 then 0 else Sum(votes, n - 1) + if n - 1 in votes then votes[n - 1] else 0
  }

  ghost function Before(ballots: map<int, nat>, n: nat): set<int> {
    set k | k in ballots && ballots[k] < n
  }

  lemma {:induction false} SumBefore(votes: map<nat, nat>, ballots: map<int, nat>, n: nat)
    requires Counts(votes, ballots)
    ensures Sum(votes, n) == |Before(ballots, n)|
  {
    if n > 0 {
      SumBefore(votes, ballots, n - 1);
      assert Before(ballots, n) == Before(ballots, n - 1) + For(ballots, n - 1);
      assert Before(ballots, n - 1) !! For(ballots, n - 1);
      if n - 1 !in votes {
        assert For(ballots, n - 1) == {} by {
          assert forall k :: k in ballots ==> ballots[k] in votes;
        }
      }
    }
  }

  /** Every participant has one vote. */
  lemma SumAll(votes: map<nat, nat>, ballots: map<int, nat>, n: nat)
    requires Counts(votes, ballots) && forall t :: t in votes ==> t < n
    ensures Sum(votes, n) == |ballots|
  {
    SumBefore(votes, ballots, n);
    assert forall k :: k in ballots ==> ballots[k] in votes;
    assert Before(ballots, n) == ballots.Keys;
  }

  /** With any number of participants but two, at most one time has the votes for consensus. */
  lemma OnlyOne(ballots: map<int, nat>, t1: nat, t2: nat)
    requires |ballots| != 2 && t1 != t2
    requires |For(ballots, t1)| >= ParticipantsNeeded(|ballots|, CT_PCT)
    ensures |For(ballots, t2)| < ParticipantsNeeded(|ballots|, CT_PCT)
  {
    var a, b := For(ballots, t1), For(ballots, t2);
    assert a !! b && a + b <= ballots.Keys;
    var rest := ballots.Keys - (a + b);
    assert ballots.Keys == a + b + rest;
    assert |a + b| == |a| + |b|;
  }

  /** With two participants each of two times can have them. */
  lemma TwoParticipants(t1: nat, t2: nat)
    requires t1 != t2
    ensures var ballots := map[0 := t1, 1 := t2];
            && |For(ballots, t1)| >= ParticipantsNeeded(|ballots|, CT_PCT)
            && |For(ballots, t2)| >= ParticipantsNeeded(|ballots|, CT_PCT)
  {
    var ballots := map[0 := t1, 1 := t2];
    assert For(ballots, t1) == {0} && For(ballots, t2) == {1};
  }

  lemma {:induction false} Least(s: set<nat>) returns (m: nat)
    requires s != {}
    ensures m in s && forall x :: x in s ==> m <= x
  {
    m :| m in s;
    if s != {m} {
      var r := Least(s - {m});
      assert s == (s - {m}) + {m};
      if r < m {
        m := r;
      }
    }
  }

  /** The latest of the times in keys with the most votes. */
  ghost predicate Winner(votes: map<nat, nat>, keys: set<nat>, t: nat)
    requires keys <= votes.Keys
  {
    t in keys && forall u :: u in keys ==> votes[u] < votes[t] || (votes[u] == votes[t] && u <= t)
  }

  /** What the loop knows after the times in keys. */
  ghost predicate Chosen(votes: map<nat, nat>, keys: set<nat>, threshVote: nat, threshConsensus: nat, time: nat,
                         have: bool)
    requires keys <= votes.Keys
  {
    if exists t :: t in keys && votes[t] >= threshVote then
      Winner(votes, keys, time) && votes[time] >= threshVote && (have <==> votes[time] >= threshConsensus)
    else
      time == 0 && !have
  }

  /** No time has more ballots than t, and none later as many. */
  ghost predicate Leads(ballots: map<int, nat>, t: nat) {
    forall u: nat :: |For(ballots, u)| <= |For(ballots, t)| && (u > t ==> |For(ballots, u)| < |For(ballots, t)|)
  }

  lemma VotesAt(ballots: map<int, nat>, t: nat)
    ensures if t in VotesOf(ballots) then VotesOf(ballots)[t] == |For(ballots, t)| > 0 else |For(ballots, t)| == 0
  {
    if t in VotesOf(ballots) {
      var n :| n in ballots && ballots[n] == t;
      assert n in For(ballots, t);
    } else {
      assert forall n :: n in ballots ==> ballots[n] in VotesOf(ballots);
      assert For(ballots, t) == {};
    }
  }

  /** The choice in terms of the ballots. */
  lemma ChosenExactly(ballots: map<int, nat>, percent: nat, time: nat, have: bool)
    ensures var votes := VotesOf(ballots);
            Chosen(votes, votes.Keys, ParticipantsNeeded(|ballots|, percent), ParticipantsNeeded(|ballots|, CT_PCT),
              time, have)
            <==>
            if exists t :: Enough(ballots, t, percent) then
              Enough(ballots, time, percent) && Leads(ballots, time) && (have <==> Enough(ballots, time, 75))
            else time == 0 && !have
  {
    var votes := VotesOf(ballots);
    forall t: nat
      ensures if t in votes then votes[t] == |For(ballots, t)| > 0 else |For(ballots, t)| == 0
      ensures Enough(ballots, t, percent) <==> t in votes && votes[t] >= ParticipantsNeeded(|ballots|, percent)
    {
      VotesAt(ballots, t);
      EnoughExactly(ballots, t, percent);
    }
    WinnerLeads(ballots, time);
  }

  lemma WinnerLeads(ballots: map<int, nat>, t: nat)
    ensures Winner(VotesOf(ballots), VotesOf(ballots).Keys, t) <==> t in VotesOf(ballots) && Leads(ballots, t)
  {
    forall u: nat
      ensures if u in VotesOf(ballots) then VotesOf(ballots)[u] == |For(ballots, u)| > 0 else |For(ballots, u)| == 0
    {
      VotesAt(ballots, u);
    }
  }

  /** The loop over closeTimeVotes, in order of time. */
  method Choose(votes: map<nat, nat>, threshVote: nat, threshConsensus: nat) returns (time: nat, have: bool)
    ensures Chosen(votes, votes.Keys, threshVote, threshConsensus, time, have)
  {
    time, have := 0, false;
    var todo, bar := votes.Keys, threshVote;
    while todo != {}
      invariant todo <= votes.Keys && forall u, t :: u in votes && u !in todo && t in todo ==> u < t
      invariant Chosen(votes, votes.Keys - todo, threshVote, threshConsensus, time, have)
      invariant bar == if exists t :: t in votes.Keys - todo && votes[t] >= threshVote then votes[time] else threshVote
    {
      ghost var m := Least(todo);
      var t: nat :| t in todo && forall u :: u in todo ==> t <= u;
      var v := votes[t];
      if v >= bar {
        time, bar := t, v;
        if bar >= threshConsensus {
          have := true;
        }
      }
      todo := todo - {t};
    }
    assert votes.Keys - todo == votes.Keys;
  }
}
