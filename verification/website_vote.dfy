/**
 The vote reward ledger: every website vote is recorded, credits the voter's
 profile, and every sixtieth vote of a user also mints a premium donation
 key. The thank-you direct message is best effort: whether it reaches the
 user never changes what was recorded.

 The database is an in-memory ledger; money, a floating-point column in the
 source, is a whole number here, and the key's value is kept in cents.
 */
module WebsiteVotes {
  import opened Base

  /** Amount credited per vote. */
  const VoteReward: int := 500

  /** A key is minted on every vote whose count is a multiple of this. */
  const VotesPerKey: nat := 60

  /** The value of a minted key (59.99), in cents. */
  const KeyValueCents: int := 5999

  datatype BotVote = BotVote(userId: int, websiteSource: string, votedAt: int)

  datatype DonationKey = DonationKey(userId: int, expiresAt: int, valueCents: int)

  /** The three tables the vote touches; `money` holds one balance per
      existing profile. */
  datatype Ledger = Ledger(votes: seq<BotVote>, money: map<int, int>, keys: seq<DonationKey>)

  /** Number of recorded votes of a user. */
  function VoteCount(votes: seq<BotVote>, userId: int): nat
  {
    if |votes| == 0 then 0
    else VoteCount(votes[..|votes| - 1], userId) + (if votes[|votes| - 1].userId == userId then 1 else 0)
  }

  /** The direct message the voter receives. */
  datatype Notice = RewardNotice(voteCount: nat) | ThanksNotice(voteCount: nat)

  datatype VoteResult = VoteResult(ledger: Ledger, notice: Option<Notice>)

  /** `addVote(userId, websiteSource)` at time `now`. `userReachable` says
      whether the user could be fetched, `dmDelivered` whether sending the
      direct message succeeded; a failed send is swallowed. */
  function AddVote(l: Ledger, userId: int, websiteSource: string, now: int, oneMonthMillis: int,
                   userReachable: bool, dmDelivered: bool): (r: VoteResult)
    ensures r.ledger.votes == l.votes + [BotVote(userId, websiteSource, now)]
    ensures VoteCount(r.ledger.votes, userId) == VoteCount(l.votes, userId) + 1
    ensures r.ledger.money.Keys == l.money.Keys
    ensures userId in l.money ==> r.ledger.money[userId] == l.money[userId] + VoteReward
    ensures forall p :: p in l.money && p != userId ==> r.ledger.money[p] == l.money[p]
    ensures VoteCount(r.ledger.votes, userId) % VotesPerKey == 0 ==>
              r.ledger.keys == l.keys + [DonationKey(userId, now + oneMonthMillis, KeyValueCents)]
    ensures VoteCount(r.ledger.votes, userId) % VotesPerKey != 0 ==> r.ledger.keys == l.keys
    ensures r.notice.Some? <==> userReachable && dmDelivered
    ensures r.notice.Some? ==> r.notice.value.voteCount == VoteCount(r.ledger.votes, userId)
    ensures r.notice.Some? ==> (r.notice.value.RewardNotice? <==> VoteCount(r.ledger.votes, userId) % VotesPerKey == 0)
  {
    var votes := l.votes + [BotVote(userId, websiteSource, now)];
    assert votes[..|votes| - 1] == l.votes;
    var money := if userId in l.money then l.money[userId := l.money[userId] + VoteReward] else l.money;
    var voteCount := VoteCount(votes, userId);
    var rewarded := voteCount % VotesPerKey == 0;
    var keys := if rewarded then l.keys + [DonationKey(userId, now + oneMonthMillis, KeyValueCents)] else l.keys;
    var notice :=
      if !(userReachable && dmDelivered) then None
      else if rewarded then Some(RewardNotice(voteCount))
      else Some(ThanksNotice(voteCount));
    VoteResult(Ledger(votes, money, keys), notice)
  }

  /** Whatever happens to the direct message, the recorded state is the same. */
  lemma DirectMessageDoesNotChangeLedger(l: Ledger, userId: int, websiteSource: string, now: int, oneMonthMillis: int,
                                         reachable1: bool, delivered1: bool, reachable2: bool, delivered2: bool)
    ensures AddVote(l, userId, websiteSource, now, oneMonthMillis, reachable1, delivered1).ledger
         == AddVote(l, userId, websiteSource, now, oneMonthMillis, reachable2, delivered2).ledger
  {
  }

  /** Another user's vote leaves this user's count alone. */
  lemma OtherVotesDoNotCount(l: Ledger, voter: int, other: int, websiteSource: string, now: int, oneMonthMillis: int)
    requires voter != other
    ensures VoteCount(AddVote(l, voter, websiteSource, now, oneMonthMillis, false, false).ledger.votes, other)
         == VoteCount(l.votes, other)
  {
    var votes := l.votes + [BotVote(voter, websiteSource, now)];
    assert votes[..|votes| - 1] == l.votes;
  }

  /** A run of votes by one user, one per timestamp, none delivering a message. */
  function VoteRun(l: Ledger, userId: int, websiteSource: string, times: seq<int>, oneMonthMillis: int): Ledger
  {
    if |times| == 0 then l
    else AddVote(VoteRun(l, userId, websiteSource, times[..|times| - 1], oneMonthMillis),
                 userId, websiteSource, times[|times| - 1], oneMonthMillis, false, false).ledger
  }

  /** Counting one more vote passes a multiple of sixty exactly when the new
      count is one. */
  lemma CountStep(c: nat)
    ensures c / VotesPerKey + (if (c + 1) % VotesPerKey == 0 then 1 else 0) == (c + 1) / VotesPerKey
  {
  }

  /** One vote of the user: the count rises by one, the keys by the number of
      multiples of sixty passed, the balance by one reward. */
  lemma VoteStep(prev: Ledger, userId: int, websiteSource: string, t: int, oneMonthMillis: int)
    ensures var next := AddVote(prev, userId, websiteSource, t, oneMonthMillis, false, false).ledger;
            && VoteCount(next.votes, userId) == VoteCount(prev.votes, userId) + 1
            && |next.keys| == |prev.keys| + ((VoteCount(prev.votes, userId) + 1) / VotesPerKey - VoteCount(prev.votes, userId) / VotesPerKey)
            && next.money.Keys == prev.money.Keys
            && (userId in prev.money ==> next.money[userId] == prev.money[userId] + VoteReward)
  {
    CountStep(VoteCount(prev.votes, userId));
  }

  /** The user's count after a run of `k` of their votes rises by `k`. */
  lemma {:induction false} VoteRunCount(l: Ledger, userId: int, websiteSource: string, times: seq<int>, oneMonthMillis: int)
    ensures VoteCount(VoteRun(l, userId, websiteSource, times, oneMonthMillis).votes, userId) == VoteCount(l.votes, userId) + |times|
  {
    if |times| > 0 {
      var init := times[..|times| - 1];
      VoteRunCount(l, userId, websiteSource, init, oneMonthMillis);
      VoteStep(VoteRun(l, userId, websiteSource, init, oneMonthMillis), userId, websiteSource, times[|times| - 1], oneMonthMillis);
    }
  }

  /** A run of `k` votes credits `500 * k` and creates or removes no profile. */
  lemma {:induction false} VoteRunMoney(l: Ledger, userId: int, websiteSource: string, times: seq<int>, oneMonthMillis: int)
    ensures var l' := VoteRun(l, userId, websiteSource, times, oneMonthMillis);
            && l'.money.Keys == l.money.Keys
            && (userId in l.money ==> l'.money[userId] == l.money[userId] + VoteReward * |times|)
  {
    if |times| > 0 {
      var init := times[..|times| - 1];
      VoteRunMoney(l, userId, websiteSource, init, oneMonthMillis);
      VoteStep(VoteRun(l, userId, websiteSource, init, oneMonthMillis), userId, websiteSource, times[|times| - 1], oneMonthMillis);
      assert VoteReward * |times| == VoteReward * |init| + VoteReward;
    }
  }

  /** Keys minted by a run of `k` votes: one for every multiple of sixty the
      user's vote count passes, so a user starting from zero votes holds
      `k / 60` new keys after `k` votes. */
  lemma {:induction false} VoteRunKeys(l: Ledger, userId: int, websiteSource: string, times: seq<int>, oneMonthMillis: int)
    ensures |VoteRun(l, userId, websiteSource, times, oneMonthMillis).keys| - |l.keys|
         == (VoteCount(l.votes, userId) + |times|) / VotesPerKey - VoteCount(l.votes, userId) / VotesPerKey
  {
    if |times| > 0 {
      var init := times[..|times| - 1];
      VoteRunKeys(l, userId, websiteSource, init, oneMonthMillis);
      VoteRunCount(l, userId, websiteSource, init, oneMonthMillis);
      var prev := VoteRun(l, userId, websiteSource, init, oneMonthMillis);
      VoteStep(prev, userId, websiteSource, times[|times| - 1], oneMonthMillis);
      var c0 := VoteCount(l.votes, userId);
      assert VoteCount(prev.votes, userId) + 1 == c0 + |times|;
    }
  }

  /** All three effects of a run of `k` votes by one user together. */
  lemma VoteRunRewards(l: Ledger, userId: int, websiteSource: string, times: seq<int>, oneMonthMillis: int)
    ensures var l' := VoteRun(l, userId, websiteSource, times, oneMonthMillis);
            && VoteCount(l'.votes, userId) == VoteCount(l.votes, userId) + |times|
            && |l'.keys| - |l.keys|
               == (VoteCount(l.votes, userId) + |times|) / VotesPerKey - VoteCount(l.votes, userId) / VotesPerKey
            && l'.money.Keys == l.money.Keys
            && (userId in l.money ==> l'.money[userId] == l.money[userId] + VoteReward * |times|)
  {
    VoteRunCount(l, userId, websiteSource, times, oneMonthMillis);
    VoteRunKeys(l, userId, websiteSource, times, oneMonthMillis);
    VoteRunMoney(l, userId, websiteSource, times, oneMonthMillis);
  }
}
