/**
 The weekly sponsored-servers broadcast: a loop that sleeps until the next
 Wednesday 17:00 and then posts the sponsor list to the support guild's
 advertisement channel.

 The calendar resolutions of "this week's Wednesday at 17:00:00.000" and of
 the same wall-clock time seven calendar days later are inputs (`wednesday`
 and `nextWednesday`, in epoch milliseconds); across a daylight-saving change
 the two are 7 days plus or minus an hour apart. The clock readings are
 inputs too.
 */
module Sponsors {

  const DayMillis: int := 24 * 60 * 60 * 1000
  const WeekMillis: int := 7 * DayMillis

  /** The reaction added to the last message of a broadcast. */
  const FooterReaction: string := "lori_rica:593979718919913474"

  /** When the next broadcast fires, given this week's Wednesday 17:00, the
      same time a calendar week later, and the clock reading `now`: this
      week's instant, or next week's once it has passed. */
  function NextTrigger(wednesday: int, nextWednesday: int, now: int): (target: int)
    ensures now > wednesday ==> target == nextWednesday
    ensures now <= wednesday ==> target == wednesday
  {
    if now > wednesday then nextWednesday else wednesday
  }

  /** How long the loop sleeps: the target minus a second clock reading
      `later`; a negative delay does not sleep at all. */
  function Sleep(target: int, later: int): (d: nat)
    ensures target >= later ==> d == target - later
    ensures target < later ==> d == 0
  {
    if target >= later then target - later else 0
  }

  /** For a Wednesday in the current week, the trigger is never in the past;
      it is less than one calendar week ahead (whatever that week's length in
      milliseconds) and immediate exactly when the clock shows that Wednesday. */
  lemma TriggerWithinAWeek(wednesday: int, nextWednesday: int, now: int)
    requires now - (nextWednesday - wednesday) < wednesday < now + WeekMillis
    ensures var wait := NextTrigger(wednesday, nextWednesday, now) - now;
            && 0 <= wait
            && (now > wednesday ==> wait < nextWednesday - wednesday)
            && (now <= wednesday ==> wait < WeekMillis)
            && (wait == 0 <==> now == wednesday)
  {
  }

  /** In a week without a clock change the calendar week is `WeekMillis`
      long, and the wait is below it. */
  lemma TriggerWithinAFixedWeek(wednesday: int, now: int)
    requires now - WeekMillis < wednesday < now + WeekMillis
    ensures 0 <= NextTrigger(wednesday, wednesday + WeekMillis, now) - now < WeekMillis
  {
    TriggerWithinAWeek(wednesday, wednesday + WeekMillis, now);
  }

  /* ---------------------------------------------------------------------- */
  /* The broadcast                                                           */
  /* ---------------------------------------------------------------------- */

  datatype Sponsor = Sponsor(name: string, link: string)

  /** One message sent to the channel. The header and footer are fixed
      texts; the footer carries `reaction` when one is added. */
  datatype Post = Header | SponsorLink(link: string) | Footer(reaction: string)

  /** Whether the support guild and its advertisement channel resolve, and
      the current sponsor list. */
  datatype BroadcastEnv = BroadcastEnv(guildFound: bool, channelFound: bool, sponsors: seq<Sponsor>)

  function LinkPosts(sponsors: seq<Sponsor>): (posts: seq<Post>)
    ensures |posts| == |sponsors|
    ensures forall i :: 0 <= i < |sponsors| ==> posts[i] == SponsorLink(sponsors[i].link)
  {
    if |sponsors| == 0 then [] else [SponsorLink(sponsors[0].link)] + LinkPosts(sponsors[1..])
  }

  /** `broadcastSponsoredMessage`: the posts, in sending order. */
  function Broadcast(env: BroadcastEnv): (posts: seq<Post>)
    ensures |posts| > 0 <==> env.guildFound && env.channelFound && |env.sponsors| > 0
    ensures |posts| > 0 ==> |posts| == |env.sponsors| + 2
    ensures |posts| > 0 ==> posts[0] == Header && posts[|posts| - 1] == Footer(FooterReaction)
    ensures |posts| > 0 ==> forall i :: 0 <= i < |env.sponsors| ==> posts[i + 1] == SponsorLink(env.sponsors[i].link)
  {
    if env.guildFound && env.channelFound && |env.sponsors| > 0 then
      [Header] + LinkPosts(env.sponsors) + [Footer(FooterReaction)]
    else []
  }

  /** The links a broadcast carries, read back from its posts. */
  function LinksOf(posts: seq<Post>): seq<string>
  {
    if |posts| == 0 then []
    else (if posts[0].SponsorLink? then [posts[0].link] else []) + LinksOf(posts[1..])
  }

  /** Reading the links back from a broadcast gives the sponsors' links in
      list order, with nothing added and nothing lost. */
  lemma {:induction false} BroadcastCarriesEveryLink(env: BroadcastEnv)
    requires env.guildFound && env.channelFound && |env.sponsors| > 0
    ensures |LinksOf(Broadcast(env))| == |env.sponsors|
    ensures forall i :: 0 <= i < |env.sponsors| ==> LinksOf(Broadcast(env))[i] == env.sponsors[i].link
  {
    LinksOfLinkPosts(env.sponsors);
    var posts := Broadcast(env);
    assert posts[1..] == LinkPosts(env.sponsors) + [Footer(FooterReaction)];
    LinksOfAppend(LinkPosts(env.sponsors), [Footer(FooterReaction)]);
  }

  lemma {:induction false} LinksOfLinkPosts(sponsors: seq<Sponsor>)
    ensures |LinksOf(LinkPosts(sponsors))| == |sponsors|
    ensures forall i :: 0 <= i < |sponsors| ==> LinksOf(LinkPosts(sponsors))[i] == sponsors[i].link
  {
    if |sponsors| > 0 {
      LinksOfLinkPosts(sponsors[1..]);
      var posts := LinkPosts(sponsors);
      assert posts[1..] == LinkPosts(sponsors[1..]);
    }
  }

  lemma {:induction false} LinksOfAppend(a: seq<Post>, b: seq<Post>)
    ensures LinksOf(a + b) == LinksOf(a) + LinksOf(b)
  {
    if |a| == 0 {
      assert a + b == b;
    } else {
      assert (a + b)[1..] == a[1..] + b;
      LinksOfAppend(a[1..], b);
    }
  }

  /* ---------------------------------------------------------------------- */
  /* The loop                                                                */
  /* ---------------------------------------------------------------------- */

  /** What one round of the loop sees: this week's Wednesday and the same
      time a calendar week later, as computed from the calendar, the first
      clock reading, the reading taken just before sleeping, and the
      broadcast environment when it wakes up. */
  datatype Round = Round(wednesday: int, nextWednesday: int, now: int, later: int, env: BroadcastEnv)

  /** What one round does: sleep, then broadcast. */
  datatype RoundLog = RoundLog(target: int, sleep: nat, posts: seq<Post>)

  /** One iteration of the loop: it wakes exactly at the trigger (or at once
      when the trigger already passed), the trigger is one of the two
      calendar instants and not before the first clock reading, and then it
      broadcasts. */
  function RunRound(r: Round): (log: RoundLog)
    ensures r.later <= log.target ==> r.later + log.sleep == log.target
    ensures r.later > log.target ==> log.sleep == 0
    ensures log.target == r.wednesday || log.target == r.nextWednesday
    ensures r.now <= r.nextWednesday ==> r.now <= log.target
    ensures r.wednesday != r.nextWednesday ==> (log.target == r.nextWednesday <==> r.now > r.wednesday)
    ensures log.posts == Broadcast(r.env)
  {
    var target := NextTrigger(r.wednesday, r.nextWednesday, r.now);
    RoundLog(target, Sleep(target, r.later), Broadcast(r.env))
  }

  /** With clock readings that do not go backwards and a Wednesday in the
      current week, a round sleeps for less than one calendar week and its
      sleep ends exactly at the first Wednesday 17:00 not before `now`. */
  lemma RoundSleepsUntilTrigger(r: Round)
    requires r.now <= r.later
    requires r.now - (r.nextWednesday - r.wednesday) < r.wednesday < r.now + WeekMillis
    ensures var log := RunRound(r);
            && log.sleep < (if r.now > r.wednesday then r.nextWednesday - r.wednesday else WeekMillis)
            && (r.later <= log.target ==> r.later + log.sleep == log.target)
            && log.target == (if r.now <= r.wednesday then r.wednesday else r.nextWednesday)
            && log.target >= r.now
  {
    TriggerWithinAWeek(r.wednesday, r.nextWednesday, r.now);
  }

  /** The first `|rounds|` rounds of the loop. A round that completes is
      followed by the next, which recomputes the trigger from fresh clock
      readings; a failed send ends the loop, which this model does not
      follow. */
  function RunLoop(rounds: seq<Round>): (logs: seq<RoundLog>)
    ensures |logs| == |rounds|
    ensures forall i :: 0 <= i < |rounds| ==> logs[i] == RunRound(rounds[i])
  {
    if |rounds| == 0 then [] else RunLoop(rounds[..|rounds| - 1]) + [RunRound(rounds[|rounds| - 1])]
  }

  /** Total number of messages the loop sends. */
  function PostCount(logs: seq<RoundLog>): nat
  {
    if |logs| == 0 then 0 else PostCount(logs[..|logs| - 1]) + |logs[|logs| - 1].posts|
  }

  /** With the channel available and `k` sponsors throughout, `n` rounds send
      `n * (k + 2)` messages. */
  lemma {:induction false} LoopPostCount(rounds: seq<Round>, k: nat)
    requires k > 0
    requires forall i :: 0 <= i < |rounds| ==>
               rounds[i].env.guildFound && rounds[i].env.channelFound && |rounds[i].env.sponsors| == k
    ensures PostCount(RunLoop(rounds)) == |rounds| * (k + 2)
  {
    if |rounds| > 0 {
      var init := rounds[..|rounds| - 1];
      var last := rounds[|rounds| - 1];
      assert forall i :: 0 <= i < |init| ==> init[i] == rounds[i];
      LoopPostCount(init, k);
      var prevLogs := RunLoop(init);
      var logs := prevLogs + [RunRound(last)];
      assert RunLoop(rounds) == logs;
      assert logs[..|logs| - 1] == prevLogs;
      assert |Broadcast(last.env)| == k + 2;
      assert PostCount(logs) == PostCount(prevLogs) + (k + 2);
      MulStep(|init|, |rounds|, k + 2);
    }
  }

  lemma MulStep(n: nat, total: nat, m: nat)
    requires total == n + 1
    ensures total * m == n * m + m
  {
  }
}
