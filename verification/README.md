# Loritta decision rules in Dafny

This project models the small, deterministic decision rules inside the Loritta
Discord bot and proves properties about them. Discord, Lavalink, the database
and HTTP are all replaced by plain inputs: snapshots, maps, booleans and oracle
functions. Each rule becomes a pure function, or a short method where the
source loops.

- `base.dfy` (`Base`): the Kotlin vocabulary the rules rely on.
  - `Option`, which stands for nullable values.
  - `split`, which keeps empty pieces, and `joinToString`.
  - `replace` of a character, ASCII `lowercase`, literal `replaceFirst`.
  - Decimal rendering of integers, and `firstOrNull`.
- `command_context.dfy` (`CommandContext`): the Discord command context.
  - Reply composition, the empty-body rule and send routing.
  - The help output's label, examples heading and alias list.
  - The fixed priority orders that resolve a user, an image or a role from an argument.
- `audio_manager.dfy` (`AudioManager`): music queue admission.
  - The per-guild manager registry.
  - The queue cap and the override.
  - The playlist rule and the maximum-duration text.
  - Loading with and without feedback.
  - The voice-channel check.
- `website_vote.dfy` (`WebsiteVotes`): the vote ledger.
  - Each vote is recorded and credits 500.
  - Every 60th vote mints a donation key.
- `sponsors.dfy` (`Sponsors`): the weekly sponsored-servers broadcast.
  - When it fires and how long it sleeps.
  - The order of the messages it sends.
- `extras_viewer.dfy` (`ExtrasViewer`): the website's extras pages.
  - Extracting and sanitising the page name.
  - The 404 decision.
  - The two HTML tables.
- `ping_ayaya.dfy` (`PingAyaya`): the `ping ayaya` message.
- `cached_users.dfy` (`CachedUsers`): the cache-aside Discord user lookup.
- `meme_maker.dfy` (`MemeMaker`): the meme-maker request sent to the image server.

The voice-channel check follows the code, which differs from a plain reading of
it as "passes iff the member is in the configured music channel". The source
compares the member's channel id with the configured id when both may be null.
A member without any voice state therefore passes when no music channel is
configured (`CheckVoiceChannelState` states both cases).

The examples heading in the help output takes its plural `s` when the example
count is not one. A command without examples never reaches that branch: it
shows the bare label under the singular heading. So the `s` appears exactly
when there are two or more examples.

## Model

Paths are relative to the repository root. `DiscordCommandContext.kt` is
`loritta-core/src/main/java/net/perfectdreams/loritta/platform/discord/entities/DiscordCommandContext.kt`,
and likewise for the other files in the table.

| member | source | states |
|---|---|---|
| CommandContext.ReplyText | loritta-core/src/main/java/net/perfectdreams/loritta/platform/discord/entities/DiscordCommandContext.kt:96-103 | The reply begins with `prefix **\|** ` exactly when a prefix is given, otherwise with the mention. It ends with the message, and its length is the sum of the three parts. |
| CommandContext.ReplyPrefixDecomposes | loritta-core/src/main/java/net/perfectdreams/loritta/platform/discord/entities/DiscordCommandContext.kt:96-103 | A prefixed reply is the unprefixed reply placed behind `prefix **\|** `. |
| CommandContext.MultiReplyText | loritta-core/src/main/java/net/perfectdreams/loritta/platform/discord/entities/DiscordCommandContext.kt:109-120 | The text is non-empty iff the leading mention is requested and enabled, or there is at least one reply. A non-empty text ends with a line break. |
| CommandContext.MultiReplyLines | loritta-core/src/main/java/net/perfectdreams/loritta/platform/discord/entities/DiscordCommandContext.kt:109-120 | Splitting the text on line breaks gives, in order: the mention line iff `mentionUserBeforeReplies && mentionOnCommandOutput`, every reply, and one empty remainder. So every reply is followed by `\n`. |
| CommandContext.MessageBody | loritta-core/src/main/java/net/perfectdreams/loritta/platform/discord/entities/DiscordCommandContext.kt:130-132 | An empty text becomes `" "`. Every other text is unchanged. The result is never empty. |
| CommandContext.SendMessage | loritta-core/src/main/java/net/perfectdreams/loritta/platform/discord/entities/DiscordCommandContext.kt:142-164 | There are three routes, each stated as an iff. Private output goes by direct message. Otherwise the message goes to the channel iff the channel is private or the bot can talk there, and deletion is scheduled with `deleteMessagesAfter`. Otherwise the send fails. Any delivered body is the empty-body rule applied to the text. |
| CommandContext.ReplyDeliveredBody | loritta-core/src/main/java/net/perfectdreams/loritta/platform/discord/entities/DiscordCommandContext.kt:96-103 | A delivered reply with a non-empty message carries the composed reply text unchanged. |
| CommandContext.CommandLabel | loritta-core/src/main/java/net/perfectdreams/loritta/platform/discord/entities/DiscordCommandContext.kt:295-301 | The label contains no space and no upper-case letter. |
| CommandContext.LabelOfBareCommand | loritta-core/src/main/java/net/perfectdreams/loritta/platform/discord/entities/DiscordCommandContext.kt:295-301 | A message without spaces is its own label, lower-cased. |
| CommandContext.LabelOfPlainInvocation | loritta-core/src/main/java/net/perfectdreams/loritta/platform/discord/entities/DiscordCommandContext.kt:295-301 | `cmd args`, where `cmd` is not the bot's mention, is labelled `cmd`, lower-cased. |
| CommandContext.LabelOfMentionInvocation | loritta-core/src/main/java/net/perfectdreams/loritta/platform/discord/entities/DiscordCommandContext.kt:295-301 | `<@id> cmd args` and `<@!id> cmd args` are labelled by the second token, lower-cased. |
| CommandContext.LabelOfSecondToken | loritta-core/src/main/java/net/perfectdreams/loritta/platform/discord/entities/DiscordCommandContext.kt:295-301 | Whenever the first space-separated token is the bot's mention, the label is the second token, lower-cased. |
| CommandContext.ExampleLines | loritta-core/src/main/java/net/perfectdreams/loritta/platform/discord/entities/DiscordCommandContext.kt:330-333 | There is one line per example, in order. Each line is the label followed by the example in backticks, or just the label when the example is empty. |
| CommandContext.ExamplesField | loritta-core/src/main/java/net/perfectdreams/loritta/platform/discord/entities/DiscordCommandContext.kt:330-351 | Without examples the field shows the bare label under the singular heading. Otherwise it shows one line per example. The heading ends in `s` iff there are two or more examples. |
| CommandContext.Distinct | loritta-core/src/main/java/net/perfectdreams/loritta/platform/discord/entities/DiscordCommandContext.kt:368-369 | The labels as a set: the same members as the input, no duplicates, listed in the order of their first occurrence (insertion order of a `LinkedHashSet`). |
| CommandContext.UnusedAliases | loritta-core/src/main/java/net/perfectdreams/loritta/platform/discord/entities/DiscordCommandContext.kt:368-375 | An alias is listed iff it is a label of the command other than the typed label with its first prefix occurrence removed. No alias is listed twice, and the aliases keep the order in which the labels are declared. |
| CommandContext.PrefixedLabelHidesItsAlias | loritta-core/src/main/java/net/perfectdreams/loritta/platform/discord/entities/DiscordCommandContext.kt:371 | For a label typed as `prefix + alias`, exactly that alias is hidden and every other label is listed. |
| CommandContext.QuoteAliases | loritta-core/src/main/java/net/perfectdreams/loritta/platform/discord/entities/DiscordCommandContext.kt:375 | Each alias is shown as `` `prefix + alias` ``, in order. |
| CommandContext.ResolveUser | loritta-core/src/main/java/net/perfectdreams/loritta/platform/discord/entities/DiscordCommandContext.kt:449-503 | A matching mention (with `!` removed) wins over every other stage. In a guild channel with a non-empty argument and no mention match, the answer is the first of tag, effective name, user name and id lookup that finds someone. Outside a guild, in a private channel or for an empty argument, only the id lookup follows the mention stage. No result means every applicable stage failed. |
| CommandContext.ResolveUserIsFirstFound | loritta-core/src/main/java/net/perfectdreams/loritta/platform/discord/entities/DiscordCommandContext.kt:449-503 | The resolver equals "first found" over the stage list mention, tag, effective name, user name, id; the middle three are present only in a guild channel for a non-empty argument. |
| CommandContext.GetUserAt | loritta-core/src/main/java/net/perfectdreams/loritta/platform/discord/entities/DiscordCommandContext.kt:447-504 | An index past the arguments gives null. Otherwise the result is the resolution of that argument. |
| CommandContext.GetUser | loritta-core/src/main/java/net/perfectdreams/loritta/platform/discord/entities/DiscordCommandContext.kt:513-569 | A null link gives null. Otherwise the result is the same five-stage resolution. |
| CommandContext.MentionResolves | loritta-core/src/main/java/net/perfectdreams/loritta/platform/discord/entities/DiscordCommandContext.kt:452-458 | A mentioned user is found by both `<@id>` and `<@!id>`. |
| CommandContext.MentionInjective | loritta-core/src/main/java/net/perfectdreams/loritta/platform/discord/entities/DiscordCommandContext.kt:452-458 | Two users with the same mention text have the same id, so the mention stage cannot confuse two users. |
| CommandContext.MentionRemoveBang | loritta-core/src/main/java/net/perfectdreams/loritta/platform/discord/entities/DiscordCommandContext.kt:452-458 | Removing `!` from either mention spelling `<@id>` or `<@!id>` of a user gives that user's plain mention, which is what the mention stage compares. |
| CommandContext.TagResolves | loritta-core/src/main/java/net/perfectdreams/loritta/platform/discord/entities/DiscordCommandContext.kt:462-472 | In a guild channel, `name#discriminator` finds the first member with exactly that name and discriminator; when none matches, the answer is the first of effective name, user name and id lookup that finds someone. |
| CommandContext.PrivateChannelSkipsMembers | loritta-core/src/main/java/net/perfectdreams/loritta/platform/discord/entities/DiscordCommandContext.kt:462-491 | In a private channel no member stage runs. The result is a mentioned user, else the id lookup. |
| CommandContext.ImageOf | loritta-core/src/main/java/net/perfectdreams/loritta/platform/discord/entities/DiscordCommandContext.kt:627-638 | A message's image is its first embed that has an image; with no embed image it is its first image attachment; it has none iff no embed has an image and no attachment is an image. |
| CommandContext.ImageOfIsFirstFound | loritta-core/src/main/java/net/perfectdreams/loritta/platform/discord/entities/DiscordCommandContext.kt:627-638 | A message's image is the first image found reading its embeds and then its attachments as one list. |
| CommandContext.ImageInHistory | loritta-core/src/main/java/net/perfectdreams/loritta/platform/discord/entities/DiscordCommandContext.kt:625-640 | The answer is the image of the newest message that has one; the search fails iff no retrieved message has an embed image or an image attachment. |
| CommandContext.ImageFromArgument | loritta-core/src/main/java/net/perfectdreams/loritta/platform/discord/entities/DiscordCommandContext.kt:589-619 | A valid URL is returned as it is; otherwise a resolved user gives their avatar with `?size=`; otherwise the first custom emote whose mention equals the argument ignoring case gives its image; otherwise the Twemoji answer decides. |
| CommandContext.HistoryImage | loritta-core/src/main/java/net/perfectdreams/loritta/platform/discord/entities/DiscordCommandContext.kt:621-645 | An image from the history needs `search > 0`, a guild channel, history permission and a readable history. It is the image of the newest message with one among the newest `search` messages. |
| CommandContext.GetImageUrl | loritta-core/src/main/java/net/perfectdreams/loritta/platform/discord/entities/DiscordCommandContext.kt:589-645 | A valid URL is returned unchanged. Otherwise a resolved user gives their avatar plus `?size=` and the size. When the argument itself yields an image that is the answer; otherwise the answer is the history stage's, which is empty unless the history is searched. |
| CommandContext.GetImageUrlIsFirstFound | loritta-core/src/main/java/net/perfectdreams/loritta/platform/discord/entities/DiscordCommandContext.kt:589-645 | `getImageUrl` equals "first found" over the stages URL, avatar, custom emote, Twemoji (only for a non-null argument) and then the history search. |
| CommandContext.HistoryNeedsPositiveSearch | loritta-core/src/main/java/net/perfectdreams/loritta/platform/discord/entities/DiscordCommandContext.kt:623 | With `search <= 0` the answer does not depend on the channel history. |
| CommandContext.EmoteResolves | loritta-core/src/main/java/net/perfectdreams/loritta/platform/discord/entities/DiscordCommandContext.kt:601-605 | An argument that is no URL and no user, but equals a custom emote's mention ignoring case, gives that emote's image. |
| CommandContext.ImageFor | loritta-core/src/main/java/net/perfectdreams/loritta/platform/discord/entities/DiscordCommandContext.kt:656-666 | When the link yields an image it is downloaded. Failing that, the arguments are drawn as text when there are any. With no arguments the history image is downloaded, and there is no picture when the history has none. |
| CommandContext.GetImageAt | loritta-core/src/main/java/net/perfectdreams/loritta/platform/discord/entities/DiscordCommandContext.kt:656-684 | An in-range argument that yields an image is downloaded from that URL. Otherwise, with arguments, a text image shows them joined by spaces. With no arguments the history image is downloaded, or there is no picture. |
| CommandContext.GetImage | loritta-core/src/main/java/net/perfectdreams/loritta/platform/discord/entities/DiscordCommandContext.kt:695-722 | A text that yields an image (a valid URL as it is) is downloaded from that URL. Otherwise, with arguments, a text image shows them joined by spaces. With no arguments the history image is downloaded, or there is no picture. |
| CommandContext.ArgumentsShadowHistory | loritta-core/src/main/java/net/perfectdreams/loritta/platform/discord/entities/DiscordCommandContext.kt:657-665 | With at least one argument the channel history never decides the picture. |
| CommandContext.RoleAtAsWritten | loritta-core/src/main/java/net/perfectdreams/loritta/platform/discord/entities/DiscordCommandContext.kt:731-755 | As written, a role is found iff the index is within both the arguments and the mentioned roles, and it is the mentioned role at that index. |
| CommandContext.RoleAtAsWrittenIgnoresGuildRoles | loritta-core/src/main/java/net/perfectdreams/loritta/platform/discord/entities/DiscordCommandContext.kt:738-752 | As written, the guild's roles never affect the answer. |
| CommandContext.RoleIdLookupUnreachable | loritta-core/src/main/java/net/perfectdreams/loritta/platform/discord/entities/DiscordCommandContext.kt:738-752 | Counterexample: the argument `123`, no mentions and a guild role with id `123`. As written the answer is null. The intended lookup finds the role. |
| CommandContext.RoleAt | loritta-core/src/main/java/net/perfectdreams/loritta/platform/discord/entities/DiscordCommandContext.kt:731-755 | Corrected lookup. The mentioned role at that index wins. Otherwise a valid snowflake naming a guild role gives that role. Otherwise the first role whose name matches ignoring case. An index past the arguments gives null. |
| CommandContext.RoleAtExtendsAsWritten | loritta-core/src/main/java/net/perfectdreams/loritta/platform/discord/entities/DiscordCommandContext.kt:738-748 | Wherever the written lookup answers, the corrected one answers the same. It adds only guild-role answers, and only when no role was mentioned at that index. |
| AudioManager.GetGuildAudioPlayer | loritta-core/src/main/java/com/mrpowergamerbr/loritta/audio/AudioManager.kt:60-70 | Get-or-create. A stored manager is returned with the registry unchanged. Otherwise a fresh manager is stored and returned. No other guild's entry changes. |
| AudioManager.GetGuildAudioPlayerIdempotent | loritta-core/src/main/java/com/mrpowergamerbr/loritta/audio/AudioManager.kt:60-70 | A second call for the same guild returns the manager the first call stored and changes nothing. |
| AudioManager.Play | loritta-core/src/main/java/com/mrpowergamerbr/loritta/audio/AudioManager.kt:244-263 | With override the track goes to the player and the queue is untouched. Without override it is appended iff the queue size is at most `maxTracks`. A single call never grows the queue beyond `maxTracks + 1`. |
| AudioManager.PlayAllQueues | loritta-core/src/main/java/com/mrpowergamerbr/loritta/audio/AudioManager.kt:255-262 | Playing several tracks without override appends exactly the longest prefix that fits under the cap. |
| AudioManager.PlayAllForced | loritta-core/src/main/java/com/mrpowergamerbr/loritta/audio/AudioManager.kt:255-256 | Playing several tracks with override leaves the queue alone and the player on the last track. |
| AudioManager.WithinLimitMembers | loritta-core/src/main/java/com/mrpowergamerbr/loritta/audio/AudioManager.kt:174-180 | A track is kept iff it is in the playlist and not longer than the configured maximum (when the restriction is on). |
| AudioManager.PlayTracksWithinLimit | loritta-core/src/main/java/com/mrpowergamerbr/loritta/audio/AudioManager.kt:173-183 | The loop plays exactly the tracks within the limit, and `ignored` counts the rest. |
| AudioManager.PlayPlaylist | loritta-core/src/main/java/com/mrpowergamerbr/loritta/audio/AudioManager.kt:158-191 | When playlists are disallowed and there is no override, exactly one track is played: the selected track, else `tracks[0]`. An empty playlist without a selected track fails. Otherwise every track within the limit is played, and the summary reports the playlist size. The summary variant is chosen by `ignored == 0`. |
| AudioManager.Pad2 | loritta-core/src/main/java/com/mrpowergamerbr/loritta/audio/AudioManager.kt:113 | `%02d` of a number in 0..99 is exactly two digits. |
| AudioManager.Pad2Reads | loritta-core/src/main/java/com/mrpowergamerbr/loritta/audio/AudioManager.kt:113 | Reading a `%02d` rendering back gives the number. |
| AudioManager.MaxDurationTextAsWritten | loritta-core/src/main/java/com/mrpowergamerbr/loritta/audio/AudioManager.kt:113 | The text as written is five characters, `mm:ss`, built from `(maxSeconds/60)%60` and `maxSeconds%60`. |
| AudioManager.MaxDurationTextDropsHours | loritta-core/src/main/java/com/mrpowergamerbr/loritta/audio/AudioManager.kt:113 | As written, adding an hour to the limit does not change the text. |
| AudioManager.OneHourLimitReadsZero | loritta-core/src/main/java/com/mrpowergamerbr/loritta/audio/AudioManager.kt:113 | Counterexample: a one-hour limit is announced as `00:00`. |
| AudioManager.MaxDurationText | loritta-core/src/main/java/com/mrpowergamerbr/loritta/audio/AudioManager.kt:111-116 | Corrected text: total minutes, then seconds. It agrees with the written text for every limit under an hour. |
| AudioManager.MaxDurationTextReadsBack | loritta-core/src/main/java/com/mrpowergamerbr/loritta/audio/AudioManager.kt:111-116 | The corrected text reads back as minutes × 60 + seconds = the configured limit. |
| AudioManager.LoadAndPlay | loritta-core/src/main/java/com/mrpowergamerbr/loritta/audio/AudioManager.kt:80-148 | A failed voice check sends its refusal and changes nothing. Otherwise the guild gets a manager and other guilds never change. Without override, a queue above the cap aborts the load, and the queue never ends above `maxTracks + 1`, including for a new manager. With override the queue is untouched. An untrusted URL answers `NotFound`. A track over the limit is refused with the duration text as the source prints it. A track within the limit is played and announced. A retry with a search result happens only after no match on a first attempt. A cached playlist is played again, and a loaded one is cached and played: every track within the limit with the summary when playlists are allowed or forced, otherwise the selected or first track with its announcement; an empty playlist fails and changes nothing. |
| AudioManager.LoadAdmitted | loritta-core/src/main/java/com/mrpowergamerbr/loritta/audio/AudioManager.kt:98-148 | Past the voice check and the cap, a cached playlist is played again without a retry and with the cache unchanged, as `PlayPlaylist` plays it: every track within the limit with the summary, or the selected or first track with its announcement. It fails, changing nothing, iff playlists are disallowed, there is no override and the playlist has neither a selected track nor any track. Anything else goes through the trusted-host check and the player library. Only this guild's manager changes, and the queue bound holds. |
| AudioManager.LoadFromPlayer | loritta-core/src/main/java/com/mrpowergamerbr/loritta/audio/AudioManager.kt:104-148 | An untrusted valid URL answers `NotFound` and changes nothing. A track over the limit is refused with the duration text as printed. A track within the limit is announced and played. A loaded playlist is cached, then played as `PlayPlaylist` plays it, with the same feedback. No match retries with the first search result only on a first attempt, otherwise answers `NotFound`. A load failure reports its message. |
| AudioManager.PlayAllBound | loritta-core/src/main/java/com/mrpowergamerbr/loritta/audio/AudioManager.kt:255-262 | However many tracks are played without override, the queue ends no larger than `max(size, maxTracks + 1)`. |
| AudioManager.PlaylistStep | loritta-core/src/main/java/com/mrpowergamerbr/loritta/audio/AudioManager.kt:98-101 | Playing a cached or loaded playlist touches only this guild's manager and respects the cap without override. With override it keeps the queue. When playlists are allowed or forced, the manager is `PlayAll` of the tracks within the limit and the feedback is the summary, with the ignored count when some track was over the limit. Otherwise the manager plays the selected or first track without override and announces it. An empty playlist without selection fails and changes nothing. |
| AudioManager.PickIndex | loritta-core/src/main/java/com/mrpowergamerbr/loritta/audio/AudioManager.kt:203-207 | The random pick lies in `[0, tracks.size)`. |
| AudioManager.LoadAndPlayNoFeedback | loritta-core/src/main/java/com/mrpowergamerbr/loritta/audio/AudioManager.kt:200-229 | A cached non-empty playlist reloads one of its own tracks' URIs, changing nothing but the get-or-create step; a cached empty one fails on the random range. Otherwise an untrusted valid URL, no match or a failed load leave only the get-or-create step. A loaded track is played without override on the guild's manager. A loaded playlist is cached under the URL, with the registry only get-or-created, then reloads one of its tracks, or fails on the random range when it is empty. The guild's manager exists afterwards, other guilds are unchanged, and the queue bound holds. |
| AudioManager.CheckVoiceChannelState | loritta-core/src/main/java/com/mrpowergamerbr/loritta/audio/AudioManager.kt:311-345 | Passes iff the member's channel id equals the configured music channel id. This includes the case where the member has no voice state and no channel is configured. It passes iff no reply is sent. The failure reply names the channel iff it is configured and exists. |
| AudioManager.VoiceCheckByConfiguredChannel | loritta-core/src/main/java/com/mrpowergamerbr/loritta/audio/AudioManager.kt:311-345 | With a music channel configured, the check passes iff the member is connected to exactly that channel. With none configured, it passes iff the member has no voice state, and any refusal is the invalid-channel reply. |
| WebsiteVotes.AddVote | loritta-core/src/main/java/net/perfectdreams/loritta/utils/WebsiteVoteUtils.kt:26-81 | Exactly one vote `(userId, source, now)` is appended. The voter's balance rises by 500 and no other profile changes. The count includes the new vote. A key expiring at `now + oneMonth` is minted iff the count is a multiple of 60. The direct message is sent iff the user is reachable and the send succeeds, and it carries the count. |
| WebsiteVotes.DirectMessageDoesNotChangeLedger | loritta-core/src/main/java/net/perfectdreams/loritta/utils/WebsiteVoteUtils.kt:59-79 | Whatever happens to the direct message, the recorded state is the same. |
| WebsiteVotes.OtherVotesDoNotCount | loritta-core/src/main/java/net/perfectdreams/loritta/utils/WebsiteVoteUtils.kt:43-45 | Another user's vote leaves this user's count unchanged. |
| WebsiteVotes.VoteRunCount | loritta-core/src/main/java/net/perfectdreams/loritta/utils/WebsiteVoteUtils.kt:43-45 | After `k` votes by a user, their count is `k` higher. |
| WebsiteVotes.VoteRunKeys | loritta-core/src/main/java/net/perfectdreams/loritta/utils/WebsiteVoteUtils.kt:43-57 | After `k` votes, the keys grow by the number of multiples of 60 the user's count passes, so `k / 60` keys from zero votes. |
| WebsiteVotes.VoteRunMoney | loritta-core/src/main/java/net/perfectdreams/loritta/utils/WebsiteVoteUtils.kt:35-41 | After `k` votes the user's balance grows by `500 k`, and no profile appears or disappears. |
| WebsiteVotes.VoteRunRewards | loritta-core/src/main/java/net/perfectdreams/loritta/utils/WebsiteVoteUtils.kt:35-57 | After `k` votes the count grows by `k`, the keys grow by the number of multiples of 60 passed, and the balance grows by `500 k`. |
| Sponsors.NextTrigger | loritta-plugins/quirky-stuff/src/main/kotlin/net/perfectdreams/loritta/SponsorsAdvertisement.kt:27-39 | The trigger is this week's Wednesday 17:00, or the calendar's same time seven days later iff now is strictly after it. |
| Sponsors.Sleep | loritta-plugins/quirky-stuff/src/main/kotlin/net/perfectdreams/loritta/SponsorsAdvertisement.kt:39-43 | The sleep is the target minus the clock, or none when that is negative. |
| Sponsors.TriggerWithinAWeek | loritta-plugins/quirky-stuff/src/main/kotlin/net/perfectdreams/loritta/SponsorsAdvertisement.kt:27-40 | For a Wednesday in the current week the wait is never negative, shorter than the calendar week that applies (whatever its length across a clock change), and 0 iff now is that Wednesday. |
| Sponsors.TriggerWithinAFixedWeek | loritta-plugins/quirky-stuff/src/main/kotlin/net/perfectdreams/loritta/SponsorsAdvertisement.kt:27-40 | In a week without a clock change the wait is in `[0, 7 days)`. |
| Sponsors.LinkPosts | loritta-plugins/quirky-stuff/src/main/kotlin/net/perfectdreams/loritta/SponsorsAdvertisement.kt:65-67 | One post per sponsor, with its link, in list order. |
| Sponsors.Broadcast | loritta-plugins/quirky-stuff/src/main/kotlin/net/perfectdreams/loritta/SponsorsAdvertisement.kt:50-75 | Posts are sent iff the guild exists, the channel exists and the sponsor list is non-empty. The order is the header, one post per link in order, then the footer with the `lori_rica` reaction. |
| Sponsors.BroadcastCarriesEveryLink | loritta-plugins/quirky-stuff/src/main/kotlin/net/perfectdreams/loritta/SponsorsAdvertisement.kt:65-67 | Reading the links back from a broadcast gives exactly the sponsors' links in order. |
| Sponsors.RunRound | loritta-plugins/quirky-stuff/src/main/kotlin/net/perfectdreams/loritta/SponsorsAdvertisement.kt:27-45 | A round wakes exactly at its trigger, or at once when the trigger has passed. The trigger is one of the two calendar instants and not before the first clock reading. The round then sends the broadcast. |
| Sponsors.RoundSleepsUntilTrigger | loritta-plugins/quirky-stuff/src/main/kotlin/net/perfectdreams/loritta/SponsorsAdvertisement.kt:27-45 | With clock readings that do not go backwards, a round sleeps less than one calendar week and wakes at the first Wednesday 17:00 not before `now`. |
| Sponsors.RunLoop | loritta-plugins/quirky-stuff/src/main/kotlin/net/perfectdreams/loritta/SponsorsAdvertisement.kt:26-46 | The loop runs one round per completed iteration and recomputes the trigger from fresh clock readings every time. |
| Sponsors.LoopPostCount | loritta-plugins/quirky-stuff/src/main/kotlin/net/perfectdreams/loritta/SponsorsAdvertisement.kt:26-46 | With the channel available and `k` sponsors, `n` rounds send `n (k + 2)` messages. |
| ExtrasViewer.ExtraTypeOf | loritta-core/src/main/java/com/mrpowergamerbr/loritta/website/requests/routes/page/extras/ExtrasViewerController.kt:24 | The page name exists iff the path has at least four `/`-separated segments. It is segment 3 with its dots removed, and it contains no `.` and no `/`. |
| ExtrasViewer.PageOfRequestPath | loritta-core/src/main/java/com/mrpowergamerbr/loritta/website/requests/routes/page/extras/ExtrasViewerController.kt:19-24 | The path `/{locale}/extras/{page}` names `page` with its dots removed. |
| ExtrasViewer.TemplateStaysInFolder | loritta-core/src/main/java/com/mrpowergamerbr/loritta/website/requests/routes/page/extras/ExtrasViewerController.kt:24-27 | The template looked up is always a direct child of `extras/`. |
| ExtrasViewer.CellTags | loritta-core/src/main/java/com/mrpowergamerbr/loritta/website/requests/routes/page/extras/ExtrasViewerController.kt:46-52 | One `<td>` tag per cell, in order. |
| ExtrasViewer.RowReadsBack | loritta-core/src/main/java/com/mrpowergamerbr/loritta/website/requests/routes/page/extras/ExtrasViewerController.kt:46-52 | The lines of a row are `<tr>`, one `<td>cell</td>` per cell in order, then `</tr>`. |
| ExtrasViewer.UserCells | loritta-core/src/main/java/com/mrpowergamerbr/loritta/website/requests/routes/page/extras/ExtrasViewerController.kt:40-49 | The id column and `name#discriminator`, or the raw id and `???` when the user is not found. |
| ExtrasViewer.BannedProfiles | loritta-core/src/main/java/com/mrpowergamerbr/loritta/website/requests/routes/page/extras/ExtrasViewerController.kt:30-34 | Exactly the banned profiles are selected, each as often as it occurs in the table. |
| ExtrasViewer.BannedRows | loritta-core/src/main/java/com/mrpowergamerbr/loritta/website/requests/routes/page/extras/ExtrasViewerController.kt:37-53 | One row per profile, with the user columns and the ban reason, or `???` when the reason is null. |
| ExtrasViewer.GuildColumn | loritta-core/src/main/java/com/mrpowergamerbr/loritta/website/requests/routes/page/extras/ExtrasViewerController.kt:68-72 | The guild's name, else the raw guild id, else `???` when there is no guild id. |
| ExtrasViewer.NetworkBanRows | loritta-core/src/main/java/com/mrpowergamerbr/loritta/website/requests/routes/page/extras/ExtrasViewerController.kt:59-83 | One row per entry: the user columns, the guild column, the ban type and the reason. |
| ExtrasViewer.Handle | loritta-core/src/main/java/com/mrpowergamerbr/loritta/website/requests/routes/page/extras/ExtrasViewerController.kt:23-93 | Status 404 iff there is no page name or its template does not exist. A rendered page uses `extras/{name}.html`. Table contents are set iff the page is `banned-users` or `network-bans`, and they are built from the banned profiles or the network bans respectively. |
| ExtrasViewer.OtherPagesIgnoreDatabase | loritta-core/src/main/java/com/mrpowergamerbr/loritta/website/requests/routes/page/extras/ExtrasViewerController.kt:29-87 | Any other existing page renders the same, whatever the profiles, bans, users and guilds hold: only the two named pages read the database. |
| PingAyaya.Copies | commands/src/commonMain/kotlin/net/perfectdreams/loritta/commands/misc/PingAyayaExecutor.kt:28 | `max(n, 0)` copies of `ayaya`. |
| PingAyaya.Message | commands/src/commonMain/kotlin/net/perfectdreams/loritta/commands/misc/PingAyayaExecutor.kt:24-29 | The message starts with the first part followed by `! **`, and ends with the fixed tenor URL. |
| PingAyaya.OmittedBoldCountIsOne | commands/src/commonMain/kotlin/net/perfectdreams/loritta/commands/misc/PingAyayaExecutor.kt:26 | Omitting the bold count is the same as asking for one, which is a single `ayaya`. |
| PingAyaya.ReadCountOfAyayas | commands/src/commonMain/kotlin/net/perfectdreams/loritta/commands/misc/PingAyayaExecutor.kt:28 | A part splits on spaces into exactly `max(n, 0)` words. A count of zero or less gives the empty string. |
| PingAyaya.MessageReadsBack | commands/src/commonMain/kotlin/net/perfectdreams/loritta/commands/misc/PingAyayaExecutor.kt:28 | Both counts can be read back from the message, so the total is `max(n, 0) + max(m, 0)` words. |
| CachedUsers.Upsert | discord/discord-common/src/jvmMain/kotlin/net/perfectdreams/loritta/cinnamon/platform/LorittaCinnamon.kt:53-58 | Afterwards the table holds exactly the given row for that id. No other row changes. |
| CachedUsers.UpsertIdempotent | discord/discord-common/src/jvmMain/kotlin/net/perfectdreams/loritta/cinnamon/platform/LorittaCinnamon.kt:53-58 | Upserting the same row twice is the same as upserting it once. |
| CachedUsers.GetCachedUserInfo | discord/discord-common/src/jvmMain/kotlin/net/perfectdreams/loritta/cinnamon/platform/LorittaCinnamon.kt:38-69 | A database hit is returned as it is, with no REST call and no write. A failed REST request gives null with no write. A REST user is upserted under its own id, and exactly its fields are returned. |
| CachedUsers.SecondLookupHitsCache | discord/discord-common/src/jvmMain/kotlin/net/perfectdreams/loritta/cinnamon/platform/LorittaCinnamon.kt:38-69 | After a successful fetch, asking again is a cache hit with the same answer and no REST call. |
| CachedUsers.LookupKeepsOtherRows | discord/discord-common/src/jvmMain/kotlin/net/perfectdreams/loritta/cinnamon/platform/LorittaCinnamon.kt:51-66 | A lookup adds at most one row and changes no other cached row. |
| CachedUsers.InsertOrUpdateCachedUserInfo | discord/discord-common/src/jvmMain/kotlin/net/perfectdreams/loritta/cinnamon/platform/LorittaCinnamon.kt:71-78 | The user's id, name, discriminator and avatar id are stored unchanged. The ids afterwards are the old ids plus the user's. Other rows are kept. |
| CachedUsers.StoredUserIsCacheHit | discord/discord-common/src/jvmMain/kotlin/net/perfectdreams/loritta/cinnamon/platform/LorittaCinnamon.kt:71-78 | A stored user is afterwards served from the cache with exactly those fields. |
| MemeMaker.RequestBody | commands/src/commonMain/kotlin/net/perfectdreams/loritta/commands/images/MemeMakerExecutor.kt:43-62 | `images` holds exactly `{type: "url", content: url}`. `strings` starts with line 1 and has a second entry iff line 2 is given. |
| MemeMaker.MemeRequest | commands/src/commonMain/kotlin/net/perfectdreams/loritta/commands/images/MemeMakerExecutor.kt:39-63 | The request goes to `/api/v1/images/meme-maker`, and its body reads back as exactly the image URL and the one or two lines. |
| MemeMaker.Execute | commands/src/commonMain/kotlin/net/perfectdreams/loritta/commands/images/MemeMakerExecutor.kt:34-68 | When the server answers, its image is attached as `meme_maker.png` to a reply for a request that carries exactly the inputs. When the call fails, no file is sent. |
| MemeMaker.DecodeRequestBody | commands/src/commonMain/kotlin/net/perfectdreams/loritta/commands/images/MemeMakerExecutor.kt:43-62 | A reader of the body recovers exactly the URL and the one or two lines. |
| MemeMaker.RequestBodyInjective | commands/src/commonMain/kotlin/net/perfectdreams/loritta/commands/images/MemeMakerExecutor.kt:43-62 | Different inputs give different request bodies. |

## Left out

- Discord, JDA, Kord and Lavalink calls are inputs or output values, not effects. This covers sending, direct messages, reactions, and connecting to or leaving voice channels (`connectToVoiceChannel`).
- Coroutine launching, `delay`, Caffeine expiry and the `loadItemOrdered` callbacks are concurrency and timers. Only the decision each callback makes is modelled.
- Database transactions are in-memory maps and sequences. Their atomicity is not modelled.
- Floating point: money is a whole number and the key's 59.99 is 5999 cents.
- The calendar resolutions of "this week's Wednesday 17:00" and of the same time seven calendar days later are inputs, because they depend on the locale and time zone. Across a daylight-saving change the two are not exactly `7 × 24` hours apart, and the model does not assume they are.
- `Constants.MAX_TRACKS_ON_PLAYLIST`, `Constants.ONE_MONTH_IN_MILLISECONDS` and the bot's client id are defined outside the modelled files, so they are parameters.
- Image download, the prnt.sc page scraping, `ImageIO` and the text-to-image drawing are out of scope. `GetImageAt` returns which source would be used.
- The Twemoji code-point conversion and HTTP probe are an oracle from the argument to an optional URL.
- `sendFile` uses the same routing and empty-body rule as `sendMessage`, so it is covered by `SendMessage`.
- The help embed's colours, author, description and permission fields are out of scope, as are the localized texts of every message.
- Text escaping (`stripCodeMarks`, `escapeMentions`) is out of scope.
- The literal Portuguese header and footer of the sponsors broadcast are abstract `Header` and `Footer` posts.
- `TrackScheduler.queue` is modelled as an append to the queue. What the scheduler does when nothing is playing is not part of this model.
- `ProtectedView.kt`, the Minecraft offline-UUID command, the gateway-event cache consumer and the declaration-only files are not part of this model.
- CommandContext.GetUserAt: the argument index is a natural number. A negative index makes the source throw, and that path is not modelled.
- CommandContext.RoleAt: the argument index is a natural number, for the same reason, and the guild is always present because the source dereferences it with `!!`.
- CommandContext.GetImageUrl: a `search` above the history API's per-request limit is not modelled.
- CommandContext.CommandLabel: lower-casing is ASCII only. Non-ASCII case folding is not modelled, and neither is any other use of ASCII folding in name and emote matching.
- AudioManager.Play: the `musicGuildId!!` dereference, which throws when no music channel is configured, is not modelled.
- AudioManager.PickIndex: the random generator is an input `draw`. `draw % size` stands for `nextInt(0, size)`.
- WebsiteVotes.AddVote: the vote time and the key's expiry base are two clock readings in the source. The model uses one reading `now` for both.
- ExtrasViewer.Handle: rows are rendered as if `trimIndent` removed only the template's indentation. Cells that contain line breaks, which would change that indentation, are not modelled exactly.
- Sponsors.RunLoop: the endless loop is modelled by its first `n` rounds.
- Sponsors.RunLoop: an exception from sending a message or adding the reaction (SponsorsAdvertisement.kt:63-71) propagates out of `while (true)` and ends the launched coroutine. The model follows completed rounds only and does not model that exit.
- MemeMaker.Execute: the image server client's `executeAndHandleExceptions` is not part of this model. A failed call is an absent answer, and then no file is sent; the error message its handler shows is not modelled.

## Findings

| source | as written | input that shows it | evidently intended | confidence | as-written member | corrected member |
|---|---|---|---|---|---|---|
| loritta-core/src/main/java/net/perfectdreams/loritta/platform/discord/entities/DiscordCommandContext.kt:738-752 | `mentionedRoles[argument]` is indexed inside the `try`. With fewer mentioned roles it throws, the `catch` returns null, and the id and name lookups never run. | Argument `123`, no role mentioned, and the guild has a role with id `123`: the answer is null. | Fall back to the role id, then the role name, when no role was mentioned at that index. | high (not executed) | CommandContext.RoleAtAsWritten | CommandContext.RoleAt |
| loritta-core/src/main/java/com/mrpowergamerbr/loritta/audio/AudioManager.kt:113 | The limit is shown as `(maxSeconds / 60) % 60` minutes, which drops whole hours. | `maxSeconds = 3600` is announced as `00:00`, and 3661 as `01:01`. | Show total minutes and seconds, so that the text reads back as the limit. | medium (not executed) | AudioManager.MaxDurationTextAsWritten | AudioManager.MaxDurationText |
