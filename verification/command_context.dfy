/**
 The text and lookup rules of a Discord command context: how replies are
 composed, which body is actually sent and by which route, how the help
 ("explain") output chooses the command label, examples heading and alias
 list, and the fixed priority order used to resolve a user, an image URL or
 a role from a command argument.

 JDA is replaced by snapshots: the users mentioned in the message, the
 guild's members and roles, the emotes of the message, the recent channel
 history, and oracles for the services the context calls (user lookup by
 id, URL validity, the Twemoji probe).
 */
module CommandContext {
  import opened Base

  /* ====================================================================== */
  /* Replies and sending                                                     */
  /* ====================================================================== */

  const PrefixSeparator: string := " **|** "

  /** The mention part of a single reply: the author's own mention followed by
      a space when the mention is forced, otherwise the context's configured
      mention text (which already carries its trailing space, or is empty). */
  function ReplyMention(forceMention: bool, userMention: string, contextMention: string): string
  {
    if forceMention then userMention + " " else contextMention
  }

  /** The text composed by `reply(message, prefix, forceMention)`. */
  function ReplyText(message: string, prefix: Option<string>, forceMention: bool,
                     userMention: string, contextMention: string): (r: string)
    ensures prefix.Some? ==> prefix.value + PrefixSeparator <= r
    ensures prefix.None? ==> ReplyMention(forceMention, userMention, contextMention) <= r
    ensures |message| <= |r| && r[|r| - |message|..] == message
    ensures |r| == (if prefix.Some? then |prefix.value| + |PrefixSeparator| else 0)
                   + |ReplyMention(forceMention, userMention, contextMention)| + |message|
  {
    var head := if prefix.Some? then prefix.value + PrefixSeparator else "";
    var mention := ReplyMention(forceMention, userMention, contextMention);
    assert (head + mention + message)[|head + mention|..] == message;
    head + mention + message
  }

  /** A prefixed reply is the unprefixed reply behind `prefix **|** `. */
  lemma ReplyPrefixDecomposes(message: string, prefix: string, forceMention: bool,
                              userMention: string, contextMention: string)
    ensures ReplyText(message, Some(prefix), forceMention, userMention, contextMention)
         == prefix + PrefixSeparator + ReplyText(message, None, forceMention, userMention, contextMention)
  {
  }

  /** Every line of a multi-reply message followed by a line break. */
  function Lines(xs: seq<string>): string
  {
    if |xs| == 0 then "" else xs[0] + "\n" + Lines(xs[1..])
  }

  /** The text composed by `reply(mentionUserBeforeReplies, replies...)`:
      an optional leading mention line, then each built reply on its own line.
      `mentionLine` is the text of an empty reply built in this context. */
  function MultiReplyText(mentionUserBeforeReplies: bool, mentionOnCommandOutput: bool,
                          mentionLine: string, replies: seq<string>): (r: string)
    ensures ((mentionUserBeforeReplies && mentionOnCommandOutput) || |replies| > 0) <==> |r| > 0
    ensures |r| > 0 ==> r[|r| - 1] == '\n'
  {
    var lead := if mentionUserBeforeReplies && mentionOnCommandOutput then [mentionLine] else [];
    LinesEndWithBreak(lead + replies);
    Lines(lead + replies)
  }

  lemma {:induction false} LinesEndWithBreak(xs: seq<string>)
    ensures |xs| > 0 <==> |Lines(xs)| > 0
    ensures |xs| > 0 ==> Lines(xs)[|Lines(xs)| - 1] == '\n'
  {
    if |xs| > 0 {
      LinesEndWithBreak(xs[1..]);
    }
  }

  /** `Lines` is joining with line breaks after appending one empty line. */
  lemma {:induction false} LinesIsJoin(xs: seq<string>)
    ensures Lines(xs) == Join(xs + [""], "\n")
  {
    if |xs| > 0 {
      assert (xs + [""])[1..] == xs[1..] + [""];
      LinesIsJoin(xs[1..]);
    }
  }

  /** Reading a multi-reply message back line by line gives the mention line
      exactly when it was requested and enabled, then every reply in order,
      then the empty remainder after the final line break. */
  lemma MultiReplyLines(mentionUserBeforeReplies: bool, mentionOnCommandOutput: bool,
                        mentionLine: string, replies: seq<string>)
    requires '\n' !in mentionLine
    requires forall i :: 0 <= i < |replies| ==> '\n' !in replies[i]
    ensures Split(MultiReplyText(mentionUserBeforeReplies, mentionOnCommandOutput, mentionLine, replies), '\n')
         == (if mentionUserBeforeReplies && mentionOnCommandOutput then [mentionLine] else []) + replies + [""]
  {
    var lead := if mentionUserBeforeReplies && mentionOnCommandOutput then [mentionLine] else [];
    var all := lead + replies + [""];
    LinesIsJoin(lead + replies);
    assert (lead + replies) + [""] == all;
    forall i | 0 <= i < |all| ensures '\n' !in all[i] {
      if i < |lead| {
        assert all[i] == mentionLine;
      } else if i < |lead| + |replies| {
        assert all[i] == replies[i - |lead|];
      } else {
        assert all[i] == "";
      }
    }
    SplitJoin(all, '\n');
  }

  /** The body actually handed to Discord: an empty text becomes a single
      space (Discord refuses empty messages), any other text is unchanged. */
  function MessageBody(message: string): (r: string)
    ensures |r| > 0
    ensures message != "" ==> r == message
    ensures message == "" ==> r == " "
  {
    if message == "" then " " else message
  }

  /** Where a message ends up. */
  datatype Delivery =
    | ByDirectMessage(body: string)
    | InChannel(body: string, deleteAfterSeconds: Option<int>)
    | NoPermission

  /** The guild settings and channel state `sendMessage` consults. */
  datatype SendEnv = SendEnv(
    commandOutputInPrivate: bool,
    isPrivateChannel: bool,
    canTalk: bool,                      // consulted only outside private channels
    deleteMessagesAfter: Option<int>)

  /** `sendMessage(text)`: the body rule, then the three-way routing. */
  function SendMessage(text: string, env: SendEnv): (r: Delivery)
    ensures r.ByDirectMessage? <==> env.commandOutputInPrivate
    ensures r.InChannel? <==> !env.commandOutputInPrivate && (env.isPrivateChannel || env.canTalk)
    ensures r.NoPermission? <==> !env.commandOutputInPrivate && !env.isPrivateChannel && !env.canTalk
    ensures r.InChannel? ==> r.deleteAfterSeconds == env.deleteMessagesAfter
    ensures !r.NoPermission? ==> r.body == MessageBody(text)
  {
    var body := MessageBody(text);
    if env.commandOutputInPrivate then ByDirectMessage(body)
    else if env.isPrivateChannel || env.canTalk then InChannel(body, env.deleteMessagesAfter)
    else NoPermission
  }

  /** A reply that is delivered always carries a non-empty body, and that body
      is the composed reply text itself whenever the text is non-empty. */
  lemma ReplyDeliveredBody(message: string, prefix: Option<string>, forceMention: bool,
                           userMention: string, contextMention: string, env: SendEnv)
    requires !SendMessage(ReplyText(message, prefix, forceMention, userMention, contextMention), env).NoPermission?
    requires message != ""
    ensures SendMessage(ReplyText(message, prefix, forceMention, userMention, contextMention), env).body
         == ReplyText(message, prefix, forceMention, userMention, contextMention)
  {
  }

  /* ====================================================================== */
  /* Help output                                                             */
  /* ====================================================================== */

  /** The two spellings of the bot's own mention. */
  function BotMention(clientId: string, nickname: bool): string
  {
    if nickname then "<@!" + clientId + ">" else "<@" + clientId + ">"
  }

  /** The command label shown by `explain`: the first space-separated token of
      the raw message, or the second one when the first is the bot's mention
      and a second token exists; always lower-cased. */
  function CommandLabel(contentRaw: string, clientId: string): (shown: string)
    ensures forall i :: 0 <= i < |shown| ==> !('A' <= shown[i] <= 'Z')
    ensures ' ' !in shown
  {
    var rawArguments := Split(contentRaw, ' ');
    var chosen :=
      if |rawArguments| > 1
         && (rawArguments[0] == BotMention(clientId, false) || rawArguments[0] == BotMention(clientId, true))
      then rawArguments[1]
      else rawArguments[0];
    LowerKeepsSpaceFree(chosen);
    Lower(chosen)
  }

  lemma LowerKeepsSpaceFree(s: string)
    requires ' ' !in s
    ensures ' ' !in Lower(s)
  {
  }

  /** A message without spaces is its own (lower-cased) label. */
  lemma LabelOfBareCommand(contentRaw: string, clientId: string)
    requires ' ' !in contentRaw
    ensures CommandLabel(contentRaw, clientId) == Lower(contentRaw)
  {
    SplitWithoutSep(contentRaw, ' ');
  }

  /** `cmd args...`, where `cmd` is not the bot's mention, is labelled `cmd`. */
  lemma LabelOfPlainInvocation(cmd: string, arguments: string, clientId: string)
    requires ' ' !in cmd
    requires cmd != BotMention(clientId, false) && cmd != BotMention(clientId, true)
    ensures CommandLabel(cmd + " " + arguments, clientId) == Lower(cmd)
  {
    SplitAfterPiece(cmd, ' ', arguments);
  }

  /** `@Bot cmd args...` (either mention spelling) is labelled `cmd`. */
  lemma LabelOfMentionInvocation(clientId: string, nickname: bool, cmd: string, arguments: string)
    requires ' ' !in clientId && ' ' !in cmd
    ensures CommandLabel(BotMention(clientId, nickname) + " " + cmd + " " + arguments, clientId) == Lower(cmd)
  {
    var m := BotMention(clientId, nickname);
    assert ' ' !in m by {
      if nickname { assert m == "<@!" + clientId + ">"; } else { assert m == "<@" + clientId + ">"; }
    }
    var rest := cmd + [' '] + arguments;
    SpacedRegroup(m, cmd, arguments);
    SplitAfterPiece(m, ' ', rest);
    SplitAfterPiece(cmd, ' ', arguments);
    var parts := Split(m + [' '] + rest, ' ');
    assert parts == [m] + ([cmd] + Split(arguments, ' '));
    LabelOfSecondToken(m + [' '] + rest, clientId, nickname);
  }

  lemma SpacedRegroup(a: string, b: string, c: string)
    ensures a + " " + b + " " + c == a + [' '] + (b + [' '] + c)
  {
    assert " " == [' '];
  }

  /** When the first token is the bot's mention and a second one exists, the
      second token is the label. */
  lemma LabelOfSecondToken(contentRaw: string, clientId: string, nickname: bool)
    requires |Split(contentRaw, ' ')| > 1 && Split(contentRaw, ' ')[0] == BotMention(clientId, nickname)
    ensures CommandLabel(contentRaw, clientId) == Lower(Split(contentRaw, ' ')[1])
  {
  }

  const ExampleIcon: string := "\U{1F4D6} "

  /** One line of the examples field: the label, then the example quoted in
      backticks unless it is empty. */
  function ExampleLine(commandLabel: string, example: string): string
  {
    commandLabel + (if example == "" then "" else " `" + example + "`")
  }

  function ExampleLines(commandLabel: string, examples: seq<string>): (r: seq<string>)
    ensures |r| == |examples|
    ensures forall i :: 0 <= i < |examples| ==> r[i] == ExampleLine(commandLabel, examples[i])
  {
    if |examples| == 0 then [] else [ExampleLine(commandLabel, examples[0])] + ExampleLines(commandLabel, examples[1..])
  }

  /** A field of the help embed. */
  datatype Field = Field(name: string, value: string)

  /** The examples field: without examples it shows the bare label under the
      singular heading; otherwise one line per example, and the heading takes
      a plural `s` exactly when the number of examples is not one. */
  function ExamplesField(exampleWord: string, commandLabel: string, examples: seq<string>): (f: Field)
    ensures |examples| == 0 ==> f == Field(ExampleIcon + exampleWord, commandLabel)
    ensures f.name == ExampleIcon + exampleWord + "s" <==> |examples| >= 2
    ensures |examples| < 2 ==> f.name == ExampleIcon + exampleWord
    ensures |examples| > 0 ==> f.value == Lines(ExampleLines(commandLabel, examples))
  {
    if |examples| == 0 then
      Field(ExampleIcon + exampleWord, commandLabel)
    else
      var heading := ExampleIcon + exampleWord + (if |examples| == 1 then "" else "s");
      assert |examples| < 2 ==> heading == ExampleIcon + exampleWord;
      assert |ExampleIcon + exampleWord + "s"| != |ExampleIcon + exampleWord|;
      Field(heading, Lines(ExampleLines(commandLabel, examples)))
  }

  predicate NoDuplicates(xs: seq<string>)
  {
    forall i, j :: 0 <= i < j < |xs| ==> xs[i] != xs[j]
  }

  /** Position of the first occurrence of `x` in `xs`. */
  function IndexOf(xs: seq<string>, x: string): (k: nat)
    requires x in xs
    ensures k < |xs| && xs[k] == x
    ensures forall j :: 0 <= j < k ==> xs[j] != x
  {
    if xs[0] == x then 0 else 1 + IndexOf(xs[1..], x)
  }

  /** Appending an element does not move an earlier first occurrence. */
  lemma IndexOfSnoc(xs: seq<string>, last: string, y: string)
    requires y in xs
    ensures IndexOf(xs + [last], y) == IndexOf(xs, y)
  {
    var k, k' := IndexOf(xs + [last], y), IndexOf(xs, y);
    assert (xs + [last])[k'] == y;
    assert k < |xs| ==> xs[k] == (xs + [last])[k];
  }

  /** Dropping a head different from `y` shifts its first occurrence by one. */
  lemma IndexOfTail(xs: seq<string>, y: string)
    requires y in xs && xs[0] != y
    ensures y in xs[1..] && IndexOf(xs, y) == IndexOf(xs[1..], y) + 1
  {
    var k := IndexOf(xs, y);
    assert xs[1..][k - 1] == y;
    var k' := IndexOf(xs[1..], y);
    assert xs[k' + 1] == y;
  }

  /** `xs` lists its elements in the order of their first occurrence in `ys`. */
  predicate InFirstOccurrenceOrder(xs: seq<string>, ys: seq<string>)
    requires forall x :: x in xs ==> x in ys
  {
    forall i, j :: 0 <= i < j < |xs| ==> IndexOf(ys, xs[i]) < IndexOf(ys, xs[j])
  }

  /** Kotlin's `mutableSetOf` filled from a list: duplicates dropped, first
      occurrences kept in order. */
  function Distinct(xs: seq<string>): (r: seq<string>)
    ensures forall x :: x in r <==> x in xs
    ensures NoDuplicates(r)
    ensures InFirstOccurrenceOrder(r, xs)
  {
    if |xs| == 0 then []
    else
      var front := xs[..|xs| - 1];
      var d := Distinct(front);
      var last := xs[|xs| - 1];
      assert xs == front + [last];
      OrderSurvivesSnoc(d, front, last);
      if last in d then d
      else
        OrderExtendsBySnoc(d, front, last);
        d + [last]
  }

  /** Appending to the reference list keeps an existing order. */
  lemma OrderSurvivesSnoc(d: seq<string>, front: seq<string>, last: string)
    requires forall x :: x in d ==> x in front
    requires InFirstOccurrenceOrder(d, front)
    ensures InFirstOccurrenceOrder(d, front + [last])
  {
    forall y | y in d ensures IndexOf(front + [last], y) == IndexOf(front, y) {
      IndexOfSnoc(front, last, y);
    }
  }

  /** A new element appended to both lists comes after every earlier one. */
  lemma OrderExtendsBySnoc(d: seq<string>, front: seq<string>, last: string)
    requires forall x :: x in d <==> x in front
    requires InFirstOccurrenceOrder(d, front + [last])
    requires last !in d
    ensures InFirstOccurrenceOrder(d + [last], front + [last])
  {
    var xs := front + [last];
    assert IndexOf(xs, last) == |front|;
    forall i | 0 <= i < |d| ensures IndexOf(xs, d[i]) < |front| {
      IndexOfSnoc(front, last, d[i]);
    }
  }

  /** The aliases listed by `explain`: every distinct label of the command
      except the one that equals the typed label with the command prefix
      removed (first occurrence), in the order the labels are declared. */
  function UnusedAliases(labels: seq<string>, commandLabel: string, commandPrefix: string): (r: seq<string>)
    ensures forall a :: a in r <==> a in labels && a != ReplaceFirst(commandLabel, commandPrefix, "")
    ensures NoDuplicates(r)
    ensures InFirstOccurrenceOrder(r, labels)
  {
    var used := ReplaceFirst(commandLabel, commandPrefix, "");
    var d := Distinct(labels);
    var r := FilterOut(d, used);
    assert forall i :: 0 <= i < |r| ==> d[IndexOf(d, r[i])] == r[i];
    r
  }

  function FilterOut(xs: seq<string>, drop: string): (r: seq<string>)
    ensures forall a :: a in r <==> a in xs && a != drop
    ensures NoDuplicates(xs) ==> NoDuplicates(r) && InFirstOccurrenceOrder(r, xs)
  {
    if |xs| == 0 then []
    else
      var rest := FilterOut(xs[1..], drop);
      assert NoDuplicates(xs) ==> xs[0] !in rest && InFirstOccurrenceOrder(rest, xs)
                                  && forall y :: y in rest ==> IndexOf(xs, y) > 0 by {
        if NoDuplicates(xs) {
          NoDuplicatesTail(xs);
          OrderSurvivesCons(rest, xs);
        }
      }
      if xs[0] == drop then rest
      else
        assert NoDuplicates(xs) ==> NoDuplicates([xs[0]] + rest) && InFirstOccurrenceOrder([xs[0]] + rest, xs) by {
          if NoDuplicates(xs) {
            OrderExtendsByCons(rest, xs);
          }
        }
        [xs[0]] + rest
  }

  /** The head of the reference list comes before everything in its tail. */
  lemma OrderExtendsByCons(rest: seq<string>, xs: seq<string>)
    requires |xs| > 0 && forall y :: y in rest ==> y in xs
    requires xs[0] !in rest && NoDuplicates(rest)
    requires InFirstOccurrenceOrder(rest, xs) && forall y :: y in rest ==> IndexOf(xs, y) > 0
    ensures NoDuplicates([xs[0]] + rest) && InFirstOccurrenceOrder([xs[0]] + rest, xs)
  {
    var r := [xs[0]] + rest;
    assert IndexOf(xs, xs[0]) == 0;
    forall i, j | 0 <= i < j < |r| ensures r[i] != r[j] && IndexOf(xs, r[i]) < IndexOf(xs, r[j]) {
      assert r[j] == rest[j - 1];
      if i > 0 {
        assert r[i] == rest[i - 1];
      }
    }
  }

  lemma NoDuplicatesTail(xs: seq<string>)
    requires |xs| > 0 && NoDuplicates(xs)
    ensures xs[0] !in xs[1..] && NoDuplicates(xs[1..])
  {
    forall k | 0 <= k < |xs| - 1 ensures xs[1..][k] != xs[0] {
      assert xs[1..][k] == xs[k + 1];
    }
  }

  /** Positions in the tail are one less than in the whole list, so an order
      with respect to the tail is one with respect to the list. */
  lemma OrderSurvivesCons(rest: seq<string>, xs: seq<string>)
    requires |xs| > 0 && NoDuplicates(xs)
    requires forall y :: y in rest ==> y in xs[1..]
    requires InFirstOccurrenceOrder(rest, xs[1..])
    ensures InFirstOccurrenceOrder(rest, xs)
    ensures forall y :: y in rest ==> IndexOf(xs, y) > 0
  {
    NoDuplicatesTail(xs);
    forall y | y in rest ensures IndexOf(xs, y) == IndexOf(xs[1..], y) + 1 {
      IndexOfTail(xs, y);
    }
  }

  /** A label typed with the configured prefix hides exactly the alias it
      names: every other label of the command is still listed. */
  lemma PrefixedLabelHidesItsAlias(labels: seq<string>, commandPrefix: string, alias: string)
    ensures forall a ::
      (a in UnusedAliases(labels, commandPrefix + alias, commandPrefix)) <==> (a in labels && a != alias)
  {
    assert commandPrefix <= commandPrefix + alias;
    assert (commandPrefix + alias)[|commandPrefix|..] == alias;
  }

  /** The alias field's text: each alias behind the prefix, in backticks,
      separated by commas. */
  function AliasFieldValue(aliases: seq<string>, commandPrefix: string): string
  {
    Join(QuoteAliases(aliases, commandPrefix), ", ")
  }

  function QuoteAliases(aliases: seq<string>, commandPrefix: string): (r: seq<string>)
    ensures |r| == |aliases|
    ensures forall i :: 0 <= i < |aliases| ==> r[i] == "`" + commandPrefix + aliases[i] + "`"
  {
    if |aliases| == 0 then [] else ["`" + commandPrefix + aliases[0] + "`"] + QuoteAliases(aliases[1..], commandPrefix)
  }

  /* ====================================================================== */
  /* User resolution                                                         */
  /* ====================================================================== */

  datatype User = User(id: string, name: string, discriminator: string, avatarUrl: string)

  /** `User.asMention`. */
  function Mention(u: User): string
  {
    "<@" + u.id + ">"
  }

  datatype Member = Member(user: User, effectiveName: string)

  /** What the context can see when resolving a user. */
  datatype UserEnv = UserEnv(
    mentionedUsers: seq<User>,           // users mentioned in the message, in order
    guildMembers: Option<seq<Member>>,   // the guild's members; None outside a guild
    isPrivateChannel: bool,
    usersById: map<string, User>)        // what a lookup by id answers; failures are absent

  /** Stage 1: a mentioned user whose mention equals the argument with every
      `!` removed (so `<@!id>` matches `<@id>`). */
  function ByMention(link: string, env: UserEnv): Option<User>
  {
    var bare := RemoveChar(link, '!');
    FirstMatch(env.mentionedUsers, (u: User) => Mention(u) == bare)
  }

  /** Stage 2: `name#discriminator`, only when splitting on `#` and dropping
      trailing empty pieces gives exactly two pieces with a non-empty name;
      the name is compared case-sensitively. */
  function ByTag(link: string, members: seq<Member>): Option<User>
  {
    var split := DropTrailingEmpty(Split(link, '#'));
    if |split| == 2 && split[0] != "" then
      match FirstMatch(members, (m: Member) => m.user.name == split[0] && m.user.discriminator == split[1])
      case Some(m) => Some(m.user)
      case None => None
    else None
  }

  /** Stage 3: first member whose effective name equals the argument, ignoring case. */
  function ByEffectiveName(link: string, members: seq<Member>): Option<User>
  {
    match FirstMatch(members, (m: Member) => EqualsIgnoreCase(m.effectiveName, link))
    case Some(m) => Some(m.user)
    case None => None
  }

  /** Stage 4: first member whose user name equals the argument, ignoring case. */
  function ByUserName(link: string, members: seq<Member>): Option<User>
  {
    match FirstMatch(members, (m: Member) => EqualsIgnoreCase(m.user.name, link))
    case Some(m) => Some(m.user)
    case None => None
  }

  /** Stage 5: the argument read as a user id. */
  function ById(link: string, env: UserEnv): Option<User>
  {
    if link in env.usersById then Some(env.usersById[link]) else None
  }

  /** Whether the guild-member stages 2-4 run at all. */
  predicate MemberStagesApply(link: string, env: UserEnv)
  {
    env.guildMembers.Some? && !env.isPrivateChannel && link != ""
  }

  /** The shared body of `getUserAt` and `getUser`: the five stages in their
      fixed order, the first that finds someone wins. */
  function ResolveUser(link: string, env: UserEnv): (r: Option<User>)
    ensures ByMention(link, env).Some? ==> r == ByMention(link, env)
    ensures r.None? ==> ByMention(link, env).None? && ById(link, env).None?
    ensures !MemberStagesApply(link, env) && ByMention(link, env).None? ==> r == ById(link, env)
    ensures ByMention(link, env).None? && MemberStagesApply(link, env) ==>
              var members := env.guildMembers.value;
              r == if ByTag(link, members).Some? then ByTag(link, members)
                   else if ByEffectiveName(link, members).Some? then ByEffectiveName(link, members)
                   else if ByUserName(link, members).Some? then ByUserName(link, members)
                   else ById(link, env)
    ensures r.None? ==>
              && ByMention(link, env).None? && ById(link, env).None?
              && (MemberStagesApply(link, env) ==>
                    && ByTag(link, env.guildMembers.value).None?
                    && ByEffectiveName(link, env.guildMembers.value).None?
                    && ByUserName(link, env.guildMembers.value).None?)
    ensures r.Some? ==>
      (|| r.value in env.mentionedUsers
       || (env.guildMembers.Some? && exists m :: m in env.guildMembers.value && m.user == r.value)
       || r.value in env.usersById.Values)
  {
    var mentioned := ByMention(link, env);
    if mentioned.Some? then mentioned
    else
      var fromGuild :=
        if MemberStagesApply(link, env) then
          var members := env.guildMembers.value;
          var tagged := ByTag(link, members);
          if tagged.Some? then tagged
          else
            var effective := ByEffectiveName(link, members);
            if effective.Some? then effective
            else ByUserName(link, members)
        else None;
      if fromGuild.Some? then
        assert exists m :: m in env.guildMembers.value && m.user == fromGuild.value;
        fromGuild
      else ById(link, env)
  }

  /** `getUserAt(argument)`: nothing when the index is past the arguments. */
  function GetUserAt(args: seq<string>, argument: nat, env: UserEnv): (r: Option<User>)
    ensures argument >= |args| ==> r.None?
    ensures argument < |args| ==> r == ResolveUser(args[argument], env)
  {
    if |args| > argument then ResolveUser(args[argument], env) else None
  }

  /** `getUser(link)`: nothing for a null argument. */
  function GetUser(link: Option<string>, env: UserEnv): (r: Option<User>)
    ensures link.None? ==> r.None?
    ensures link.Some? ==> r == ResolveUser(link.value, env)
  {
    match link
    case None => None
    case Some(l) => ResolveUser(l, env)
  }

  /** A mentioned user is found by either spelling of their mention, before
      any other stage is consulted. */
  lemma MentionResolves(u: User, nickname: bool, env: UserEnv)
    requires '!' !in u.id
    requires u in env.mentionedUsers
    requires forall v :: v in env.mentionedUsers && v.id == u.id ==> v == u
    ensures ResolveUser(if nickname then "<@!" + u.id + ">" else Mention(u), env) == Some(u)
  {
    var link := if nickname then "<@!" + u.id + ">" else Mention(u);
    var bare := RemoveChar(link, '!');
    MentionRemoveBang(u, nickname);
    assert bare == Mention(u);
    var r := ByMention(link, env);
    assert r.Some? by {
      var k :| 0 <= k < |env.mentionedUsers| && env.mentionedUsers[k] == u;
    }
    MentionInjective(r.value, u);
  }

  lemma MentionRemoveBang(u: User, nickname: bool)
    requires '!' !in u.id
    ensures RemoveChar(if nickname then "<@!" + u.id + ">" else Mention(u), '!') == Mention(u)
  {
    var tail := u.id + ">";
    assert '!' !in tail;
    if nickname {
      assert "<@!" + u.id + ">" == "<@!" + tail;
      RemoveCharAppend("<@!", tail, '!');
      assert RemoveChar("!", '!') == "";
      assert RemoveChar("@!", '!') == "@";
      assert RemoveChar("<@!", '!') == "<@";
    } else {
      assert Mention(u) == "<@" + tail;
    }
  }

  lemma MentionInjective(a: User, b: User)
    requires Mention(a) == Mention(b)
    ensures a.id == b.id
  {
    assert Mention(a)[2..|Mention(a)| - 1] == a.id;
    assert Mention(b)[2..|Mention(b)| - 1] == b.id;
  }

  /** In a guild channel, `name#discriminator` finds the first member with that
      exact name and discriminator when no mention matches. */
  lemma TagResolves(name: string, discriminator: string, members: seq<Member>, env: UserEnv)
    requires name != "" && discriminator != ""
    requires '#' !in name && '#' !in discriminator
    requires env.guildMembers == Some(members) && !env.isPrivateChannel
    requires ByMention(name + "#" + discriminator, env).None?
    ensures ResolveUser(name + "#" + discriminator, env)
         == match FirstMatch(members, (m: Member) => m.user.name == name && m.user.discriminator == discriminator)
            case Some(m) => Some(m.user)
            case None => FirstFound([ByEffectiveName(name + "#" + discriminator, members),
                                     ByUserName(name + "#" + discriminator, members),
                                     ById(name + "#" + discriminator, env)])
  {
    var link := name + "#" + discriminator;
    FirstFoundOfThree(ByEffectiveName(link, members), ByUserName(link, members), ById(link, env));
    TagSplits(name, discriminator);
  }

  lemma TagSplits(name: string, discriminator: string)
    requires name != "" && discriminator != ""
    requires '#' !in name && '#' !in discriminator
    ensures DropTrailingEmpty(Split(name + "#" + discriminator, '#')) == [name, discriminator]
  {
    SplitJoin([name, discriminator], '#');
    assert Join([name, discriminator], "#") == name + "#" + discriminator;
    assert DropTrailingEmpty([name, discriminator]) == [name, discriminator];
  }

  /** The stages in the order the source tries them: the mention, then (in a
      guild channel, for a non-empty argument) the tag, the effective name
      and the user name, and last the id lookup. */
  function UserStages(link: string, env: UserEnv): (stages: seq<Option<User>>)
    ensures |stages| == if MemberStagesApply(link, env) then 5 else 2
  {
    if MemberStagesApply(link, env) then
      var members := env.guildMembers.value;
      [ByMention(link, env), ByTag(link, members), ByEffectiveName(link, members), ByUserName(link, members),
       ById(link, env)]
    else [ByMention(link, env), ById(link, env)]
  }

  /** `getUserAt` answers with the first stage, in the documented order, that
      finds a user, and with null only when every stage came back empty. */
  lemma ResolveUserIsFirstFound(link: string, env: UserEnv)
    ensures ResolveUser(link, env) == FirstFound(UserStages(link, env))
  {
    if MemberStagesApply(link, env) {
      var members := env.guildMembers.value;
      FirstFoundOfFive(ByMention(link, env), ByTag(link, members), ByEffectiveName(link, members),
                       ByUserName(link, members), ById(link, env));
    } else {
      FirstFoundOfTwo(ByMention(link, env), ById(link, env));
    }
  }

  /** In a private channel no guild member is ever consulted: the result is a
      mentioned user or the id lookup. */
  lemma PrivateChannelSkipsMembers(link: string, env: UserEnv)
    requires env.isPrivateChannel
    ensures ResolveUser(link, env) == (if ByMention(link, env).Some? then ByMention(link, env) else ById(link, env))
  {
  }

  /* ====================================================================== */
  /* Image URL resolution                                                    */
  /* ====================================================================== */

  datatype Emote = Emote(mention: string, imageUrl: string)

  datatype Attachment = Attachment(isImage: bool, url: string)

  /** A past message of the channel: the image URLs of its embeds (None for an
      embed without image) and its attachments. */
  datatype PastMessage = PastMessage(embedImages: seq<Option<string>>, attachments: seq<Attachment>)

  datatype ImageEnv = ImageEnv(
    users: UserEnv,
    emotes: seq<Emote>,                  // the custom emotes of the message
    isValidUrl: string -> bool,
    twemoji: string -> Option<string>,   // the Twemoji URL when the probe answers 200
    hasHistoryPermission: bool,
    history: seq<PastMessage>,           // most recent first
    historyReadable: bool)               // false when retrieving the history is refused

  /** `k` is the first embed of the message that carries an image. */
  predicate FirstEmbedImage(msg: PastMessage, k: int)
  {
    0 <= k < |msg.embedImages| && msg.embedImages[k].Some?
    && forall j :: 0 <= j < k ==> msg.embedImages[j].None?
  }

  /** `k` is the first attachment of the message that is an image. */
  predicate FirstImageAttachment(msg: PastMessage, k: int)
  {
    0 <= k < |msg.attachments| && msg.attachments[k].isImage
    && forall j :: 0 <= j < k ==> !msg.attachments[j].isImage
  }

  predicate NoEmbedImage(msg: PastMessage)
  {
    forall k :: 0 <= k < |msg.embedImages| ==> msg.embedImages[k].None?
  }

  predicate NoImageAttachment(msg: PastMessage)
  {
    forall k :: 0 <= k < |msg.attachments| ==> !msg.attachments[k].isImage
  }

  /** The first image of one past message: the first embed that has an
      image, else the first attachment that is an image. */
  function ImageOf(msg: PastMessage): (r: Option<string>)
    ensures forall k :: FirstEmbedImage(msg, k) ==> r == msg.embedImages[k]
    ensures NoEmbedImage(msg) ==> forall k :: FirstImageAttachment(msg, k) ==> r == Some(msg.attachments[k].url)
    ensures r.None? <==> NoEmbedImage(msg) && NoImageAttachment(msg)
  {
    match FirstMatch(msg.embedImages, (e: Option<string>) => e.Some?)
    case Some(e) => e
    case None =>
      match FirstMatch(msg.attachments, (a: Attachment) => a.isImage)
      case Some(a) => Some(a.url)
      case None => None
  }

  /** The image URL each attachment offers, None for one that is no image. */
  function AttachmentImages(attachments: seq<Attachment>): (r: seq<Option<string>>)
    ensures |r| == |attachments|
    ensures forall i :: 0 <= i < |r| ==> (r[i].Some? <==> attachments[i].isImage)
    ensures forall i :: 0 <= i < |r| && r[i].Some? ==> r[i].value == attachments[i].url
  {
    if |attachments| == 0 then []
    else [if attachments[0].isImage then Some(attachments[0].url) else None] + AttachmentImages(attachments[1..])
  }

  /** A message's image is the first image found reading its embeds and then
      its attachments as one list. */
  lemma ImageOfIsFirstFound(msg: PastMessage)
    ensures ImageOf(msg) == FirstFound(msg.embedImages + AttachmentImages(msg.attachments))
  {
    FirstFoundAppend(msg.embedImages, AttachmentImages(msg.attachments));
    if FirstFound(msg.embedImages).Some? {
      ImageOfFromEmbeds(msg);
    } else {
      ImageOfFromAttachments(msg);
    }
  }

  lemma ImageOfFromEmbeds(msg: PastMessage)
    requires FirstFound(msg.embedImages).Some?
    ensures ImageOf(msg) == FirstFound(msg.embedImages)
  {
    var embeds := msg.embedImages;
    var i :| 0 <= i < |embeds| && embeds[i] == FirstFound(embeds) && forall j :: 0 <= j < i ==> embeds[j].None?;
    assert FirstEmbedImage(msg, i);
  }

  lemma ImageOfFromAttachments(msg: PastMessage)
    requires FirstFound(msg.embedImages).None?
    ensures ImageOf(msg) == FirstFound(AttachmentImages(msg.attachments))
  {
    var files := AttachmentImages(msg.attachments);
    assert NoEmbedImage(msg);
    if FirstFound(files).Some? {
      var i :| 0 <= i < |files| && files[i] == FirstFound(files) && forall j :: 0 <= j < i ==> files[j].None?;
      assert FirstImageAttachment(msg, i);
    } else {
      assert NoImageAttachment(msg);
    }
  }

  /** `k` is the newest of the messages that carries an image. */
  predicate FirstWithImage(msgs: seq<PastMessage>, k: int)
  {
    0 <= k < |msgs| && ImageOf(msgs[k]).Some?
    && forall j :: 0 <= j < k ==> ImageOf(msgs[j]).None?
  }

  /** The first image found scanning past messages newest first. */
  function ImageInHistory(msgs: seq<PastMessage>): (r: Option<string>)
    ensures r.None? <==> forall i :: 0 <= i < |msgs| ==> ImageOf(msgs[i]).None?
    ensures forall k :: FirstWithImage(msgs, k) ==> r == ImageOf(msgs[k])
    ensures r.Some? ==> exists k :: FirstWithImage(msgs, k) && r == ImageOf(msgs[k])
  {
    if |msgs| == 0 then None
    else if ImageOf(msgs[0]).Some? then ImageOf(msgs[0])
    else
      var r := ImageInHistory(msgs[1..]);
      assert forall k :: FirstWithImage(msgs, k) ==> r == ImageOf(msgs[k]) by {
        forall k | FirstWithImage(msgs, k) ensures r == ImageOf(msgs[k]) {
          FirstWithImageTail(msgs, k);
        }
      }
      assert r.Some? ==> exists k :: FirstWithImage(msgs, k) && r == ImageOf(msgs[k]) by {
        if r.Some? {
          var k :| FirstWithImage(msgs[1..], k) && r == ImageOf(msgs[1..][k]);
          FirstWithImageCons(msgs, k);
        }
      }
      r
  }

  lemma FirstWithImageTail(msgs: seq<PastMessage>, k: int)
    requires FirstWithImage(msgs, k) && ImageOf(msgs[0]).None?
    ensures FirstWithImage(msgs[1..], k - 1) && msgs[1..][k - 1] == msgs[k]
  {
    assert forall j :: 0 <= j < k - 1 ==> msgs[1..][j] == msgs[j + 1];
  }

  lemma FirstWithImageCons(msgs: seq<PastMessage>, k: int)
    requires |msgs| > 0 && ImageOf(msgs[0]).None? && FirstWithImage(msgs[1..], k)
    ensures FirstWithImage(msgs, k + 1) && msgs[1..][k] == msgs[k + 1]
  {
    assert forall j :: 1 <= j < k + 1 ==> msgs[j] == msgs[1..][j - 1];
  }

  function Min(a: int, b: int): int { if a <= b then a else b }

  /** The first custom emote of the message whose mention equals the argument
      ignoring case. */
  function EmoteFor(link: string, emotes: seq<Emote>): (r: Option<Emote>)
    ensures forall k :: (0 <= k < |emotes| && EqualsIgnoreCase(link, emotes[k].mention)
                         && forall j :: 0 <= j < k ==> !EqualsIgnoreCase(link, emotes[j].mention))
                        ==> r == Some(emotes[k])
    ensures r.None? <==> forall k :: 0 <= k < |emotes| ==> !EqualsIgnoreCase(link, emotes[k].mention)
  {
    FirstMatch(emotes, (e: Emote) => EqualsIgnoreCase(link, e.mention))
  }

  function AvatarUrl(user: User, avatarSize: int): string
  {
    user.avatarUrl + "?size=" + IntToString(avatarSize)
  }

  /** The resolution of the argument itself: a valid URL as it is, else the
      avatar of the user it names, else the image of the custom emote it
      spells, else the Twemoji picture when the CDN has one. */
  function ImageFromArgument(link: string, avatarSize: int, env: ImageEnv): (r: Option<string>)
    ensures env.isValidUrl(link) ==> r == Some(link)
    ensures (!env.isValidUrl(link) && ResolveUser(link, env.users).Some?)
              ==> r == Some(AvatarUrl(ResolveUser(link, env.users).value, avatarSize))
    ensures (!env.isValidUrl(link) && ResolveUser(link, env.users).None? && EmoteFor(link, env.emotes).Some?)
              ==> r == Some(EmoteFor(link, env.emotes).value.imageUrl)
    ensures (!env.isValidUrl(link) && ResolveUser(link, env.users).None? && EmoteFor(link, env.emotes).None?)
              ==> r == env.twemoji(link)
  {
    if env.isValidUrl(link) then Some(link)
    else
      var user := ResolveUser(link, env.users);
      if user.Some? then Some(AvatarUrl(user.value, avatarSize))
      else
        match EmoteFor(link, env.emotes)
        case Some(e) => Some(e.imageUrl)
        case None => env.twemoji(link)
  }

  /** Whether the channel history is searched. */
  predicate SearchesHistory(search: int, env: ImageEnv)
  {
    search > 0 && env.users.guildMembers.Some? && !env.users.isPrivateChannel
    && env.hasHistoryPermission && env.historyReadable
  }

  /** The history stage of `getImageUrl`: the first image among the newest
      `search` messages, when the history is searched at all. */
  function HistoryImage(search: int, env: ImageEnv): (r: Option<string>)
    ensures r.Some? ==> SearchesHistory(search, env)
    ensures r.Some? ==> exists k :: 0 <= k < search && FirstWithImage(env.history, k) && r == ImageOf(env.history[k])
    ensures SearchesHistory(search, env) ==>
              forall k :: 0 <= k < search && FirstWithImage(env.history, k) ==> r == ImageOf(env.history[k])
  {
    if SearchesHistory(search, env) then
      var window := env.history[..Min(search, |env.history|)];
      var r := ImageInHistory(window);
      assert forall k :: 0 <= k < search && FirstWithImage(env.history, k) ==> r == ImageOf(env.history[k]) by {
        forall k | 0 <= k < search && FirstWithImage(env.history, k) ensures r == ImageOf(env.history[k]) {
          FirstWithImageInWindow(env.history, |window|, k);
        }
      }
      assert r.Some? ==> exists k :: 0 <= k < search && FirstWithImage(env.history, k) && r == ImageOf(env.history[k]) by {
        if r.Some? {
          var k :| FirstWithImage(window, k) && r == ImageOf(window[k]);
          FirstWithImageInWindow(env.history, |window|, k);
        }
      }
      r
    else None
  }

  /** Cutting the history to its newest `n` messages keeps every first image
      that lies inside the cut. */
  lemma FirstWithImageInWindow(msgs: seq<PastMessage>, n: int, k: int)
    requires 0 <= k < n <= |msgs|
    ensures FirstWithImage(msgs[..n], k) <==> FirstWithImage(msgs, k)
    ensures msgs[..n][k] == msgs[k]
  {
    assert forall j :: 0 <= j <= k ==> msgs[..n][j] == msgs[j];
  }

  /** The argument's own image, absent when there is no argument. */
  function ArgumentImage(link: Option<string>, avatarSize: int, env: ImageEnv): Option<string>
  {
    if link.Some? then ImageFromArgument(link.value, avatarSize, env) else None
  }

  /** `getImageUrl(link, search, avatarSize)`. */
  function GetImageUrl(link: Option<string>, search: int, avatarSize: int, env: ImageEnv): (r: Option<string>)
    ensures link.Some? && env.isValidUrl(link.value) ==> r == link
    ensures (link.Some? && !env.isValidUrl(link.value) && ResolveUser(link.value, env.users).Some?)
              ==> r == Some(AvatarUrl(ResolveUser(link.value, env.users).value, avatarSize))
    ensures ArgumentImage(link, avatarSize, env).Some? ==> r == ArgumentImage(link, avatarSize, env)
    ensures ArgumentImage(link, avatarSize, env).None? ==> r == HistoryImage(search, env)
    ensures (r.Some? && ArgumentImage(link, avatarSize, env).None?) ==> SearchesHistory(search, env)
  {
    var fromArgument := ArgumentImage(link, avatarSize, env);
    if fromArgument.Some? then fromArgument
    else HistoryImage(search, env)
  }

  function UrlStage(l: string, env: ImageEnv): Option<string>
  {
    if env.isValidUrl(l) then Some(l) else None
  }

  function AvatarStage(l: string, avatarSize: int, env: ImageEnv): Option<string>
  {
    var user := ResolveUser(l, env.users);
    if user.Some? then Some(AvatarUrl(user.value, avatarSize)) else None
  }

  function EmoteStage(l: string, env: ImageEnv): Option<string>
  {
    var emote := EmoteFor(l, env.emotes);
    if emote.Some? then Some(emote.value.imageUrl) else None
  }

  /** The stages of `getImageUrl` in the order the source tries them: for an
      argument, the URL itself, a user's avatar, a custom emote and Twemoji;
      then the channel history. */
  function ImageStages(link: Option<string>, search: int, avatarSize: int, env: ImageEnv): (stages: seq<Option<string>>)
    ensures |stages| == if link.Some? then 5 else 1
  {
    if link.Some? then
      [UrlStage(link.value, env), AvatarStage(link.value, avatarSize, env), EmoteStage(link.value, env),
       env.twemoji(link.value), HistoryImage(search, env)]
    else [HistoryImage(search, env)]
  }

  /** `getImageUrl` answers with the first stage that finds an image, and with
      null only when every stage came back empty. */
  lemma GetImageUrlIsFirstFound(link: Option<string>, search: int, avatarSize: int, env: ImageEnv)
    ensures GetImageUrl(link, search, avatarSize, env) == FirstFound(ImageStages(link, search, avatarSize, env))
  {
    var h := HistoryImage(search, env);
    FirstFoundCons(h, []);
    assert [h] + [] == [h];
    if link.Some? {
      var l := link.value;
      var argumentStages := [UrlStage(l, env), AvatarStage(l, avatarSize, env), EmoteStage(l, env), env.twemoji(l)];
      ArgumentStagesFirstFound(l, avatarSize, env);
      FirstFoundAppend(argumentStages, [h]);
      assert ImageStages(link, search, avatarSize, env) == argumentStages + [h];
    }
  }

  lemma ArgumentStagesFirstFound(l: string, avatarSize: int, env: ImageEnv)
    ensures ImageFromArgument(l, avatarSize, env)
         == FirstFound([UrlStage(l, env), AvatarStage(l, avatarSize, env), EmoteStage(l, env), env.twemoji(l)])
  {
    FirstFoundOfFour(UrlStage(l, env), AvatarStage(l, avatarSize, env), EmoteStage(l, env), env.twemoji(l));
  }

  /** The message history is consulted only when `search > 0`: otherwise the
      answer is the same whatever the history holds. */
  lemma HistoryNeedsPositiveSearch(link: Option<string>, search: int, avatarSize: int,
                                   env: ImageEnv, otherHistory: seq<PastMessage>)
    requires search <= 0
    ensures GetImageUrl(link, search, avatarSize, env)
         == GetImageUrl(link, search, avatarSize, env.(history := otherHistory))
  {
    var env' := env.(history := otherHistory);
    if link.Some? {
      assert ImageFromArgument(link.value, avatarSize, env) == ImageFromArgument(link.value, avatarSize, env');
    }
  }

  /** An argument that is no URL and names no user, but is a custom emote of
      the message (compared ignoring case), resolves to that emote's image. */
  lemma EmoteResolves(link: string, search: int, avatarSize: int, env: ImageEnv, e: Emote)
    requires !env.isValidUrl(link) && ResolveUser(link, env.users).None?
    requires e in env.emotes && EqualsIgnoreCase(link, e.mention)
    requires forall f :: f in env.emotes && EqualsIgnoreCase(link, f.mention) ==> f.imageUrl == e.imageUrl
    ensures GetImageUrl(Some(link), search, avatarSize, env) == Some(e.imageUrl)
  {
    var m := FirstMatch(env.emotes, (f: Emote) => EqualsIgnoreCase(link, f.mention));
    assert m.Some? by {
      var k :| 0 <= k < |env.emotes| && env.emotes[k] == e;
    }
  }

  /** Where `getImageAt` takes its picture from. */
  datatype ImageSource = Download(url: string) | TextImage(text: string) | NoImage

  /** A download of the URL when one was found, no picture otherwise. */
  function Downloaded(url: Option<string>): (r: ImageSource)
    ensures r.NoImage? <==> url.None?
    ensures r.Download? ==> r.url == url.value
  {
    match url
    case Some(u) => Download(u)
    case None => NoImage
  }

  /** The shared body of `getImageAt` and `getImage`: the link without history
      search first; failing that, a text picture of the command's arguments
      when there are any, and only otherwise the history search. */
  function ImageFor(link: Option<string>, args: seq<string>, search: int, avatarSize: int, env: ImageEnv): (r: ImageSource)
    ensures ArgumentImage(link, avatarSize, env).Some? ==> r == Download(ArgumentImage(link, avatarSize, env).value)
    ensures ArgumentImage(link, avatarSize, env).None? && |args| > 0 ==> r == TextImage(Join(args, " "))
    ensures ArgumentImage(link, avatarSize, env).None? && |args| == 0 ==> r == Downloaded(HistoryImage(search, env))
    ensures r.NoImage? ==> |args| == 0 && GetImageUrl(link, search, avatarSize, env).None?
  {
    var first := GetImageUrl(link, 0, avatarSize, env);
    if first.Some? then Download(first.value)
    else if |args| > 0 then TextImage(Join(args, " "))
    else match GetImageUrl(link, search, avatarSize, env)
      case Some(u) => Download(u)
      case None => NoImage
  }

  /** `getImageAt(argument, search, avatarSize)`: the argument at that index,
      absent when the index is outside the arguments. */
  function GetImageAt(args: seq<string>, argument: int, search: int, avatarSize: int, env: ImageEnv): (r: ImageSource)
    ensures (0 <= argument < |args| && ImageFromArgument(args[argument], avatarSize, env).Some?)
              ==> r == Download(ImageFromArgument(args[argument], avatarSize, env).value)
    ensures (|args| > 0 && !(0 <= argument < |args| && ImageFromArgument(args[argument], avatarSize, env).Some?))
              ==> r == TextImage(Join(args, " "))
    ensures |args| == 0 ==> r == Downloaded(HistoryImage(search, env))
  {
    ImageFor(if 0 <= argument < |args| then Some(args[argument]) else None, args, search, avatarSize, env)
  }

  /** `getImage(text, search, avatarSize)`: the same rule for a given text. */
  function GetImage(text: string, args: seq<string>, search: int, avatarSize: int, env: ImageEnv): (r: ImageSource)
    ensures env.isValidUrl(text) ==> r == Download(text)
    ensures ImageFromArgument(text, avatarSize, env).Some? ==> r == Download(ImageFromArgument(text, avatarSize, env).value)
    ensures ImageFromArgument(text, avatarSize, env).None? && |args| > 0 ==> r == TextImage(Join(args, " "))
    ensures ImageFromArgument(text, avatarSize, env).None? && |args| == 0 ==> r == Downloaded(HistoryImage(search, env))
  {
    ImageFor(Some(text), args, search, avatarSize, env)
  }

  /** With at least one argument, the channel history never decides the picture. */
  lemma ArgumentsShadowHistory(link: Option<string>, args: seq<string>, search: int, avatarSize: int,
                               env: ImageEnv, otherHistory: seq<PastMessage>)
    requires |args| > 0
    ensures ImageFor(link, args, search, avatarSize, env)
         == ImageFor(link, args, search, avatarSize, env.(history := otherHistory))
  {
    HistoryNeedsPositiveSearch(link, 0, avatarSize, env, otherHistory);
  }

  /* ====================================================================== */
  /* Role resolution                                                         */
  /* ====================================================================== */

  datatype Role = Role(id: string, name: string)

  /** What the context sees when resolving a role. The source dereferences the
      guild with `!!`, so a role lookup always happens inside a guild. */
  datatype RoleEnv = RoleEnv(
    mentionedRoles: seq<Role>,
    guildRoles: seq<Role>,
    isValidSnowflake: string -> bool)

  function RoleById(id: string, roles: seq<Role>): Option<Role>
  {
    FirstMatch(roles, (r: Role) => r.id == id)
  }

  function RoleByName(name: string, roles: seq<Role>): Option<Role>
  {
    FirstMatch(roles, (r: Role) => EqualsIgnoreCase(r.name, name))
  }

  /** `getRoleAt` as written: `mentionedRoles[argument]` is indexed inside the
      `try`, so when fewer roles were mentioned the index exception is caught
      and the method answers null before the id and name lookups run; when
      enough roles were mentioned the element is never null, so it is returned. */
  function RoleAtAsWritten(args: seq<string>, argument: nat, env: RoleEnv): (r: Option<Role>)
    ensures r.Some? <==> argument < |args| && argument < |env.mentionedRoles|
    ensures r.Some? ==> r.value == env.mentionedRoles[argument]
  {
    if |args| > argument then
      if argument < |env.mentionedRoles| then Some(env.mentionedRoles[argument])
      else None
    else None
  }

  /** As written, the guild's roles are never consulted. */
  lemma RoleAtAsWrittenIgnoresGuildRoles(args: seq<string>, argument: nat, env: RoleEnv, otherRoles: seq<Role>)
    ensures RoleAtAsWritten(args, argument, env) == RoleAtAsWritten(args, argument, env.(guildRoles := otherRoles))
  {
  }

  /** A concrete input: the role id typed as the only argument, no role
      mentioned, and the guild holds that role; the lookup as written answers
      null, the intended lookup finds the role. */
  lemma RoleIdLookupUnreachable()
    ensures var env := RoleEnv([], [Role("123", "Admin")], (s: string) => s == "123");
            RoleAtAsWritten(["123"], 0, env).None? && RoleAt(["123"], 0, env) == Some(Role("123", "Admin"))
  {
    var env := RoleEnv([], [Role("123", "Admin")], (s: string) => s == "123");
    assert env.guildRoles[0].id == "123";
  }

  /** `getRoleAt` as evidently intended: a role mentioned at that index, else
      the argument as a role id (when it is a valid snowflake), else the first
      role with that name ignoring case. */
  function RoleAt(args: seq<string>, argument: nat, env: RoleEnv): (r: Option<Role>)
    ensures argument >= |args| ==> r.None?
    ensures argument < |env.mentionedRoles| && argument < |args| ==> r == Some(env.mentionedRoles[argument])
    ensures r.Some? ==> r.value in env.mentionedRoles || r.value in env.guildRoles
    ensures (&& argument < |args| && argument >= |env.mentionedRoles| && env.isValidSnowflake(args[argument])
             && RoleById(args[argument], env.guildRoles).Some?)
              ==> r.Some? && r.value.id == args[argument]
    ensures (&& argument < |args| && argument >= |env.mentionedRoles|
             && !(env.isValidSnowflake(args[argument]) && RoleById(args[argument], env.guildRoles).Some?))
              ==> r == RoleByName(args[argument], env.guildRoles)
  {
    if |args| > argument then
      var roleStr := args[argument];
      if argument < |env.mentionedRoles| then Some(env.mentionedRoles[argument])
      else if env.isValidSnowflake(roleStr) && RoleById(roleStr, env.guildRoles).Some? then RoleById(roleStr, env.guildRoles)
      else RoleByName(roleStr, env.guildRoles)
    else None
  }

  /** The corrected lookup agrees with the written one whenever a role was
      mentioned at that index: the fix only adds the id and name fallbacks. */
  lemma RoleAtExtendsAsWritten(args: seq<string>, argument: nat, env: RoleEnv)
    ensures RoleAtAsWritten(args, argument, env).Some? ==> RoleAt(args, argument, env) == RoleAtAsWritten(args, argument, env)
    ensures (RoleAtAsWritten(args, argument, env).None? && RoleAt(args, argument, env).Some?)
              ==> argument < |args| && argument >= |env.mentionedRoles| && RoleAt(args, argument, env).value in env.guildRoles
  {
  }
}
