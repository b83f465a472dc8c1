/**
 The website's "extras" pages: `/{locale}/extras/{page}` renders the template
 `extras/{page}.html` when it exists and answers 404 otherwise. Two pages,
 the list of users banned from the bot and the list of network bans, also
 receive an HTML table built from the database.

 The template folder is a set of existing file names, the database tables
 are sequences, and user and guild lookups are maps (a failed lookup is an
 absent key).
 */
module ExtrasViewer {
  import opened Base

  const BannedUsersPage: string := "banned-users"
  const NetworkBansPage: string := "network-bans"

  /** Placeholder shown for anything unknown. */
  const Unknown: string := "???"

  /* ---------------------------------------------------------------------- */
  /* Page name                                                               */
  /* ---------------------------------------------------------------------- */

  /** The page name: the path's fourth `/`-separated segment, with every `.`
      and `/` removed; absent when the path has fewer than four segments. */
  function ExtraTypeOf(path: string): (r: Option<string>)
    ensures r.Some? <==> |Split(path, '/')| >= 4
    ensures r.Some? ==> r.value == RemoveChar(Split(path, '/')[3], '.')
    ensures r.Some? ==> '.' !in r.value && '/' !in r.value
  {
    var segments := Split(path, '/');
    if |segments| < 4 then None else Some(RemoveChar(RemoveChar(segments[3], '.'), '/'))
  }

  /** The template file looked up for a page. */
  function TemplateName(extraType: string): string
  {
    "extras/" + extraType + ".html"
  }

  /** A page request `/{locale}/extras/{page}` names the page with its dots
      removed. */
  lemma PageOfRequestPath(locale: string, page: string)
    requires '/' !in locale && '/' !in page
    ensures ExtraTypeOf("/" + locale + "/extras/" + page) == Some(RemoveChar(page, '.'))
  {
    var path := "/" + locale + "/extras/" + page;
    RequestPathRegroup(locale, page);
    SplitWithoutSep(page, '/');
    SplitAfterPiece("extras", '/', page);
    SplitAfterPiece(locale, '/', "extras" + ['/'] + page);
    SplitAfterPiece("", '/', locale + ['/'] + ("extras" + ['/'] + page));
    assert Split(path, '/') == [""] + ([locale] + (["extras"] + [page]));
  }

  lemma RequestPathRegroup(locale: string, page: string)
    ensures "/" + locale + "/extras/" + page == "" + ['/'] + (locale + ['/'] + ("extras" + ['/'] + page))
  {
  }

  /** The template of any extracted page name is a direct child of the
      `extras` folder: no segment can climb out of it. */
  lemma TemplateStaysInFolder(path: string)
    requires ExtraTypeOf(path).Some?
    ensures Split(TemplateName(ExtraTypeOf(path).value), '/') == ["extras", ExtraTypeOf(path).value + ".html"]
  {
    var t := ExtraTypeOf(path).value;
    var parts := ["extras", t + ".html"];
    assert '/' !in t + ".html";
    assert Join(parts, "/") == TemplateName(t) by {
      assert parts[1..] == [t + ".html"];
    }
    SplitJoin(parts, '/');
  }

  /* ---------------------------------------------------------------------- */
  /* Table rows                                                              */
  /* ---------------------------------------------------------------------- */

  function CellTags(cells: seq<string>): (tags: seq<string>)
    ensures |tags| == |cells|
    ensures forall i :: 0 <= i < |cells| ==> tags[i] == "<td>" + cells[i] + "</td>"
  {
    if |cells| == 0 then [] else ["<td>" + cells[0] + "</td>"] + CellTags(cells[1..])
  }

  /** One table row: `<tr>`, one `<td>` line per cell, `</tr>`, one per line. */
  function Row(cells: seq<string>): string
  {
    Join(["<tr>"] + CellTags(cells) + ["</tr>"], "\n")
  }

  /** The lines of a row give back every cell, in order, provided no cell
      spans several lines. */
  lemma RowReadsBack(cells: seq<string>)
    requires forall i :: 0 <= i < |cells| ==> '\n' !in cells[i]
    ensures |Split(Row(cells), '\n')| == |cells| + 2
    ensures Split(Row(cells), '\n')[0] == "<tr>"
    ensures forall i :: 0 <= i < |cells| ==> Split(Row(cells), '\n')[i + 1] == "<td>" + cells[i] + "</td>"
    ensures Split(Row(cells), '\n')[|cells| + 1] == "</tr>"
  {
    var lines := ["<tr>"] + CellTags(cells) + ["</tr>"];
    forall i | 0 <= i < |lines| ensures '\n' !in lines[i] {
      if 0 < i < |lines| - 1 {
        assert lines[i] == "<td>" + cells[i - 1] + "</td>";
      }
    }
    SplitJoin(lines, '\n');
  }

  /** Concatenated rows, no separator between them. */
  function Table(rows: seq<seq<string>>): string
  {
    if |rows| == 0 then "" else Row(rows[0]) + Table(rows[1..])
  }

  datatype Profile = Profile(id: int, isBanned: bool, bannedReason: Option<string>)

  datatype DiscordUser = DiscordUser(id: int, name: string, discriminator: string)

  datatype NetworkBan = NetworkBan(id: int, guildId: Option<string>, reason: string, banType: string)

  /** The data a request can see. */
  datatype SiteEnv = SiteEnv(
    templates: set<string>,
    profiles: seq<Profile>,
    networkBans: seq<NetworkBan>,
    users: map<int, DiscordUser>,
    guildNames: map<string, string>)

  /** The first two columns of both tables: the user's id and `name#discriminator`. */
  function UserCells(userId: int, users: map<int, DiscordUser>): (cells: seq<string>)
    ensures |cells| == 2
    ensures userId !in users ==> cells == [IntToString(userId), Unknown]
    ensures userId in users ==>
              cells == [IntToString(users[userId].id), users[userId].name + "#" + users[userId].discriminator]
  {
    if userId in users then
      [IntToString(users[userId].id), users[userId].name + "#" + users[userId].discriminator]
    else [IntToString(userId), Unknown]
  }

  /** The banned profiles, in order, each as often as it occurs. */
  function BannedProfiles(profiles: seq<Profile>): (r: seq<Profile>)
    ensures forall i :: 0 <= i < |r| ==> r[i].isBanned && r[i] in profiles
    ensures forall i :: 0 <= i < |profiles| && profiles[i].isBanned ==> profiles[i] in r
    ensures |r| <= |profiles|
    ensures forall p :: multiset(r)[p] == (if p.isBanned then multiset(profiles)[p] else 0)
  {
    if |profiles| == 0 then []
    else
      assert profiles == [profiles[0]] + profiles[1..];
      (if profiles[0].isBanned then [profiles[0]] else []) + BannedProfiles(profiles[1..])
  }

  /** Rows of the `banned-users` table: one per banned profile. */
  function BannedRows(profiles: seq<Profile>, users: map<int, DiscordUser>): (rows: seq<seq<string>>)
    ensures |rows| == |profiles|
    ensures forall i :: 0 <= i < |profiles| ==>
              && |rows[i]| == 3
              && rows[i][..2] == UserCells(profiles[i].id, users)
              && rows[i][2] == profiles[i].bannedReason.GetOr(Unknown)
  {
    if |profiles| == 0 then []
    else [UserCells(profiles[0].id, users) + [profiles[0].bannedReason.GetOr(Unknown)]]
         + BannedRows(profiles[1..], users)
  }

  /** The guild column: the guild's name, else its raw id, else unknown. */
  function GuildColumn(guildId: Option<string>, guildNames: map<string, string>): (c: string)
    ensures guildId.None? ==> c == Unknown
    ensures guildId.Some? && guildId.value in guildNames ==> c == guildNames[guildId.value]
    ensures guildId.Some? && guildId.value !in guildNames ==> c == guildId.value
  {
    match guildId
    case None => Unknown
    case Some(g) => if g in guildNames then guildNames[g] else g
  }

  /** Rows of the `network-bans` table: one per entry. */
  function NetworkBanRows(bans: seq<NetworkBan>, users: map<int, DiscordUser>, guildNames: map<string, string>)
    : (rows: seq<seq<string>>)
    ensures |rows| == |bans|
    ensures forall i :: 0 <= i < |bans| ==>
              && |rows[i]| == 5
              && rows[i][..2] == UserCells(bans[i].id, users)
              && rows[i][2] == GuildColumn(bans[i].guildId, guildNames)
              && rows[i][3] == bans[i].banType
              && rows[i][4] == bans[i].reason
  {
    if |bans| == 0 then []
    else [UserCells(bans[0].id, users) + [GuildColumn(bans[0].guildId, guildNames), bans[0].banType, bans[0].reason]]
         + NetworkBanRows(bans[1..], users, guildNames)
  }

  /* ---------------------------------------------------------------------- */
  /* The request                                                             */
  /* ---------------------------------------------------------------------- */

  datatype Response =
    | Rendered(template: string, extraType: string, tableContents: Option<string>)
    | NotFound

  function Status(r: Response): int
  {
    if r.NotFound? then 404 else 200
  }

  /** `handle`: the answer to a GET of `path`. */
  function Handle(path: string, env: SiteEnv): (r: Response)
    ensures Status(r) == 404
        <==> ExtraTypeOf(path).None? || TemplateName(ExtraTypeOf(path).value) !in env.templates
    ensures r.Rendered? ==> r.extraType == ExtraTypeOf(path).value && r.template == TemplateName(r.extraType)
    ensures r.Rendered? ==>
              (r.tableContents.Some? <==> r.extraType == BannedUsersPage || r.extraType == NetworkBansPage)
    ensures r.Rendered? && r.extraType == BannedUsersPage ==>
              r.tableContents == Some(Table(BannedRows(BannedProfiles(env.profiles), env.users)))
    ensures r.Rendered? && r.extraType == NetworkBansPage ==>
              r.tableContents == Some(Table(NetworkBanRows(env.networkBans, env.users, env.guildNames)))
  {
    match ExtraTypeOf(path)
    case None => NotFound
    case Some(t) =>
      if TemplateName(t) !in env.templates then NotFound
      else
        var table :=
          if t == BannedUsersPage then Some(Table(BannedRows(BannedProfiles(env.profiles), env.users)))
          else if t == NetworkBansPage then Some(Table(NetworkBanRows(env.networkBans, env.users, env.guildNames)))
          else None;
        Rendered(TemplateName(t), t, table)
  }

  /** Any other existing page is rendered without a table, whatever the
      database holds. */
  lemma OtherPagesIgnoreDatabase(path: string, env1: SiteEnv, env2: SiteEnv)
    requires env1.templates == env2.templates
    requires ExtraTypeOf(path).Some?
    requires ExtraTypeOf(path).value != BannedUsersPage && ExtraTypeOf(path).value != NetworkBansPage
    ensures Handle(path, env1) == Handle(path, env2)
  {
  }
}
