/** The group page: the leaderboard of a group's players and the form by
    which a player joins the group. */
module Leaderboard {
  import opened Wrappers
  import opened JsText
  import opened Seqs
  import opened Records
  import opened Progress
  import opened Routes

  /** A row of the `users` table as the page selects it. */
  datatype User = User(id: nat, username: string)

  /** A user with the score the page derived for it. */
  datatype Player = Player(id: nat, username: string, score: nat)

  function ScoreKey(p: Player): int {
    p.score
  }

  /** One per-user count query: `score: countError ? 0 : count`. A thrown
      exception is not handled here; it fails the whole load. */
  function ScoreUser(rows: seq<Submission>, u: User, reply: Reply): (p: Player)
    ensures p.id == u.id && p.username == u.username
    ensures p.score == (if reply.Ok? then Score(rows, u.id) else 0)
    ensures p.score <= |rows|
  {
    FilterIsSubsequence(rows, (x: Submission) => x.userId == u.id);
    Player(u.id, u.username, if reply.Ok? then Score(rows, u.id) else 0)
  }

  /** `users.map(...)`: the users in the order the store returned them,
      each with its score. */
  function Scored(rows: seq<Submission>, users: seq<User>, replies: seq<Reply>): (ps: seq<Player>)
    requires |replies| == |users|
    ensures |ps| == |users|
    ensures forall k :: 0 <= k < |ps| ==> ps[k] == ScoreUser(rows, users[k], replies[k])
  {
    seq(|users|, k requires 0 <= k < |users| => ScoreUser(rows, users[k], replies[k]))
  }

  datatype Board = LoadFailed | Ranked(players: seq<Player>)

  /** `loadLeaderboard`: the users query (ordered by username), one count
      per user, then `sort((a, b) => b.score - a.score)` in place. The
      load fails when the users query fails or any count throws. */
  method LoadLeaderboard(rows: seq<Submission>, usersReply: Reply, users: seq<User>, countReplies: seq<Reply>)
    returns (board: Board)
    requires |countReplies| == |users|
    ensures board.LoadFailed? <==> !usersReply.Ok? || Exception in countReplies
    ensures board.Ranked? ==> board.players == SortDesc(Scored(rows, users, countReplies), ScoreKey)
  {
    if !usersReply.Ok? || Exception in countReplies {
      return LoadFailed;
    }
    var scored := Scored(rows, users, countReplies);
    var a := new Player[|scored|](k requires 0 <= k < |scored| => scored[k]);
    assert a[..] == scored;
    SortInPlace(a, ScoreKey);
    board := Ranked(a[..]);
  }

  /** What the sort promises: the same players, by descending score, and
      players with equal scores in the order the store returned them
      (ascending username, as the query asks); and no other order has all
      three properties. */
  lemma RankingSpec(scored: seq<Player>)
    ensures var r := SortDesc(scored, ScoreKey);
      && multiset(r) == multiset(scored)
      && SortedDesc(r, ScoreKey)
      && (forall k :: Filter(r, HasKey(ScoreKey, k)) == Filter(scored, HasKey(ScoreKey, k)))
    ensures forall r :: multiset(r) == multiset(scored) && SortedDesc(r, ScoreKey)
                        && (forall k :: Filter(r, HasKey(ScoreKey, k)) == Filter(scored, HasKey(ScoreKey, k)))
                        ==> r == SortDesc(scored, ScoreKey)
  {
    SortDescPermutation(scored, ScoreKey);
    SortDescSorted(scored, ScoreKey);
    forall k ensures Filter(SortDesc(scored, ScoreKey), HasKey(ScoreKey, k)) == Filter(scored, HasKey(ScoreKey, k)) {
      SortDescStable(scored, ScoreKey, k);
    }
    forall r | multiset(r) == multiset(scored) && SortedDesc(r, ScoreKey)
               && (forall k :: Filter(r, HasKey(ScoreKey, k)) == Filter(scored, HasKey(ScoreKey, k)))
      ensures r == SortDesc(scored, ScoreKey)
    {
      SortDescUnique(scored, r, ScoreKey);
    }
  }

  /** Three players A (2), B (5) and C (2), listed by username: B leads and
      A stays ahead of C. */
  lemma TieKeepsUsernameOrder(a: string, b: string, c: string)
    ensures SortDesc([Player(0, a, 2), Player(1, b, 5), Player(2, c, 2)], ScoreKey)
         == [Player(1, b, 5), Player(0, a, 2), Player(2, c, 2)]
  {
    var pa, pb, pc := Player(0, a, 2), Player(1, b, 5), Player(2, c, 2);
    var s := [pa, pb, pc];
    assert s[..2] == [pa, pb] && [pa, pb][..1] == [pa] && [pa][..0] == [];
    assert SortDesc([pa], ScoreKey) == [pa];
    assert InsertDesc([pa], pb, ScoreKey) == [pb, pa];
    assert SortDesc([pa, pb], ScoreKey) == [pb, pa];
    assert InsertDesc([pb, pa], pc, ScoreKey) == [pb, pa, pc];
  }

  const Gold: string := "\U{1F947}"
  const Silver: string := "\U{1F948}"
  const Bronze: string := "\U{1F949}"

  /** `${medal || rank}`: a medal for the first three places, the number
      otherwise. */
  function RankLabel(rank: nat): (shown: string)
    ensures rank == 1 ==> shown == Gold
    ensures rank == 2 ==> shown == Silver
    ensures rank == 3 ==> shown == Bronze
    ensures rank > 3 ==> shown == NatToString(rank)
  {
    if rank == 1 then Gold
    else if rank == 2 then Silver
    else if rank == 3 then Bronze
    else NatToString(rank)
  }

  /** Different places never share a label. */
  lemma RankLabelInjective(m: nat, n: nat)
    requires m >= 1 && n >= 1
    requires RankLabel(m) == RankLabel(n)
    ensures m == n
  {
    if m > 3 && n > 3 {
      NatToStringInjective(m, n);
    }
  }

  /** One line of the board: place, name, `score / 25`, and the view page
      the line opens. */
  datatype Entry = Entry(place: string, username: string, score: string, link: string)

  function EntryFor(p: Player, rank: nat, groupName: string): Entry {
    Entry(RankLabel(rank), p.username, NatToString(p.score) + " / 25", PagePath(groupName, p.username, "view"))
  }

  datatype Screen =
    | NoPlayers
    | Leaders(entries: seq<Entry>, adminLink: string)

  /** `renderLeaderboard`: the empty state, or one entry per player with
      rank `index + 1`, and the link to the admin page. */
  method RenderLeaderboard(players: seq<Player>, groupName: string) returns (screen: Screen)
    ensures screen.NoPlayers? <==> players == []
    ensures screen.Leaders? ==> |screen.entries| == |players|
    ensures screen.Leaders? ==> forall k :: 0 <= k < |players| ==>
      screen.entries[k] == EntryFor(players[k], k + 1, groupName)
    ensures screen.Leaders? ==> screen.adminLink == AdminPath(groupName)
  {
    if |players| == 0 {
      return NoPlayers;
    }
    var entries: seq<Entry> := [];
    var index := 0;
    while index < |players|
      invariant 0 <= index <= |players|
      invariant |entries| == index
      invariant forall k :: 0 <= k < index ==> entries[k] == EntryFor(players[k], k + 1, groupName)
    {
      var rank := index + 1;
      entries := entries + [EntryFor(players[index], rank, groupName)];
      index := index + 1;
    }
    screen := Leaders(entries, AdminPath(groupName));
  }

  /** The first three lines carry the medals, and every line opens the view
      page of its own player. */
  lemma EntriesSpec(players: seq<Player>, groupName: string, k: nat)
    requires k < |players|
    requires IsSegment(groupName) && IsSegment(players[k].username)
    ensures var e := EntryFor(players[k], k + 1, groupName);
      && (k < 3 ==> e.place == [Gold, Silver, Bronze][k])
      && PathInfoFromUrl("view", None, e.link) == Some(PathInfo(groupName, players[k].username))
      && e.username == players[k].username
  {
    PagePathRoundTrip(groupName, players[k].username, "view");
  }

  datatype GroupScreen =
    | NotAGroupPage
    | GroupNotFound(name: string)
    | Failed(message: string)
    | Shown(screen: Screen)

  const LoadGroupFailed: string := "Failed to load group data. Please try again."
  const LoadBoardFailed: string := "Failed to load leaderboard."

  /** `init`: no group in the path shows nothing; a failed or empty group
      lookup shows "not found"; a thrown lookup the generic error; and
      otherwise the leaderboard, or its own error. */
  method Init(name: Option<string>, groupReply: Reply, rows: seq<Submission>,
              usersReply: Reply, users: seq<User>, countReplies: seq<Reply>)
    returns (page: GroupScreen)
    requires |countReplies| == |users|
    ensures name.None? <==> page.NotAGroupPage?
    ensures name.Some? && groupReply.Err? ==> page == GroupNotFound(name.value)
    ensures name.Some? && groupReply.Exception? ==> page == Failed(LoadGroupFailed)
    ensures name.Some? && groupReply.Ok? ==>
      (page == Failed(LoadBoardFailed) <==> !usersReply.Ok? || Exception in countReplies)
    ensures name.Some? && groupReply.Ok? && page.Shown? ==>
      (page.screen.NoPlayers? <==> users == [])
    ensures name.Some? && groupReply.Ok? && usersReply.Ok? && Exception !in countReplies ==>
      var ranked := SortDesc(Scored(rows, users, countReplies), ScoreKey);
      && page.Shown?
      && (page.screen.NoPlayers? <==> ranked == [])
      && (page.screen.Leaders? ==>
            && |page.screen.entries| == |ranked|
            && (forall k :: 0 <= k < |ranked| ==> page.screen.entries[k] == EntryFor(ranked[k], k + 1, name.value))
            && page.screen.adminLink == AdminPath(name.value))
  {
    if name.None? {
      return NotAGroupPage;
    }
    match groupReply
    case Err(_) => page := GroupNotFound(name.value);
    case Exception => page := Failed(LoadGroupFailed);
    case Ok =>
      var board := LoadLeaderboard(rows, usersReply, users, countReplies);
      if board.LoadFailed? {
        page := Failed(LoadBoardFailed);
      } else {
        SortDescPermutation(Scored(rows, users, countReplies), ScoreKey);
        var screen := RenderLeaderboard(board.players, name.value);
        page := Shown(screen);
      }
  }

  const UsernameTaken: string := "This username is already taken in this group. Please choose another one."
  const RegisterFailed: string := "Failed to register. Please try again."
  const Unexpected: string := "An unexpected error occurred. Please try again."
  const Registered: string := "Registration successful! Redirecting..."

  /** The result of submitting the join form: the username sent to the
      store (if the insert was reached), the message shown, whether the
      form is enabled again, and where the page goes next. */
  datatype Registration = Registration(
    inserted: Option<string>,
    message: string,
    formEnabled: bool,
    redirect: Option<string>)

  /** `handleUserRegistration`: the group lookup (a missing group name finds
      no group), then the insert of the trimmed username. */
  function RegisterPlayer(input: string, groupName: Option<string>, groupReply: Reply, insertReply: Reply): (r: Registration)
    ensures r.inserted.Some? <==> groupName.Some? && groupReply.Ok?
    ensures r.inserted.Some? ==> r.inserted.value == Trim(input)
    ensures r.redirect.Some? <==> r.inserted.Some? && insertReply.Ok?
    ensures r.redirect.Some? ==> r.redirect.value == PagePath(groupName.value, Trim(input), "view")
                                 && r.message == Registered
    ensures r.formEnabled <==> r.redirect.None?
    ensures r.inserted.Some? && insertReply == Err(UniqueViolation) ==> r.message == UsernameTaken
    ensures r.inserted.Some? && insertReply.Err? && insertReply.code != UniqueViolation ==> r.message == RegisterFailed
    ensures r.inserted.None? || insertReply.Exception? ==> r.message == Unexpected
  {
    var username := Trim(input);
    if groupName.None? || !groupReply.Ok? then Registration(None, Unexpected, true, None)
    else match insertReply
      case Ok => Registration(Some(username), Registered, false, Some(PagePath(groupName.value, username, "view")))
      case Err(code) =>
        Registration(Some(username), if code == UniqueViolation then UsernameTaken else RegisterFailed, true, None)
      case Exception => Registration(Some(username), Unexpected, true, None)
  }

  /** After joining, the page lands on the view page of the new player. */
  lemma RegisterLandsOnViewPage(input: string, groupName: string)
    requires IsSegment(groupName) && IsSegment(Trim(input))
    ensures var r := RegisterPlayer(input, Some(groupName), Ok, Ok);
      PathInfoFromUrl("view", None, r.redirect.value) == Some(PathInfo(groupName, Trim(input)))
  {
    var r := RegisterPlayer(input, Some(groupName), Ok, Ok);
    assert r.redirect == Some(PagePath(groupName, Trim(input), "view"));
    PagePathRoundTrip(groupName, Trim(input), "view");
  }
}
