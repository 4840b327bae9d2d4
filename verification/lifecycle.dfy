/**
 The per-group lifecycle of a game: the lobby opened by /new, joining and
 leaving, the lobby timer, the start of a round, private-message submissions,
 the round timer, settlement by /endgame, and the guards of /delete, /kick and
 /kill.

 A group's state holds the lobby flag, the chat's list of games (oldest first)
 and the game registered as running in the bot-wide table. In the bot the
 registered game and its list entry are one shared dictionary, so an update
 through either is seen through both; here a game is identified by its creation
 epoch, and Store writes an updated game to every place holding it.
 */
module Lifecycle {

  import opened Optional
  import opened Board
  import opened Records
  import opened Submission
  import opened Dedup
  import opened Settlement

  datatype Game = Game(
    epoch: int,
    creator: UserId,
    lang: Lang,
    participants: Roster,
    isFinished: bool,
    grid: Grid)

  datatype Group = Group(
    lobbyOpen: bool,
    games: seq<Game>,
    registered: Option<Game>,
    lang: Lang)

  /** What the bot answers; Crash stands for an exception escaping the handler. */
  datatype Reply =
    | GameCreated
    | GameAlreadyCreated
    | NoGameYet
    | AlreadyInGame
    | GameJoined
    | NotYetInGame
    | GameLeft
    | NoParticipants
    | ForbidNotCreator
    | GameStarted
    | LobbyDiscarded
    | NotInGame
    | WordVerdict(verdict: Verdict)
    | RoundTimerIgnored
    | RoundOver
    | NotYetFinished
    | AlreadyFinished
    | Results(settled: Settled)
    | NoWordsAfterDelete
    | CharNotInAlphabet
    | StrikeWords
    | KickChoice
    | GameKilled
    | Crash

  /** The state after a handler, with its reply. */
  datatype Step = Step(group: Group, reply: Reply)

  /** A chat that has never used the bot. */
  function Fresh(lang: Lang): (gr: Group)
    ensures !gr.lobbyOpen && gr.games == [] && gr.registered == None
    ensures Inv(gr) && CurrentGame(gr).None?
  {
    Group(false, [], None, lang)
  }

  // ---------------------------------------------------------------------------
  // Finding the current game.
  // ---------------------------------------------------------------------------

  /** Index i holds the first game with the largest epoch, and that epoch is positive. */
  predicate LatestAt(games: seq<Game>, i: int)
  {
    && 0 <= i < |games|
    && games[i].epoch > 0
    && (forall j | 0 <= j < |games| :: games[j].epoch <= games[i].epoch)
    && (forall j | 0 <= j < i :: games[j].epoch < games[i].epoch)
  }

  /**
   The scan for the latest game: starting from epoch 0, a game replaces the best
   so far only with a strictly larger epoch; -1 when no game beats 0.
   */
  function Latest(games: seq<Game>): (i: int)
    ensures -1 <= i < |games|
    ensures i == -1 <==> forall j | 0 <= j < |games| :: games[j].epoch <= 0
    ensures i >= 0 ==> LatestAt(games, i)
  {
    if games == [] then -1
    else
      var n := |games| - 1;
      var init := games[..n];
      assert forall j | 0 <= j < n :: init[j] == games[j];
      var j := Latest(init);
      var best := if j < 0 then 0 else games[j].epoch;
      if games[n].epoch > best then n else j
  }

  /** Only one index can hold the latest game. */
  lemma LatestUnique(games: seq<Game>, i: int)
    requires LatestAt(games, i)
    ensures Latest(games) == i
  {
    var k := Latest(games);
    assert LatestAt(games, k);
  }

  /** Every index holding the latest game is the one the scan returns. */
  lemma LatestAtIsLatest(games: seq<Game>)
    ensures forall i :: LatestAt(games, i) ==> Latest(games) == i
  {
    forall i | LatestAt(games, i)
      ensures Latest(games) == i
    {
      LatestUnique(games, i);
    }
  }

  /** The game a lobby command acts on: the latest one, unless it has finished (or there is none). */
  function CurrentGame(gr: Group): (c: Option<Game>)
    ensures c.Some? <==> Latest(gr.games) >= 0 && !gr.games[Latest(gr.games)].isFinished
    ensures c.Some? ==> c.value == gr.games[Latest(gr.games)]
  {
    var i := Latest(gr.games);
    if i < 0 || gr.games[i].isFinished then None else Some(gr.games[i])
  }

  /**
   The current game, characterised without the scan: the unfinished game at the
   index holding the largest positive epoch first; none when that game has
   finished or no such index exists.
   */
  lemma CurrentGameIsLatest(gr: Group)
    ensures CurrentGame(gr).Some? ==>
              exists i :: LatestAt(gr.games, i) && CurrentGame(gr).value == gr.games[i] && !gr.games[i].isFinished
    ensures CurrentGame(gr).None? ==> forall i :: LatestAt(gr.games, i) ==> gr.games[i].isFinished
  {
    LatestAtIsLatest(gr.games);
  }

  // ---------------------------------------------------------------------------
  // Updating shared games.
  // ---------------------------------------------------------------------------

  /** Every list entry of the game with g's epoch now reads g. */
  function Replace(games: seq<Game>, g: Game): (r: seq<Game>)
    ensures |r| == |games|
    ensures forall i | 0 <= i < |games| :: r[i] == if games[i].epoch == g.epoch then g else games[i]
  {
    seq(|games|, i requires 0 <= i < |games| => if games[i].epoch == g.epoch then g else games[i])
  }

  /** Writes an updated game through every reference to it: its list entries and, if it is the one, the registered game. */
  function Store(gr: Group, g: Game): (r: Group)
    ensures r.lobbyOpen == gr.lobbyOpen && r.lang == gr.lang
    ensures r.games == Replace(gr.games, g)
    ensures r.registered == if gr.registered.Some? && gr.registered.value.epoch == g.epoch then Some(g) else gr.registered
    ensures Latest(r.games) == Latest(gr.games)
    ensures CurrentGame(gr).Some? && CurrentGame(gr).value.epoch == g.epoch && !g.isFinished ==> CurrentGame(r) == Some(g)
    ensures CurrentGame(gr).Some? && CurrentGame(gr).value.epoch != g.epoch ==> CurrentGame(r) == CurrentGame(gr)
    ensures gr.registered.Some? && gr.registered.value in gr.games ==> r.registered.value in r.games
  {
    var games := Replace(gr.games, g);
    LatestSameEpochs(gr.games, games);
    var r := gr.(games := games,
                 registered := if gr.registered.Some? && gr.registered.value.epoch == g.epoch then Some(g) else gr.registered);
    RegisteredStaysListed(gr, g, r);
    r
  }

  /** The list without its i-th entry. */
  function RemoveAt(games: seq<Game>, i: int): (r: seq<Game>)
    requires 0 <= i < |games|
    ensures |r| == |games| - 1
    ensures forall j | 0 <= j < i :: r[j] == games[j]
    ensures forall j | i <= j < |r| :: r[j] == games[j + 1]
  {
    games[..i] + games[i + 1..]
  }

  /** The position of the first entry with this epoch, or -1. */
  function IndexOfEpoch(games: seq<Game>, epoch: int): (i: int)
    ensures -1 <= i < |games|
    ensures i == -1 <==> forall j | 0 <= j < |games| :: games[j].epoch != epoch
    ensures i >= 0 ==> games[i].epoch == epoch && forall j | 0 <= j < i :: games[j].epoch != epoch
  {
    if games == [] then -1
    else if games[0].epoch == epoch then 0
    else
      var i := IndexOfEpoch(games[1..], epoch);
      if i < 0 then -1 else i + 1
  }

  /** A roster without the given user. */
  function RemoveId(ps: Roster, id: UserId): (r: Roster)
    ensures forall p :: p in r <==> p in ps && p.id != id
    ensures |r| <= |ps|
    ensures !HasId(ps, id) ==> r == ps
  {
    if ps == [] then []
    else (if ps[0].id == id then [] else [ps[0]]) + RemoveId(ps[1..], id)
  }

  // ---------------------------------------------------------------------------
  // Lobby commands.
  // ---------------------------------------------------------------------------

  /** /new: opens a lobby with an empty game created now, unless a lobby is already open. */
  function New(gr: Group, user: UserId, now: int): (r: Step)
    ensures r.group.lobbyOpen
    ensures r.reply == GameCreated <==> !gr.lobbyOpen
    ensures r.reply == GameCreated ==>
              r.group == gr.(lobbyOpen := true, games := gr.games + [Game(now, user, gr.lang, [], false, map[])])
    ensures r.reply != GameCreated ==> r.reply == GameAlreadyCreated && r.group == gr
  {
    if gr.lobbyOpen then Step(gr, GameAlreadyCreated)
    else Step(gr.(lobbyOpen := true, games := gr.games + [Game(now, user, gr.lang, [], false, map[])]), GameCreated)
  }

  /**
   /join: adds the sender to the current game while a lobby is open and they
   are not in it yet. An open lobby without a current game makes the bot fail.
   */
  function Join(gr: Group, user: UserId, name: string): (r: Step)
    ensures r.reply == GameJoined <==>
              gr.lobbyOpen && CurrentGame(gr).Some? && !HasId(CurrentGame(gr).value.participants, user)
    ensures r.reply == Crash <==> gr.lobbyOpen && CurrentGame(gr).None?
    ensures r.reply == GameJoined ==>
              var c := CurrentGame(gr).value;
              r.group == Store(gr, c.(participants := c.participants + [Player(user, name, [])]))
    ensures r.reply != GameJoined ==> r.group == gr
  {
    if !gr.lobbyOpen then Step(gr, NoGameYet)
    else match CurrentGame(gr)
      case None => Step(gr, Crash)
      case Some(c) =>
        if HasId(c.participants, user) then Step(gr, AlreadyInGame)
        else Step(Store(gr, c.(participants := c.participants + [Player(user, name, [])])), GameJoined)
  }

  /** /leave: removes the sender from the current game while a lobby is open and they are in it. */
  function Leave(gr: Group, user: UserId): (r: Step)
    ensures r.reply == GameLeft <==>
              gr.lobbyOpen && CurrentGame(gr).Some? && HasId(CurrentGame(gr).value.participants, user)
    ensures r.reply == Crash <==> gr.lobbyOpen && CurrentGame(gr).None?
    ensures r.reply == GameLeft ==>
              var c := CurrentGame(gr).value;
              r.group == Store(gr, c.(participants := RemoveId(c.participants, user)))
    ensures r.reply != GameLeft ==> r.group == gr
  {
    if !gr.lobbyOpen then Step(gr, NoGameYet)
    else match CurrentGame(gr)
      case None => Step(gr, Crash)
      case Some(c) =>
        if !HasId(c.participants, user) then Step(gr, NotYetInGame)
        else Step(Store(gr, c.(participants := RemoveId(c.participants, user))), GameLeft)
  }

  // ---------------------------------------------------------------------------
  // Starting a round.
  // ---------------------------------------------------------------------------

  /**
   Deals the board to the current game and registers it as running. Every
   participant is then sent the board; blocked counts the participants who never
   opened a private chat with the bot. The first such failure kills the game
   (it is unregistered and the latest game leaves the list), after which the
   handler fails on the next access to the registered game.
   */
  function Deal(gr: Group, c: Game, faces: seq<Face>, blocked: nat): (r: Step)
    requires |faces| == Side * Side
    ensures blocked == 0 ==> r.reply == GameStarted
    ensures blocked > 0 ==> r.reply == Crash && r.group.registered == None
    ensures blocked > 0 && Latest(gr.games) >= 0 ==>
              r.group.games == RemoveAt(Replace(gr.games, c.(grid := BuildGrid(faces))), Latest(gr.games))
    ensures blocked > 0 && Latest(gr.games) < 0 ==> r.group.games == Replace(gr.games, c.(grid := BuildGrid(faces)))
    ensures r.reply == GameStarted ==>
              && r.group.registered == Some(c.(grid := BuildGrid(faces)))
              && r.group.games == Replace(gr.games, c.(grid := BuildGrid(faces)))
    ensures r.group.lobbyOpen == gr.lobbyOpen
  {
    var started := c.(grid := BuildGrid(faces));
    var dealt := Store(gr, started).(registered := Some(started));
    if blocked == 0 then Step(dealt, GameStarted)
    else
      var i := Latest(dealt.games);
      var killed := dealt.(registered := None);
      if i < 0 then Step(killed, Crash)
      else Step(killed.(games := RemoveAt(dealt.games, i)), Crash)
  }

  /** Whether the sender is not the creator of the registered game, or, with none registered, of the current game. */
  function Forbidden(gr: Group, user: UserId): (forbid: bool)
    requires gr.registered.Some? || CurrentGame(gr).Some?
    ensures gr.registered.Some? ==> (forbid <==> user != gr.registered.value.creator)
    ensures gr.registered.None? ==> (forbid <==> user != CurrentGame(gr).value.creator)
  {
    var g := if gr.registered.Some? then gr.registered.value else CurrentGame(gr).value;
    user != g.creator
  }

  /**
   /startgame: refuses when there is no current game, when it has nobody in it,
   and when the sender did not create it; otherwise closes the lobby and deals.
   */
  function StartGame(gr: Group, user: UserId, faces: seq<Face>, blocked: nat): (r: Step)
    requires |faces| == Side * Side
    ensures CurrentGame(gr).None? ==> r == Step(gr, NoGameYet)
    ensures CurrentGame(gr).Some? && CurrentGame(gr).value.participants == [] ==> r == Step(gr, NoParticipants)
    ensures r.reply == GameStarted <==>
              && CurrentGame(gr).Some? && CurrentGame(gr).value.participants != []
              && !Forbidden(gr, user) && blocked == 0
    ensures r.reply == GameStarted ==>
              var c := CurrentGame(gr).value;
              && !r.group.lobbyOpen
              && r.group.registered == Some(c.(grid := BuildGrid(faces)))
              && r.group.registered.value.participants == c.participants
    ensures r.reply == ForbidNotCreator <==>
              CurrentGame(gr).Some? && CurrentGame(gr).value.participants != [] && Forbidden(gr, user)
    ensures r.reply == ForbidNotCreator ==> r.group == gr
    ensures CurrentGame(gr).Some? && CurrentGame(gr).value.participants != [] && !Forbidden(gr, user) ==>
              r == Deal(gr.(lobbyOpen := false), CurrentGame(gr).value, faces, blocked)
    ensures r.reply == GameStarted ==>
              var c := CurrentGame(gr).value;
              r.group.games == Replace(gr.games, c.(grid := BuildGrid(faces)))
    ensures CurrentGame(gr).Some? && CurrentGame(gr).value.participants != [] && !Forbidden(gr, user) && blocked > 0 ==>
              r.reply == Crash && !r.group.lobbyOpen && r.group.registered == None
  {
    match CurrentGame(gr)
    case None => Step(gr, NoGameYet)
    case Some(c) =>
      if c.participants == [] then Step(gr, NoParticipants)
      else if Forbidden(gr, user) then Step(gr, ForbidNotCreator)
      else Deal(gr.(lobbyOpen := false), c, faces, blocked)
  }

  /**
   The lobby timer firing (only while the lobby is open): closes the lobby, then
   discards the current game if nobody joined and deals it otherwise.
   */
  function LobbyExpired(gr: Group, faces: seq<Face>, blocked: nat): (r: Step)
    requires gr.lobbyOpen && |faces| == Side * Side
    ensures !r.group.lobbyOpen
    ensures r.reply == Crash <==> CurrentGame(gr).None? || (CurrentGame(gr).value.participants != [] && blocked > 0)
    ensures r.reply == LobbyDiscarded <==> CurrentGame(gr).Some? && CurrentGame(gr).value.participants == []
    ensures r.reply == LobbyDiscarded ==>
              r.group == gr.(lobbyOpen := false, games := RemoveAt(gr.games, Latest(gr.games)))
    ensures r.reply == GameStarted ==>
              r.group.registered == Some(CurrentGame(gr).value.(grid := BuildGrid(faces)))
    ensures CurrentGame(gr).Some? && CurrentGame(gr).value.participants != [] ==>
              r == Deal(gr.(lobbyOpen := false), CurrentGame(gr).value, faces, blocked)
    ensures r.reply == GameStarted <==>
              CurrentGame(gr).Some? && CurrentGame(gr).value.participants != [] && blocked == 0
  {
    var closed := gr.(lobbyOpen := false);
    match CurrentGame(gr)
    case None => Step(closed, Crash)
    case Some(c) =>
      if c.participants == [] then Step(closed.(games := RemoveAt(gr.games, Latest(gr.games))), LobbyDiscarded)
      else Deal(closed, c, faces, blocked)
  }

  // ---------------------------------------------------------------------------
  // During and after a round.
  // ---------------------------------------------------------------------------

  /** A private message: a word for the running game of this group, from one of its participants. */
  function SubmitWord(gr: Group, user: UserId, message: string): (r: Step)
    ensures r.reply == NotInGame <==>
              gr.registered.None? || gr.registered.value.isFinished || !HasId(gr.registered.value.participants, user)
    ensures r.reply == NotInGame ==> r.group == gr
    ensures r.reply != NotInGame ==>
              var g := gr.registered.value;
              var k := IndexOfId(g.participants, user);
              var s := Submit(g.participants[k].words, message, g.lang, g.grid);
              && r.reply == WordVerdict(s.verdict)
              && r.group == Store(gr, g.(participants := g.participants[k := g.participants[k].(words := s.words)]))
  {
    if gr.registered.None? then Step(gr, NotInGame)
    else
      var g := gr.registered.value;
      var k := IndexOfId(g.participants, user);
      if g.isFinished || k < 0 then Step(gr, NotInGame)
      else
        var s := Submit(g.participants[k].words, message, g.lang, g.grid);
        Step(Store(gr, g.(participants := g.participants[k := g.participants[k].(words := s.words)])), WordVerdict(s.verdict))
  }

  /**
   The round timer firing: ignored when no game is registered any more;
   otherwise the registered game finishes and its shared words are flagged.
   */
  function RoundExpired(gr: Group): (r: Step)
    ensures gr.registered.None? ==> r == Step(gr, RoundTimerIgnored)
    ensures gr.registered.Some? ==>
              var g := gr.registered.value;
              && r.reply == RoundOver
              && r.group == Store(gr, g.(isFinished := true, participants := Deduplicated(g.participants)))
              && r.group.registered.value.isFinished
  {
    match gr.registered
    case None => Step(gr, RoundTimerIgnored)
    case Some(g) => Step(Store(gr, g.(isFinished := true, participants := Deduplicated(g.participants))), RoundOver)
  }

  /** The checks /endgame makes before settling: a registered game, its creator, and a finished round. */
  function EndGuard(gr: Group, user: UserId): (reply: Option<Reply>)
    ensures reply.None? <==> gr.registered.Some? && user == gr.registered.value.creator && gr.registered.value.isFinished
    ensures gr.registered.Some? && user == gr.registered.value.creator && !gr.registered.value.isFinished ==>
              reply == Some(NotYetFinished)
  {
    match gr.registered
    case None => Some(NoGameYet)
    case Some(g) =>
      if user != g.creator then Some(ForbidNotCreator)
      else if !g.isFinished then Some(NotYetFinished)
      else None
  }

  /**
   /endgame as the bot does it: settles the registered game, then removes the
   chat's LATEST game from the list (which is a newer lobby game when /new was
   sent during the round), appends the settled game, and unregisters it.
   */
  function EndGameAsWritten(gr: Group, user: UserId): (r: Step)
    ensures EndGuard(gr, user).Some? ==> r == Step(gr, EndGuard(gr, user).value)
    ensures EndGuard(gr, user).None? && Latest(gr.games) >= 0 ==>
              var g := gr.registered.value;
              && r.reply == Results(SettledOf(g.participants))
              && r.group == gr.(games := RemoveAt(gr.games, Latest(gr.games)) + [g], registered := None)
  {
    match EndGuard(gr, user)
    case Some(reply) => Step(gr, reply)
    case None =>
      var g := gr.registered.value;
      var i := Latest(gr.games);
      if i < 0 then Step(gr, Crash)
      else Step(gr.(games := RemoveAt(gr.games, i) + [g], registered := None), Results(SettledOf(g.participants)))
  }

  /**
   /endgame as intended: the settled game's own entry moves to the end of the
   list and the game is unregistered; every other game stays.
   */
  function EndGame(gr: Group, user: UserId): (r: Step)
    ensures EndGuard(gr, user).Some? ==> r == Step(gr, EndGuard(gr, user).value)
    ensures EndGuard(gr, user).None? ==>
              var g := gr.registered.value;
              var i := IndexOfEpoch(gr.games, g.epoch);
              && r.reply == Results(SettledOf(g.participants))
              && r.group.registered == None && r.group.lobbyOpen == gr.lobbyOpen
              && r.group.games == (if i < 0 then gr.games else RemoveAt(gr.games, i)) + [g]
  {
    match EndGuard(gr, user)
    case Some(reply) => Step(gr, reply)
    case None =>
      var g := gr.registered.value;
      var i := IndexOfEpoch(gr.games, g.epoch);
      var rest := if i < 0 then gr.games else RemoveAt(gr.games, i);
      Step(gr.(games := rest + [g], registered := None), Results(SettledOf(g.participants)))
  }

  /**
   /delete's checks: a registered game, its creator, a finished round, at least
   one word, every character in the game language's alphabet. The striking of
   the listed words is not modelled.
   */
  function DeleteGuard(gr: Group, user: UserId, words: seq<string>): (reply: Reply)
    ensures reply == StrikeWords <==>
              && gr.registered.Some? && user == gr.registered.value.creator && gr.registered.value.isFinished
              && |words| > 0 && forall i | 0 <= i < |words| :: InAlphabet(words[i], gr.registered.value.lang)
    ensures gr.registered.Some? && user == gr.registered.value.creator && !gr.registered.value.isFinished ==>
              reply == NotYetFinished
  {
    match gr.registered
    case None => NoGameYet
    case Some(g) =>
      if user != g.creator then ForbidNotCreator
      else if !g.isFinished then NotYetFinished
      else if |words| == 0 then NoWordsAfterDelete
      else if exists i | 0 <= i < |words| :: !InAlphabet(words[i], g.lang) then CharNotInAlphabet
      else StrikeWords
  }

  /** /kick's checks: a registered game, its creator, and a round still running. */
  function KickGuard(gr: Group, user: UserId): (reply: Reply)
    ensures reply == KickChoice <==>
              gr.registered.Some? && user == gr.registered.value.creator && !gr.registered.value.isFinished
    ensures gr.registered.Some? && user == gr.registered.value.creator && gr.registered.value.isFinished ==>
              reply == AlreadyFinished
  {
    match gr.registered
    case None => NoGameYet
    case Some(g) =>
      if user != g.creator then ForbidNotCreator
      else if g.isFinished then AlreadyFinished
      else KickChoice
  }

  /**
   /kill: acts on the registered game, or else on the current one. The creator
   of an unfinished game kills it: it is unregistered, the chat's latest game
   leaves the list, and the lobby closes.
   */
  function Kill(gr: Group, user: UserId): (r: Step)
    ensures gr.registered.None? && CurrentGame(gr).None? ==> r == Step(gr, NoGameYet)
    ensures r.reply == GameKilled <==>
              && (gr.registered.Some? || CurrentGame(gr).Some?)
              && !Forbidden(gr, user)
              && !(if gr.registered.Some? then gr.registered.value else CurrentGame(gr).value).isFinished
              && Latest(gr.games) >= 0
    ensures r.reply == GameKilled ==>
              r.group == gr.(lobbyOpen := false, registered := None, games := RemoveAt(gr.games, Latest(gr.games)))
    ensures r.reply == AlreadyFinished ==> r.group == gr
    ensures r.reply == ForbidNotCreator <==> (gr.registered.Some? || CurrentGame(gr).Some?) && Forbidden(gr, user)
    ensures r.reply == ForbidNotCreator ==> r.group == gr
    ensures && (gr.registered.Some? || CurrentGame(gr).Some?)
            && !Forbidden(gr, user)
            && (if gr.registered.Some? then gr.registered.value else CurrentGame(gr).value).isFinished
            ==> r == Step(gr, AlreadyFinished)
  {
    if gr.registered.None? && CurrentGame(gr).None? then Step(gr, NoGameYet)
    else
      var g := if gr.registered.Some? then gr.registered.value else CurrentGame(gr).value;
      if Forbidden(gr, user) then Step(gr, ForbidNotCreator)
      else if g.isFinished then Step(gr, AlreadyFinished)
      else
        var unregistered := gr.(registered := None);
        var i := Latest(gr.games);
        if i < 0 then Step(unregistered, Crash)
        else Step(unregistered.(games := RemoveAt(gr.games, i), lobbyOpen := false), GameKilled)
  }

  // ---------------------------------------------------------------------------
  // Events and the group invariant.
  // ---------------------------------------------------------------------------

  /** Everything that changes a group: its commands, its private messages and its two timers. */
  datatype Event =
    | NewCmd(user: UserId, now: int)
    | JoinCmd(user: UserId, name: string)
    | LeaveCmd(user: UserId)
    | LobbyTimer(faces: seq<Face>, blocked: nat)
    | StartCmd(user: UserId, faces: seq<Face>, blocked: nat)
    | Message(user: UserId, text: string)
    | RoundTimer
    | EndCmd(user: UserId)
    | DeleteCmd(user: UserId, words: seq<string>)
    | KickCmd(user: UserId)
    | KillCmd(user: UserId)

  /**
   What the environment guarantees: the clock reads a positive time later than
   every game already created, a board has sixteen dice, and the lobby timer
   only fires while its lobby is open.
   */
  predicate EventOk(gr: Group, ev: Event)
  {
    match ev
    case NewCmd(_, now) => now > 0 && forall j | 0 <= j < |gr.games| :: gr.games[j].epoch < now
    case LobbyTimer(faces, _) => gr.lobbyOpen && |faces| == Side * Side
    case StartCmd(_, faces, _) => |faces| == Side * Side
    case _ => true
  }

  /** One event handled, with the intended /endgame. */
  function Apply(gr: Group, ev: Event): (r: Step)
    requires EventOk(gr, ev)
    ensures ev.DeleteCmd? || ev.KickCmd? ==> r.group == gr
    ensures r.group.lobbyOpen && !gr.lobbyOpen ==> ev.NewCmd?
  {
    match ev
    case NewCmd(user, now) => New(gr, user, now)
    case JoinCmd(user, name) => Join(gr, user, name)
    case LeaveCmd(user) => Leave(gr, user)
    case LobbyTimer(faces, blocked) => LobbyExpired(gr, faces, blocked)
    case StartCmd(user, faces, blocked) => StartGame(gr, user, faces, blocked)
    case Message(user, text) => SubmitWord(gr, user, text)
    case RoundTimer => RoundExpired(gr)
    case EndCmd(user) => EndGame(gr, user)
    case DeleteCmd(user, words) => Step(gr, DeleteGuard(gr, user, words))
    case KickCmd(user) => Step(gr, KickGuard(gr, user))
    case KillCmd(user) => Kill(gr, user)
  }

  /** No two games of a chat share a creation epoch. */
  predicate UniqueEpochs(games: seq<Game>)
  {
    forall a, b | 0 <= a < b < |games| :: games[a].epoch != games[b].epoch
  }

  /** Every game was created at a positive time. */
  predicate PositiveEpochs(games: seq<Game>)
  {
    forall j | 0 <= j < |games| :: games[j].epoch > 0
  }

  /** Every listed game's roster has distinct ids and, per participant, distinct word texts. */
  predicate Rosters(games: seq<Game>)
  {
    forall j | 0 <= j < |games| :: WellFormed(games[j].participants)
  }

  /**
   The state every reachable group keeps: epochs identify games, rosters are
   well-formed, the registered game is listed, and an open lobby always has its
   own current game, distinct from the registered one.
   */
  predicate Inv(gr: Group)
  {
    && UniqueEpochs(gr.games)
    && PositiveEpochs(gr.games)
    && Rosters(gr.games)
    && (gr.registered.Some? ==> gr.registered.value in gr.games)
    && (gr.lobbyOpen ==>
          && CurrentGame(gr).Some?
          && (gr.registered.Some? ==> gr.registered.value.epoch != CurrentGame(gr).value.epoch))
  }

  /** A chat that has never used the bot satisfies the invariant. */
  lemma FreshInv(lang: Lang)
    ensures Inv(Fresh(lang))
  {
  }

  /**
   The registered game's roster is well-formed: the deduplication loop's
   precondition and the distinct ids the outcome lemmas need both hold for it.
   */
  lemma RegisteredWellFormed(gr: Group)
    requires Inv(gr) && gr.registered.Some?
    ensures WellFormed(gr.registered.value.participants)
  {
    var j :| 0 <= j < |gr.games| && gr.games[j] == gr.registered.value;
  }

  /**
   The round timer as the bot runs it, through its flagging loop: in a group
   keeping the invariant it agrees with the reference deduplication.
   */
  method FinishRound(gr: Group) returns (r: Step)
    requires Inv(gr)
    ensures r == RoundExpired(gr)
  {
    if gr.registered.None? {
      return Step(gr, RoundTimerIgnored);
    }
    var g := gr.registered.value;
    RegisteredWellFormed(gr);
    var ps := CheckWordsInCommon(g.participants);
    r := Step(Store(gr, g.(isFinished := true, participants := ps)), RoundOver);
  }

  // ---------------------------------------------------------------------------
  // Well-formed rosters.
  // ---------------------------------------------------------------------------

  /** Adding a newcomer with a fresh id and no repeated words keeps a roster well-formed. */
  lemma AddPlayerWellFormed(ps: Roster, p: Player)
    requires WellFormed(ps) && !HasId(ps, p.id) && DistinctTexts(p.words)
    ensures WellFormed(ps + [p])
  {
    var r := ps + [p];
    forall k, q | 0 <= k < q < |r|
      ensures r[k].id != r[q].id
    {
      if q == |ps| {
        assert r[k] == ps[k];
      }
    }
  }

  /** The tail of a well-formed roster is well-formed. */
  lemma TailWellFormed(ps: Roster)
    requires WellFormed(ps) && ps != []
    ensures WellFormed(ps[1..])
  {
    assert forall k | 0 <= k < |ps| - 1 :: ps[1..][k] == ps[k + 1];
  }

  /** A participant put in front of a well-formed roster whose ids all differ from theirs. */
  lemma ConsWellFormed(p: Player, rest: Roster)
    requires WellFormed(rest) && DistinctTexts(p.words)
    requires forall x | x in rest :: x.id != p.id
    ensures WellFormed([p] + rest)
  {
    var r := [p] + rest;
    assert forall q | 0 < q < |r| :: r[q] == rest[q - 1];
  }

  /** Removing a user keeps a roster well-formed. */
  lemma {:induction false} RemoveIdWellFormed(ps: Roster, id: UserId)
    requires WellFormed(ps)
    ensures WellFormed(RemoveId(ps, id))
  {
    if ps != [] {
      var tail := ps[1..];
      TailWellFormed(ps);
      RemoveIdWellFormed(tail, id);
      if ps[0].id != id {
        var rest := RemoveId(tail, id);
        forall x | x in rest
          ensures x.id != ps[0].id
        {
          var t :| 0 <= t < |tail| && tail[t] == x;
          assert ps[t + 1] == x;
        }
        ConsWellFormed(ps[0], rest);
        assert RemoveId(ps, id) == [ps[0]] + rest;
      }
    }
  }

  /** Replacing one participant's words by a list of distinct texts keeps a roster well-formed. */
  lemma UpdateWordsWellFormed(ps: Roster, k: int, ws: seq<Word>)
    requires WellFormed(ps) && 0 <= k < |ps| && DistinctTexts(ws)
    ensures WellFormed(ps[k := ps[k].(words := ws)])
  {
  }

  // ---------------------------------------------------------------------------
  // Helper facts about the list operations.
  // ---------------------------------------------------------------------------

  /** Latest depends only on the epochs, position by position. */
  lemma LatestSameEpochs(a: seq<Game>, b: seq<Game>)
    requires |a| == |b| && forall j | 0 <= j < |a| :: a[j].epoch == b[j].epoch
    ensures Latest(a) == Latest(b)
  {
    var i := Latest(a);
    if i >= 0 {
      assert LatestAt(b, i);
      LatestUnique(b, i);
    }
  }

  /** A registered game that was listed is listed, updated, after a store. */
  lemma RegisteredStaysListed(gr: Group, g: Game, r: Group)
    requires r.games == Replace(gr.games, g)
    requires r.registered == if gr.registered.Some? && gr.registered.value.epoch == g.epoch then Some(g) else gr.registered
    ensures gr.registered.Some? && gr.registered.value in gr.games ==> r.registered.value in r.games
  {
    if gr.registered.Some? && gr.registered.value in gr.games {
      var j :| 0 <= j < |gr.games| && gr.games[j] == gr.registered.value;
      assert r.games[j] == r.registered.value;
    }
  }

  /** Removing an entry keeps epochs unique and positive. */
  lemma RemoveAtKeeps(games: seq<Game>, i: int)
    requires 0 <= i < |games| && UniqueEpochs(games) && PositiveEpochs(games)
    ensures UniqueEpochs(RemoveAt(games, i)) && PositiveEpochs(RemoveAt(games, i))
    ensures Rosters(games) ==> Rosters(RemoveAt(games, i))
    ensures forall j | 0 <= j < |games| && j != i :: games[j] in RemoveAt(games, i)
  {
    var r := RemoveAt(games, i);
    forall j | 0 <= j < |games| && j != i
      ensures games[j] in r
    {
      if j < i { assert r[j] == games[j]; } else { assert r[j - 1] == games[j]; }
    }
  }

  /** Storing a game that is listed keeps the first three parts of the invariant. */
  lemma StoreKeeps(gr: Group, g: Game)
    requires UniqueEpochs(gr.games) && PositiveEpochs(gr.games)
    requires Rosters(gr.games) && WellFormed(g.participants)
    ensures UniqueEpochs(Store(gr, g).games) && PositiveEpochs(Store(gr, g).games)
    ensures Rosters(Store(gr, g).games)
  {
  }

  /**
   Storing a game keeps the invariant when an open lobby's current game either
   is not the stored one or stays unfinished.
   */
  lemma StoreInv(gr: Group, g: Game)
    requires Inv(gr) && WellFormed(g.participants)
    requires gr.lobbyOpen ==> g.epoch != CurrentGame(gr).value.epoch || (g.epoch == CurrentGame(gr).value.epoch && !g.isFinished)
    requires gr.lobbyOpen && gr.registered.Some? && g.epoch == gr.registered.value.epoch ==> g.epoch != CurrentGame(gr).value.epoch
    ensures Inv(Store(gr, g))
  {
    StoreKeeps(gr, g);
  }

  /** Dealing keeps the first three parts of the invariant and closes nothing that was open. */
  lemma DealKeeps(gr: Group, c: Game, faces: seq<Face>, blocked: nat)
    requires |faces| == Side * Side && !gr.lobbyOpen
    requires UniqueEpochs(gr.games) && PositiveEpochs(gr.games) && Rosters(gr.games)
    requires gr.registered.Some? ==> gr.registered.value in gr.games
    requires c in gr.games
    ensures Inv(Deal(gr, c, faces, blocked).group)
  {
    var started := c.(grid := BuildGrid(faces));
    var dealt := Store(gr, started).(registered := Some(started));
    var j :| 0 <= j < |gr.games| && gr.games[j] == c;
    StoreKeeps(gr, started);
    assert dealt.games[j] == started;
    if blocked > 0 {
      var i := Latest(dealt.games);
      if i >= 0 {
        RemoveAtKeeps(dealt.games, i);
      }
    }
  }

  // ---------------------------------------------------------------------------
  // The invariant, event by event.
  // ---------------------------------------------------------------------------

  /** /new appends a game newer than all others, which becomes the current game. */
  lemma NewInv(gr: Group, user: UserId, now: int)
    requires Inv(gr) && now > 0 && forall j | 0 <= j < |gr.games| :: gr.games[j].epoch < now
    ensures Inv(New(gr, user, now).group)
    ensures !gr.lobbyOpen ==> CurrentGame(New(gr, user, now).group) == Some(Game(now, user, gr.lang, [], false, map[]))
  {
    if !gr.lobbyOpen {
      var r := New(gr, user, now).group;
      assert LatestAt(r.games, |gr.games|);
      LatestUnique(r.games, |gr.games|);
      if gr.registered.Some? {
        assert gr.registered.value in r.games;
      }
    }
  }

  lemma JoinInv(gr: Group, user: UserId, name: string)
    requires Inv(gr)
    ensures Inv(Join(gr, user, name).group)
  {
    if Join(gr, user, name).reply == GameJoined {
      var c := CurrentGame(gr).value;
      AddPlayerWellFormed(c.participants, Player(user, name, []));
      StoreInv(gr, c.(participants := c.participants + [Player(user, name, [])]));
    }
  }

  lemma LeaveInv(gr: Group, user: UserId)
    requires Inv(gr)
    ensures Inv(Leave(gr, user).group)
  {
    if Leave(gr, user).reply == GameLeft {
      var c := CurrentGame(gr).value;
      RemoveIdWellFormed(c.participants, user);
      StoreInv(gr, c.(participants := RemoveId(c.participants, user)));
    }
  }

  lemma LobbyExpiredInv(gr: Group, faces: seq<Face>, blocked: nat)
    requires Inv(gr) && gr.lobbyOpen && |faces| == Side * Side
    ensures Inv(LobbyExpired(gr, faces, blocked).group)
  {
    var i := Latest(gr.games);
    var c := CurrentGame(gr).value;
    RemoveAtKeeps(gr.games, i);
    if c.participants != [] {
      DealKeeps(gr.(lobbyOpen := false), c, faces, blocked);
    } else if gr.registered.Some? {
      var j :| 0 <= j < |gr.games| && gr.games[j] == gr.registered.value;
      assert j != i;
    }
  }

  lemma StartGameInv(gr: Group, user: UserId, faces: seq<Face>, blocked: nat)
    requires Inv(gr) && |faces| == Side * Side
    ensures Inv(StartGame(gr, user, faces, blocked).group)
  {
    match CurrentGame(gr)
    case None =>
    case Some(c) =>
      if c.participants != [] && !Forbidden(gr, user) {
        DealKeeps(gr.(lobbyOpen := false), c, faces, blocked);
      }
  }

  lemma SubmitWordInv(gr: Group, user: UserId, message: string)
    requires Inv(gr)
    ensures Inv(SubmitWord(gr, user, message).group)
  {
    if SubmitWord(gr, user, message).reply != NotInGame {
      var g := gr.registered.value;
      var k := IndexOfId(g.participants, user);
      var s := Submit(g.participants[k].words, message, g.lang, g.grid);
      RegisteredWellFormed(gr);
      UpdateWordsWellFormed(g.participants, k, s.words);
      StoreInv(gr, g.(participants := g.participants[k := g.participants[k].(words := s.words)]));
    }
  }

  lemma RoundExpiredInv(gr: Group)
    requires Inv(gr)
    ensures Inv(RoundExpired(gr).group)
  {
    if gr.registered.Some? {
      var g := gr.registered.value;
      RegisteredWellFormed(gr);
      DedupWellFormed(g.participants);
      StoreInv(gr, g.(isFinished := true, participants := Deduplicated(g.participants)));
    }
  }

  /** Moving the entry at i to the end, as g with the same epoch, keeps epochs unique and positive. */
  lemma MoveToEndKeeps(games: seq<Game>, i: int, g: Game)
    requires UniqueEpochs(games) && PositiveEpochs(games)
    requires 0 <= i < |games| && games[i].epoch == g.epoch
    ensures UniqueEpochs(RemoveAt(games, i) + [g]) && PositiveEpochs(RemoveAt(games, i) + [g])
    ensures Rosters(games) && WellFormed(g.participants) ==> Rosters(RemoveAt(games, i) + [g])
  {
    var rest := RemoveAt(games, i);
    RemoveAtKeeps(games, i);
    forall a | 0 <= a < |rest|
      ensures rest[a].epoch != g.epoch
    {
      if a < i { assert rest[a] == games[a]; } else { assert rest[a] == games[a + 1]; }
    }
  }

  /** Moving another entry to the end keeps the latest game (at its shifted position). */
  lemma MoveToEndLatest(games: seq<Game>, i: int, g: Game, l: int)
    requires UniqueEpochs(games) && PositiveEpochs(games)
    requires 0 <= i < |games| && games[i].epoch == g.epoch
    requires LatestAt(games, l) && l != i
    ensures var moved := RemoveAt(games, i) + [g];
            Latest(moved) >= 0 && moved[Latest(moved)] == games[l]
  {
    var rest := RemoveAt(games, i);
    var moved := rest + [g];
    var c := games[l];
    var l' := if l < i then l else l - 1;
    assert moved[l'] == c;
    forall a | 0 <= a < |moved|
      ensures moved[a].epoch <= c.epoch
    {
      if a == |rest| {
        assert moved[a] == g;
      } else if a < i {
        assert moved[a] == games[a];
      } else {
        assert moved[a] == games[a + 1];
      }
    }
    forall a | 0 <= a < l'
      ensures moved[a].epoch < c.epoch
    {
      if a < i { assert moved[a] == games[a]; } else { assert moved[a] == games[a + 1]; }
    }
    assert LatestAt(moved, l');
    LatestUnique(moved, l');
  }

  /** The settled game moves to the end of the list; the lobby's game keeps being the latest. */
  lemma EndGameInv(gr: Group, user: UserId)
    requires Inv(gr)
    ensures Inv(EndGame(gr, user).group)
  {
    if EndGuard(gr, user).None? {
      var g := gr.registered.value;
      var i := IndexOfEpoch(gr.games, g.epoch);
      RegisteredWellFormed(gr);
      MoveToEndKeeps(gr.games, i, g);
      if gr.lobbyOpen {
        MoveToEndLatest(gr.games, i, g, Latest(gr.games));
      }
    }
  }

  lemma KillInv(gr: Group, user: UserId)
    requires Inv(gr)
    ensures Inv(Kill(gr, user).group)
  {
    var i := Latest(gr.games);
    if i >= 0 {
      RemoveAtKeeps(gr.games, i);
    }
  }

  /** Every event keeps the invariant. */
  lemma InvPreserved(gr: Group, ev: Event)
    requires Inv(gr) && EventOk(gr, ev)
    ensures Inv(Apply(gr, ev).group)
  {
    match ev
    case NewCmd(user, now) => NewInv(gr, user, now);
    case JoinCmd(user, name) => JoinInv(gr, user, name);
    case LeaveCmd(user) => LeaveInv(gr, user);
    case LobbyTimer(faces, blocked) => LobbyExpiredInv(gr, faces, blocked);
    case StartCmd(user, faces, blocked) => StartGameInv(gr, user, faces, blocked);
    case Message(user, text) => SubmitWordInv(gr, user, text);
    case RoundTimer => RoundExpiredInv(gr);
    case EndCmd(user) => EndGameInv(gr, user);
    case DeleteCmd(_, _) =>
    case KickCmd(_) =>
    case KillCmd(user) => KillInv(gr, user);
  }

  /** Handles a sequence of events in order; None when one of them is not one the environment can produce. */
  function Run(gr: Group, evs: seq<Event>): (r: Option<Group>)
    ensures evs == [] ==> r == Some(gr)
    decreases |evs|
  {
    if evs == [] then Some(gr)
    else if !EventOk(gr, evs[0]) then None
    else Run(Apply(gr, evs[0]).group, evs[1..])
  }

  /** A run that starts with ev goes on from the group ev leads to. */
  lemma RunCons(gr: Group, ev: Event, rest: seq<Event>, next: Group, result: Option<Group>)
    requires EventOk(gr, ev) && Apply(gr, ev).group == next && Run(next, rest) == result
    ensures Run(gr, [ev] + rest) == result
  {
    assert ([ev] + rest)[1..] == rest;
  }

  /** Every group reachable from a state keeping the invariant keeps it too. */
  lemma {:induction false} RunKeepsInv(gr: Group, evs: seq<Event>)
    requires Inv(gr)
    ensures Run(gr, evs).Some? ==> Inv(Run(gr, evs).value)
    decreases |evs|
  {
    if evs != [] && EventOk(gr, evs[0]) {
      InvPreserved(gr, evs[0]);
      RunKeepsInv(Apply(gr, evs[0]).group, evs[1..]);
    }
  }

  /** Every group reachable from a fresh chat keeps the invariant. */
  lemma ReachableInv(lang: Lang, evs: seq<Event>)
    ensures Run(Fresh(lang), evs).Some? ==> Inv(Run(Fresh(lang), evs).value)
  {
    FreshInv(lang);
    RunKeepsInv(Fresh(lang), evs);
  }

  /**
   In a group keeping the invariant, the only event that makes the bot fail is a
   deal to a participant who never opened a private chat with it.
   */
  lemma NoCrash(gr: Group, ev: Event)
    requires Inv(gr) && EventOk(gr, ev)
    ensures Apply(gr, ev).reply != Crash || ((ev.LobbyTimer? || ev.StartCmd?) && ev.blocked > 0)
  {
    if ev.KillCmd? && (gr.registered.Some? || CurrentGame(gr).Some?) && gr.registered.Some? {
      var j :| 0 <= j < |gr.games| && gr.games[j] == gr.registered.value;
      assert gr.games[j].epoch > 0;
    }
  }

  // ---------------------------------------------------------------------------
  // The /endgame discrepancy.
  // ---------------------------------------------------------------------------

  /**
   A round of creator 7 has finished while creator 8's newer lobby is open. The
   bot's /endgame drops the lobby's game instead of the settled one: the settled
   game is listed twice, the lobby stays open without a current game, and the
   next /join fails.
   */
  lemma EndGameAsWrittenStrandsLobby()
    ensures var settled := Game(1, 7, Eng, [], true, map[]);
            var lobby := Game(2, 8, Eng, [], false, map[]);
            var gr := Group(true, [settled, lobby], Some(settled), Eng);
            var r := EndGameAsWritten(gr, 7);
            && Inv(gr)
            && r.reply.Results?
            && r.group.games == [settled, settled]
            && r.group.lobbyOpen && CurrentGame(r.group) == None
            && !Inv(r.group)
            && Join(r.group, 9, "@nine").reply == Crash
  {
    var settled := Game(1, 7, Eng, [], true, map[]);
    var lobby := Game(2, 8, Eng, [], false, map[]);
    var gr := Group(true, [settled, lobby], Some(settled), Eng);
    assert LatestAt(gr.games, 1);
    LatestUnique(gr.games, 1);
    assert CurrentGame(gr) == Some(lobby);
    assert Inv(gr);
    assert EndGuard(gr, 7) == None;
    var games := [settled, settled];
    assert RemoveAt(gr.games, 1) + [settled] == games;
    var stranded := Group(true, games, None, Eng);
    assert EndGameAsWritten(gr, 7).group == stranded;
    assert LatestAt(games, 0);
    LatestUnique(games, 0);
    assert CurrentGame(stranded) == None;
    assert !UniqueEpochs(games);
  }

  /** From the same state, the intended /endgame keeps the lobby's game current and /join admits a newcomer. */
  lemma EndGameKeepsLobby()
    ensures var settled := Game(1, 7, Eng, [], true, map[]);
            var lobby := Game(2, 8, Eng, [], false, map[]);
            var gr := Group(true, [settled, lobby], Some(settled), Eng);
            var r := EndGame(gr, 7);
            && r.group.games == [lobby, settled]
            && CurrentGame(r.group) == Some(lobby)
            && Join(r.group, 9, "@nine").reply == GameJoined
  {
    var settled := Game(1, 7, Eng, [], true, map[]);
    var lobby := Game(2, 8, Eng, [], false, map[]);
    var gr := Group(true, [settled, lobby], Some(settled), Eng);
    assert EndGuard(gr, 7) == None;
    assert IndexOfEpoch(gr.games, 1) == 0;
    var games := [lobby, settled];
    assert RemoveAt(gr.games, 0) + [settled] == games;
    var kept := Group(true, games, None, Eng);
    assert EndGame(gr, 7).group == kept;
    assert LatestAt(games, 0);
    LatestUnique(games, 0);
    assert CurrentGame(kept) == Some(lobby);
    assert !HasId(lobby.participants, 9);
  }

  /** The first game of a fresh chat: opened and joined by user 7. */
  lemma ReachJoined()
    ensures var g0 := Game(1, 7, Eng, [], false, map[]);
            var s1 := Group(true, [g0], None, Eng);
            && Apply(Fresh(Eng), NewCmd(7, 1)).group == s1
            && Apply(s1, JoinCmd(7, "@seven")).group == Group(true, [g0.(participants := [Player(7, "@seven", [])])], None, Eng)
  {
    var g0 := Game(1, 7, Eng, [], false, map[]);
    var g1 := g0.(participants := [Player(7, "@seven", [])]);
    var s1 := Group(true, [g0], None, Eng);
    assert CurrentGame(s1) == Some(g0) by {
      assert LatestAt(s1.games, 0);
    }
    assert !HasId(g0.participants, 7);
    assert g0.(participants := g0.participants + [Player(7, "@seven", [])]) == g1;
    assert Replace(s1.games, g1) == [g1];
  }

  /** User 7 starts the round and user 8 opens a new lobby while it runs. */
  lemma ReachLobbyDuringRound(g1: Game, faces: seq<Face>)
    requires |faces| == Side * Side && g1.epoch == 1 && g1.creator == 7 && !g1.isFinished && g1.participants != []
    ensures var g2 := g1.(grid := BuildGrid(faces));
            var s3 := Group(false, [g2], Some(g2), Eng);
            var lobby := Game(2, 8, Eng, [], false, map[]);
            && Apply(Group(true, [g1], None, Eng), StartCmd(7, faces, 0)).group == s3
            && Apply(s3, NewCmd(8, 2)).group == Group(true, [g2, lobby], Some(g2), Eng)
  {
    var s2 := Group(true, [g1], None, Eng);
    var g2 := g1.(grid := BuildGrid(faces));
    assert CurrentGame(s2) == Some(g1) by {
      assert LatestAt(s2.games, 0);
    }
    assert Replace(s2.games, g2) == [g2];
  }

  /** The round of game 1 ends while the lobby of game 2 is open. */
  lemma ReachRoundOver(g2: Game, lobby: Game)
    requires g2.epoch == 1 && lobby.epoch == 2
    ensures var g3 := g2.(isFinished := true, participants := Deduplicated(g2.participants));
            Apply(Group(true, [g2, lobby], Some(g2), Eng), RoundTimer).group == Group(true, [g3, lobby], Some(g3), Eng)
  {
    var g3 := g2.(isFinished := true, participants := Deduplicated(g2.participants));
    assert Replace([g2, lobby], g3) == [g3, lobby];
  }

  /** Settling game 1 while game 2's lobby is open strands the lobby. */
  lemma ReachStranded(g3: Game, lobby: Game)
    requires g3.epoch == 1 && g3.creator == 7 && g3.isFinished
    requires lobby.epoch == 2
    ensures var s6 := EndGameAsWritten(Group(true, [g3, lobby], Some(g3), Eng), 7);
            s6.reply.Results? && Join(s6.group, 9, "@nine").reply == Crash
  {
    var s5 := Group(true, [g3, lobby], Some(g3), Eng);
    assert Latest(s5.games) == 1 by {
      assert LatestAt(s5.games, 1);
      LatestUnique(s5.games, 1);
    }
    var s6 := EndGameAsWritten(s5, 7);
    assert s6.group.games == [g3, g3];
    assert Latest(s6.group.games) == 0 by {
      assert LatestAt(s6.group.games, 0);
      LatestUnique(s6.group.games, 0);
    }
  }

  /**
   The stranded lobby arises from ordinary use: 7 opens a game, joins and starts
   it; 8 opens a new lobby during the round; the round ends; 7 sends /endgame;
   then 9's /join fails.
   */
  lemma StrandedLobbyReachable(faces: seq<Face>)
    requires |faces| == Side * Side
    ensures var seven := [Player(7, "@seven", [])];
            var g3 := Game(1, 7, Eng, Deduplicated(seven), true, BuildGrid(faces));
            var s5 := Group(true, [g3, Game(2, 8, Eng, [], false, map[])], Some(g3), Eng);
            var s6 := EndGameAsWritten(s5, 7);
            && Run(Fresh(Eng), [NewCmd(7, 1), JoinCmd(7, "@seven"), StartCmd(7, faces, 0), NewCmd(8, 2), RoundTimer]) == Some(s5)
            && s6.reply.Results?
            && Join(s6.group, 9, "@nine").reply == Crash
  {
    var seven := [Player(7, "@seven", [])];
    var g0 := Game(1, 7, Eng, [], false, map[]);
    var g1 := Game(1, 7, Eng, seven, false, map[]);
    var g2 := Game(1, 7, Eng, seven, false, BuildGrid(faces));
    var g3 := Game(1, 7, Eng, Deduplicated(seven), true, BuildGrid(faces));
    var lobby := Game(2, 8, Eng, [], false, map[]);
    var s1 := Group(true, [g0], None, Eng);
    var s2 := Group(true, [g1], None, Eng);
    var s3 := Group(false, [g2], Some(g2), Eng);
    var s4 := Group(true, [g2, lobby], Some(g2), Eng);
    var s5 := Group(true, [g3, lobby], Some(g3), Eng);
    ReachJoined();
    ReachLobbyDuringRound(g1, faces);
    ReachRoundOver(g2, lobby);
    RunCons(s4, RoundTimer, [], s5, Some(s5));
    RunCons(s3, NewCmd(8, 2), [RoundTimer], s4, Some(s5));
    RunCons(s2, StartCmd(7, faces, 0), [NewCmd(8, 2), RoundTimer], s3, Some(s5));
    RunCons(s1, JoinCmd(7, "@seven"), [StartCmd(7, faces, 0), NewCmd(8, 2), RoundTimer], s2, Some(s5));
    RunCons(Fresh(Eng), NewCmd(7, 1), [JoinCmd(7, "@seven"), StartCmd(7, faces, 0), NewCmd(8, 2), RoundTimer], s1, Some(s5));
    ReachStranded(g3, lobby);
  }
}
