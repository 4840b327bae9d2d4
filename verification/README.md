# Boggle Telegram bot — a Dafny model of its game core

The bot runs Boggle rounds in Telegram groups. A member opens a lobby with
`/new`, others `/join` (or `/leave`), and the creator starts the round with
`/startgame`; if nobody starts it, the lobby timer does. Each participant is
sent a 4x4 board and sends words privately. Every word is checked against the
language's alphabet, the minimum length, and the "q without u" rule. It must
then be traceable on the board along a path of distinct adjacent cells. A
traced word is stored once, with points given by its length. When the round
timer fires, words sent by more than one player are flagged and stop counting.
`/endgame` then adds up the scores and names the winners.

The project has these modules:

- `Optional` (option.dfy): the option type.
- `Board` (board.dfy): faces, alphabets, and laying out the 4x4 grid, with "Qu" as the single symbol `q`.
- `Adjacency` (adjacency.dfy): the neighbour table, clipped to the grid.
- `Tracer` (tracer.dfy): the backtracking path search. It is proved sound and complete against "some simple adjacent path spells the word".
- `Records` (records.dfy): words and participants. The bot's insertion-ordered dictionaries are sequences with distinct keys.
- `Submission` (submission.dfy): the private-message pipeline: lower-casing, filters, the `qu` fold and expansion, and the points table.
- `Dedup` (dedup.dfy): flagging words held by several players. The bot's nested loop is proved equal to a declarative definition.
- `Settlement` (settlement.dfy): scores, total, maximum and winners, and the won/even/lost classification.
- `Lifecycle` (lifecycle.dfy): a group's state machine. It covers the lobby, the current-game lookup, both timers as events, and the guards of `/endgame`, `/delete`, `/kick` and `/kill`. With the corrected `/endgame` of the findings below, every event keeps an invariant.

The game state works as follows:

- A group's state is the lobby flag, the chat's list of games and the game registered as running.
- In the bot, the registered game and its list entry are the same dictionary. The model identifies a game by its creation epoch, and `Lifecycle.Store` writes an update to every place that holds the game.
- Messages, threads and the clock are abstracted as inputs. The clock is an event parameter, and the dice faces and the number of participants who blocked the bot are parameters of the deal.

## Model

| member | source | states |
|---|---|---|
| Board.BuildGrid | boggle_telegram_bot.py:241-244 | the grid covers exactly the 16 cells, and cell (r, c) holds the lower-cased symbol of face 4r+c, with "Qu" as `q` |
| Board.BuildGridRowMajor | boggle_telegram_bot.py:241-244 | reading the built grid row by row gives back the faces' symbols in order |
| Board.QuIsSingleSymbol | boggle_telegram_bot.py:242-244 | a cell reads `q` exactly when its face is "Qu" (other faces being single upper-case letters other than Q) |
| Adjacency.Candidates | boggle_telegram_bot.py:1147-1163 | the eight surrounding coordinates are listed, and they are exactly the cells adjacent to p |
| Adjacency.KeepOnGrid | boggle_telegram_bot.py:1143 | the filter keeps exactly the candidates that are cells of the grid, and never more of them |
| Adjacency.GridNeighbours | boggle_telegram_bot.py:1147-1163 | q is listed as a neighbour of p exactly when q is on the grid, differs from p, and is at most one row and one column away; at most 8 are listed |
| Adjacency.AllNeighbours | boggle_telegram_bot.py:1139-1144 | the table has an entry for every cell, and that entry lists exactly that cell's adjacent on-grid cells |
| Adjacency.NeighbourCount | boggle_telegram_bot.py:1147-1163 | on the full 4x4 board every cell has between 3 and 8 neighbours |
| Adjacency.NeighboursSymmetric | boggle_telegram_bot.py:1147-1163 | q is a neighbour of p exactly when p is a neighbour of q |
| Tracer.Spell | boggle_telegram_bot.py:1166-1167 | a path spells a string of its own length whose i-th symbol is the i-th cell's |
| Tracer.Stems | boggle_telegram_bot.py:1117 | the pruning set holds exactly the non-empty proper prefixes of the word |
| Tracer.Search | boggle_telegram_bot.py:1119-1127 | a search accepts a path that already spells the word, and accepts only from a path spelling a prefix of the word |
| Tracer.Extend | boggle_telegram_bot.py:1125-1127 | a path is only extended while it is shorter than the word |
| Tracer.SearchSound | boggle_telegram_bot.py:1119-1130 | a successful search from a simple path yields a simple path spelling the word |
| Tracer.SearchComplete | boggle_telegram_bot.py:1119-1130 | every prefix of a simple path that spells the word is a successful search state |
| Tracer.Validate | boggle_telegram_bot.py:1112-1136 | the tracer accepts exactly when some sequence of distinct cells, each adjacent to the previous, spells the word |
| Tracer.ValidateCorrect | boggle_telegram_bot.py:1129-1136 | trying every start cell succeeds exactly when the word is traceable |
| Tracer.EmptyWordRejected | boggle_telegram_bot.py:1112-1136 | the empty word is rejected |
| Tracer.AbsentSymbolRejected | boggle_telegram_bot.py:1112-1136 | a word using a symbol that is on no cell is rejected |
| Tracer.TooLongRejected | boggle_telegram_bot.py:1112-1136 | a word longer than the number of cells is rejected |
| Submission.Lower | boggle_telegram_bot.py:298 | the lower-cased message has the same length, character by character lower-cased |
| Submission.Fold | boggle_telegram_bot.py:313 | folding "qu" keeps at least half of the letters and never adds any; a word without "qu" is unchanged |
| Submission.Expand | boggle_telegram_bot.py:319 | expanding `q` at most doubles the length and never shortens it; a word without `q` is unchanged |
| Submission.FoldExpand | boggle_telegram_bot.py:313-319 | folding "qu" after expanding `q` gives the word back |
| Submission.ExpandFold | boggle_telegram_bot.py:313-319 | when every `q` is followed by `u`, expanding the folded word gives the word back |
| Submission.Points | boggle_telegram_bot.py:1170-1183 | no points below length 3, at most 11, and exactly 11 from length 8 up |
| Submission.PointsMonotone | boggle_telegram_bot.py:1170-1183 | a longer word never scores fewer points |
| Submission.Insert | boggle_telegram_bot.py:322-330 | a word already held is refused and nothing changes; otherwise it is appended once with its points and both flags clear |
| Submission.Submit | boggle_telegram_bot.py:298-330 | each reply (foreign character, too short, q without u, not traceable, already sent, accepted) happens exactly under its condition; only an accepted word changes the list, by appending the expanded word with its points; distinct texts stay distinct |
| Submission.AcceptedStoresTypedWord | boggle_telegram_bot.py:313-327 | when every `q` is followed by `u`, the stored word is the lower-cased message itself |
| Submission.ResubmitIsRejected | boggle_telegram_bot.py:322-330 | sending an accepted word again is answered "already sent" and leaves the list unchanged |
| Dedup.Raise | boggle_telegram_bot.py:1197-1200 | a flag is only ever raised: text, points and strike mark are kept |
| Dedup.Deduplicated | boggle_telegram_bot.py:1186-1200 | players, names and word lists are kept, and an entry's flag is raised exactly when another participant holds the same word unflagged |
| Dedup.CheckWordsInCommon | boggle_telegram_bot.py:1186-1200 | the bot's nested comparison loop computes exactly the declarative deduplication, whatever the initial flags |
| Dedup.NoSharedCountedWord | boggle_telegram_bot.py:1186-1200 | afterwards no word is held unflagged by two different participants |
| Dedup.DedupIdempotent | boggle_telegram_bot.py:1186-1200 | running the deduplication a second time changes nothing |
| Dedup.FreshRoundFlags | boggle_telegram_bot.py:1186-1200 | starting from all flags clear, an entry ends up flagged exactly when some other participant holds the same word |
| Settlement.Score | boggle_telegram_bot.py:431-441 | a player with no counted entry scores 0, and one counted entry with points makes the score positive |
| Settlement.MaxScore | boggle_telegram_bot.py:443-446 | -1 exactly when nobody took part; otherwise an upper bound of all scores that some player attains |
| Settlement.Top | boggle_telegram_bot.py:448-451 | a player is collected exactly when their score equals the given value |
| Settlement.PlayerPoints | boggle_telegram_bot.py:432-439 | the inner loop gives one player's counted points and adds each of them to the running total |
| Settlement.SumPoints | boggle_telegram_bot.py:428-441 | the loop gives each player the points of their unflagged, unstruck entries, and a total that is the sum of all scores |
| Settlement.MaxPoints | boggle_telegram_bot.py:443-446 | the loop's maximum, started from -1, is the best score |
| Settlement.CollectWinners | boggle_telegram_bot.py:448-451 | the loop collects exactly the players holding the maximum, in participation order |
| Settlement.Settle | boggle_telegram_bot.py:428-452 | settlement yields each player's score, the total, the maximum and the winners; this is the value `/endgame` reports |
| Settlement.WinnersNonEmpty | boggle_telegram_bot.py:443-452 | there is a winner exactly when somebody took part |
| Settlement.WinnerIffTop | boggle_telegram_bot.py:443-452 | a participant is a winner exactly when nobody scored more |
| Settlement.NameOf | boggle_telegram_bot.py:466-474 | looking a user up among the winners gives a winner's stored name when present, and the falsy empty name otherwise |
| Settlement.Classify | boggle_telegram_bot.py:466-474 | "won" or "even" only for a user found among the winners under a non-empty name; "won" only with a single winner and "even" only with several; a user absent from the winners lost |
| Settlement.NamedWinner | boggle_telegram_bot.py:449-451 | a participant's winner entry is truthy exactly when they hold the best score |
| Settlement.WonIffUniqueTop | boggle_telegram_bot.py:466-468 | "won" exactly when every other participant scored strictly less |
| Settlement.EvenIffSharedTop | boggle_telegram_bot.py:469-471 | "even" exactly when the participant holds the best score and someone else holds it too |
| Settlement.LostIffBeaten | boggle_telegram_bot.py:472-474 | "lost" exactly when somebody scored more |
| Settlement.AcceptedRaisesScore | boggle_telegram_bot.py:322-327 | an accepted word raises the sender's score by exactly its points |
| Settlement.ScoreAntitone | boggle_telegram_bot.py:431-441 | raising flags never raises a score |
| Settlement.DedupNeverRaisesScore | boggle_telegram_bot.py:1186-1200 | deduplication never raises anybody's score |
| Lifecycle.Latest | boggle_telegram_bot.py:1033-1041 | the lookup returns the first game with the largest epoch, or none when no epoch is positive |
| Lifecycle.LatestUnique | boggle_telegram_bot.py:1033-1041 | the characterisation of the latest game pins down one index |
| Lifecycle.CurrentGame | boggle_telegram_bot.py:1044-1046 | the current game is the latest one when it exists and is unfinished, and none otherwise |
| Lifecycle.CurrentGameIsLatest | boggle_telegram_bot.py:1033-1046 | the current game is the game at the index that holds the largest positive epoch first, when that game is unfinished; with no such index, or a finished game there, there is none |
| Lifecycle.Store | boggle_telegram_bot.py:246-247 | an update to a game is visible both in the chat's list and in the registered slot; the latest game stays at the same index; the current game reads the update when it is the stored game and is unchanged otherwise; a listed registered game stays listed |
| Lifecycle.RemoveId | boggle_telegram_bot.py:1024-1030 | removing a user keeps exactly the other participants |
| Lifecycle.New | boggle_telegram_bot.py:78-103 | /new opens a lobby with a fresh empty game exactly when none is open, and otherwise changes nothing |
| Lifecycle.Join | boggle_telegram_bot.py:124-159 | /join adds the user exactly when a lobby is open, its game is current, and the user is absent; it fails exactly when the lobby has no current game; otherwise nothing changes |
| Lifecycle.Leave | boggle_telegram_bot.py:177-205 | /leave removes the user exactly when a lobby is open, its game is current, and the user is present; it fails exactly when the lobby has no current game; otherwise nothing changes |
| Lifecycle.Deal | boggle_telegram_bot.py:238-269 | dealing registers the game with the built grid; a participant who blocked the bot unregisters it, removes the latest entry of the updated list, and makes the handler fail |
| Lifecycle.Forbidden | boggle_telegram_bot.py:1049-1061 | the creator checked is the registered game's, or with none registered, the current game's |
| Lifecycle.StartGame | boggle_telegram_bot.py:208-269 | /startgame refuses when there is no current game or it is empty; it refuses a sender who is not the creator exactly when the game is non-empty, changing nothing; it starts exactly when the sender is the creator and nobody blocked the bot, closing the lobby and registering the game with its participants; a blocked participant makes it fail with the lobby closed and nothing registered; once past the refusals it is exactly the deal of the current game with the lobby closed, and a started game's list entry is replaced by the dealt game |
| Lifecycle.LobbyExpired | boggle_telegram_bot.py:895-904 | the lobby timer closes the lobby; it discards the current game when nobody joined, and otherwise is exactly the deal of that game, which starts it precisely when nobody blocked the bot; without a current game it fails |
| Lifecycle.SubmitWord | boggle_telegram_bot.py:272-330 | a message is refused exactly when no unfinished registered game holds the sender; otherwise the sender's words go through the submission pipeline and the game is stored |
| Lifecycle.RoundExpired | boggle_telegram_bot.py:907-913 | the round timer does nothing when no game is registered; otherwise the game finishes and its shared words are flagged |
| Lifecycle.EndGuard | boggle_telegram_bot.py:411-423 | /endgame proceeds exactly when a game is registered, the sender created it, and it has finished; an unfinished game is answered "not yet finished" |
| Lifecycle.EndGameAsWritten | boggle_telegram_bot.py:399-514 | /endgame as written: after the guards it reports the settlement, removes the chat's latest game, appends the settled one, and unregisters it |
| Lifecycle.EndGame | boggle_telegram_bot.py:399-514 | /endgame as intended: after the guards it reports the settlement, moves the settled game's own entry to the end, and unregisters it |
| Lifecycle.DeleteGuard | boggle_telegram_bot.py:344-372 | /delete reaches the striking step exactly when a game is registered, the sender created it, it has finished, and at least one word is given and all its characters are in the alphabet |
| Lifecycle.KickGuard | boggle_telegram_bot.py:528-542 | /kick offers the choice exactly when a game is registered, the sender created it, and it is still running; a finished game is refused |
| Lifecycle.Kill | boggle_telegram_bot.py:559-614 | /kill with no game does nothing; a sender who is not the creator is refused exactly when there is a game, and nothing changes; the creator of a finished game is answered "already finished" and nothing changes; it kills exactly when the sender created the unfinished registered or current game, which unregisters it, drops the latest game and closes the lobby |
| Lifecycle.Apply | boggle_telegram_bot.py:66-614 | /delete and /kick change nothing, and only /new opens a lobby |
| Lifecycle.Fresh | boggle_telegram_bot.py:948-963 | a chat that has never used the bot has no lobby, no games and nothing registered; it keeps the invariant and has no current game |
| Lifecycle.FreshInv | boggle_telegram_bot.py:948-963 | a chat that has never used the bot satisfies the invariant |
| Lifecycle.RegisteredWellFormed | boggle_telegram_bot.py:124-159 | while the invariant holds, the running game's participants have distinct ids and each stores a word text at most once |
| Lifecycle.FinishRound | boggle_telegram_bot.py:907-913 | while the invariant holds, the round timer run through the bot's flagging loop gives the same state and reply as the reference deduplication |
| Lifecycle.AddPlayerWellFormed | boggle_telegram_bot.py:1013-1021 | adding a user who is not yet in the game, with no words, keeps the roster well-formed |
| Lifecycle.RemoveIdWellFormed | boggle_telegram_bot.py:1024-1030 | removing a user keeps the roster well-formed |
| Lifecycle.InvPreserved | boggle_telegram_bot.py:66-614 | with the corrected /endgame, every event keeps epochs unique and positive, rosters well-formed, the registered game listed, and an open lobby with its own current game |
| Lifecycle.EndGameInv | boggle_telegram_bot.py:490-493 | the intended /endgame keeps the invariant |
| Lifecycle.RunKeepsInv | boggle_telegram_bot.py:66-614 | with the corrected /endgame, any sequence of events from a state that keeps the invariant ends in a state that keeps it |
| Lifecycle.ReachableInv | boggle_telegram_bot.py:66-614 | with the corrected /endgame, every state reachable from a fresh chat keeps the invariant; the bot's own /endgame breaks it (see the findings) |
| Lifecycle.NoCrash | boggle_telegram_bot.py:106-269 | while the invariant holds (and so with the corrected /endgame), the only failure is a deal to a participant who blocked the bot |
| Lifecycle.EndGameAsWrittenStrandsLobby | boggle_telegram_bot.py:490-493 | from a state keeping the invariant, the bot's /endgame lists the settled game twice and leaves an open lobby without a current game, so /join fails |
| Lifecycle.EndGameKeepsLobby | boggle_telegram_bot.py:490-493 | from the same state, the intended /endgame keeps the lobby's game current, and /join succeeds |
| Lifecycle.StrandedLobbyReachable | boggle_telegram_bot.py:66-514 | the stranded lobby arises from a fresh chat through /new, /join, /startgame, /new, the round timer and /endgame |

## Left out

- Telegram I/O is left out: sending and editing messages, keyboards, the settings dialogue, error reporting, persistence, and the rendering of boards and word lists. These are external plumbing.
- Threads and timers become events. The global table of cancel callables is left out. Cancelling a timer that was never created raises a key error in the bot, and that error is not modelled.
- Dice shuffling (`dice.py`) is randomness. The 16 faces are an input of the deal.
- Statistics are left out: percentages, averages and the per-user minimum and maximum. They use float division and rounding.
- The group's `ingame_user_ids` list is only written and never read, so it is not modelled.
- Lifecycle.DeleteGuard: the striking loop of `/delete` is not modelled. Its `not_found` list aliases the list being iterated, so the result depends on iteration order. The message is taken as already split into lower-cased words.
- Lifecycle.SubmitWord: the bot searches every group's running game for the sender and takes the first one found. The model looks only at the one group it describes.
- Lifecycle.CurrentGame: a non-empty list whose epochs are all ≤ 0 counts as "no game". The bot would raise a key error there. Every epoch is positive under the invariant, because the clock is assumed positive and strictly increasing.
- Lifecycle.EventOk: the bot stamps a game with `int(time())`, whole seconds. Two games created in the same second share an epoch, which the model excludes. A game's epoch is stamped once, by its own `/new`. In the bot, a second `/new` sent in the same second as the running game's own `/new` creates a lobby game with the same epoch, which the strict `>` scan never picks. The running game then stays "current", and the new lobby's `/join` acts on the running game.
- Lifecycle.Deal: a second blocked participant raises again in the bot. The model records one failure, with the same resulting state.
- Settlement.NamedWinner: names are assumed non-empty (Telegram always provides a first name), because the bot's truthiness test on names would misclassify an empty one.
- Submission.Lower, Submission.Submit: lower-casing covers the ASCII letters A-Z only. Python's `str.lower()` also maps some non-ASCII characters onto the alphabet; U+212A KELVIN SIGN, for one, becomes `k`. The bot therefore accepts a word typed with such a character, while the model answers that the character is not in the alphabet.
- Board.BuildGrid: only the 4x4 board exists, so the side is fixed at 4 and the minimum word length at 3.
- `/kick`'s removal of the chosen player happens in the settings callback. It is not modelled.

## Findings

| source | as written | input that shows it | evidently intended | confidence | as-written member | corrected member |
|---|---|---|---|---|---|---|
| boggle_telegram_bot.py:490-492 | `/endgame` removes the chat's latest game from the list and then appends the settled game | user 7 opens, joins and starts a game; user 8 sends /new during the round; the round timer fires; user 7 sends /endgame; user 9 sends /join | remove the settled game's own entry before appending it | high (not executed) | Lifecycle.EndGameAsWritten | Lifecycle.EndGame |

In the input above, the latest game is user 8's new lobby game, so the bot drops it. The settled game is listed twice and the lobby flag stays set. The current game is then `None`, and `/join` fails on it until the lobby timer fires. The timer clears the lobby flag before it, too, fails on the missing game (boggle_telegram_bot.py:896-897). The chat is stuck until then, not for good. `Lifecycle.StrandedLobbyReachable` and `Lifecycle.EndGameAsWrittenStrandsLobby` prove this for the as-written member. `Lifecycle.EndGameInv` and `Lifecycle.EndGameKeepsLobby` prove the corrected member keeps the invariant. `Lifecycle.Apply` uses the corrected member.
