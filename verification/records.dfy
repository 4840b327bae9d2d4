/**
 The per-game records: a submitted word with its two cancellation flags, and a
 participant with the words they sent. The bot keeps both collections as
 insertion-ordered dictionaries; here they are sequences whose keys (word text,
 user id) are distinct.
 */
module Records {

  type UserId = int

  /** A stored word: its points, whether another player also sent it, whether the creator struck it. */
  datatype Word = Word(text: string, points: nat, sentByOthers: bool, deleted: bool)

  /** A participant: identity, display name and the words sent, oldest first. */
  datatype Player = Player(id: UserId, name: string, words: seq<Word>)

  type Roster = seq<Player>

  /** No word text is stored twice for one player (dictionary keys). */
  predicate DistinctTexts(ws: seq<Word>)
  {
    forall a, b | 0 <= a < b < |ws| :: ws[a].text != ws[b].text
  }

  /** No user id appears twice in a roster (dictionary keys). */
  predicate DistinctIds(ps: Roster)
  {
    forall k, q | 0 <= k < q < |ps| :: ps[k].id != ps[q].id
  }

  /** No participant stores a word text twice. */
  predicate TextsDistinct(ps: Roster)
  {
    forall k | 0 <= k < |ps| :: DistinctTexts(ps[k].words)
  }

  /** A roster as the bot's dictionaries shape it: distinct ids, and distinct texts per participant. */
  predicate WellFormed(ps: Roster)
  {
    DistinctIds(ps) && TextsDistinct(ps)
  }

  /** The player has stored this word text. */
  predicate Holds(ws: seq<Word>, text: string)
  {
    exists a | 0 <= a < |ws| :: ws[a].text == text
  }

  /** The user is one of the participants. */
  predicate HasId(ps: Roster, id: UserId)
  {
    exists k | 0 <= k < |ps| :: ps[k].id == id
  }

  /** The position of a word text among a player's words, or -1 when absent. */
  function IndexOfText(ws: seq<Word>, text: string): (a: int)
    ensures -1 <= a < |ws|
    ensures a == -1 <==> !Holds(ws, text)
    ensures a >= 0 ==> ws[a].text == text
    ensures DistinctTexts(ws) && a >= 0 ==> forall b | 0 <= b < |ws| && ws[b].text == text :: b == a
  {
    if |ws| == 0 then -1
    else if ws[|ws| - 1].text == text then |ws| - 1
    else IndexOfText(ws[..|ws| - 1], text)
  }

  /** The position of a user among the participants, or -1 when absent. */
  function IndexOfId(ps: Roster, id: UserId): (k: int)
    ensures -1 <= k < |ps|
    ensures k == -1 <==> !HasId(ps, id)
    ensures k >= 0 ==> ps[k].id == id
    ensures DistinctIds(ps) && k >= 0 ==> forall q | 0 <= q < |ps| && ps[q].id == id :: q == k
  {
    if |ps| == 0 then -1
    else if ps[|ps| - 1].id == id then |ps| - 1
    else IndexOfId(ps[..|ps| - 1], id)
  }
}
