/**
 Settlement of a finished round: every player's score, the round total, the
 best score, the winners, and each player's won / even / lost outcome.
 */
module Settlement {

  import opened Records
  import opened Submission
  import opened Dedup

  /** An entry scores when no other player sent it and the creator did not strike it. */
  predicate Counted(e: Word)
  {
    !e.sentByOthers && !e.deleted
  }

  /** A player's score: the points of their counted entries, added up (0 when there are none). */
  function Score(ws: seq<Word>): (s: nat)
    ensures (forall a | 0 <= a < |ws| :: !Counted(ws[a])) ==> s == 0
    ensures (exists a | 0 <= a < |ws| :: Counted(ws[a]) && ws[a].points > 0) ==> s > 0
  {
    if ws == [] then 0
    else
      var init := ws[..|ws| - 1];
      assert forall a | 0 <= a < |init| :: init[a] == ws[a];
      Score(init) + (if Counted(ws[|ws| - 1]) then ws[|ws| - 1].points else 0)
  }

  /** The round total: every player's score, added up. */
  function Total(ps: Roster): (t: nat)
    ensures |ps| == 0 ==> t == 0
    ensures forall k | 0 <= k < |ps| :: Score(ps[k].words) <= t
  {
    if ps == [] then 0
    else
      var init := ps[..|ps| - 1];
      assert forall k | 0 <= k < |init| :: init[k] == ps[k];
      Total(init) + Score(ps[|ps| - 1].words)
  }

  /** The best score, or -1 when nobody took part. */
  function MaxScore(ps: Roster): (m: int)
    ensures |ps| == 0 <==> m == -1
    ensures forall k | 0 <= k < |ps| :: Score(ps[k].words) <= m
    ensures |ps| > 0 ==> exists k | 0 <= k < |ps| :: Score(ps[k].words) == m
  {
    if ps == [] then -1
    else
      var init := ps[..|ps| - 1];
      assert forall k | 0 <= k < |init| :: init[k] == ps[k];
      var m := MaxScore(init);
      var last := Score(ps[|ps| - 1].words);
      if last > m then last else m
  }

  /** The participants whose score is m, in participation order. */
  function Top(ps: Roster, m: int): (r: seq<Player>)
    ensures |r| <= |ps|
    ensures forall x :: x in r <==> exists k | 0 <= k < |ps| :: x == ps[k] && Score(ps[k].words) == m
  {
    if ps == [] then []
    else
      var init := ps[..|ps| - 1];
      assert forall k | 0 <= k < |init| :: init[k] == ps[k];
      var last := ps[|ps| - 1];
      Top(init, m) + (if Score(last.words) == m then [last] else [])
  }

  /** The winners: every player holding the best score. */
  function Winners(ps: Roster): seq<Player>
  {
    Top(ps, MaxScore(ps))
  }

  /** What the round's settlement computes. */
  datatype Settled = Settled(points: seq<nat>, total: nat, maxPoints: int, winners: seq<Player>)

  /** One more entry of a prefix adds its points when it counts. */
  lemma ScorePrefixStep(ws: seq<Word>, a: int)
    requires 0 <= a < |ws|
    ensures Score(ws[..a + 1]) == Score(ws[..a]) + (if Counted(ws[a]) then ws[a].points else 0)
  {
    assert ws[..a + 1][..a] == ws[..a];
  }

  /** One more player of a prefix adds their score. */
  lemma TotalPrefixStep(ps: Roster, k: int)
    requires 0 <= k < |ps|
    ensures Total(ps[..k + 1]) == Total(ps[..k]) + Score(ps[k].words)
  {
    assert ps[..k + 1][..k] == ps[..k];
  }

  /**
   The inner loop of the first settlement loop: one player's counted points,
   each also added to the running round total.
   */
  method PlayerPoints(words: seq<Word>, total0: nat) returns (acc: nat, total: nat)
    ensures acc == Score(words)
    ensures total == total0 + acc
  {
    acc := 0;
    total := total0;
    var a := 0;
    while a < |words|
      invariant 0 <= a <= |words|
      invariant acc == Score(words[..a])
      invariant total == total0 + acc
    {
      ScorePrefixStep(words, a);
      if Counted(words[a]) {
        acc := acc + words[a].points;
        total := total + words[a].points;
      }
      a := a + 1;
    }
    assert words[..a] == words;
  }

  /** First settlement loop: each player's counted points, and the round total accumulated alongside. */
  method SumPoints(ps: Roster) returns (points: seq<nat>, total: nat)
    ensures |points| == |ps|
    ensures forall k | 0 <= k < |ps| :: points[k] == Score(ps[k].words)
    ensures total == Total(ps)
  {
    points := [];
    total := 0;
    var k := 0;
    while k < |ps|
      invariant 0 <= k <= |ps| && |points| == k
      invariant forall q | 0 <= q < k :: points[q] == Score(ps[q].words)
      invariant total == Total(ps[..k])
    {
      var acc;
      acc, total := PlayerPoints(ps[k].words, total);
      TotalPrefixStep(ps, k);
      points := points + [acc];
      k := k + 1;
    }
    assert ps[..k] == ps;
  }

  /** Second settlement loop: the maximum, starting from -1. */
  method MaxPoints(ps: Roster, points: seq<nat>) returns (maxPoints: int)
    requires |points| == |ps| && forall k | 0 <= k < |ps| :: points[k] == Score(ps[k].words)
    ensures maxPoints == MaxScore(ps)
  {
    maxPoints := -1;
    var k := 0;
    while k < |ps|
      invariant 0 <= k <= |ps|
      invariant maxPoints == MaxScore(ps[..k])
    {
      assert ps[..k + 1][..k] == ps[..k];
      maxPoints := if points[k] > maxPoints then points[k] else maxPoints;
      k := k + 1;
    }
    assert ps[..k] == ps;
  }

  /** Third settlement loop: the players whose points equal the maximum. */
  method CollectWinners(ps: Roster, points: seq<nat>, maxPoints: int) returns (winners: seq<Player>)
    requires |points| == |ps| && forall k | 0 <= k < |ps| :: points[k] == Score(ps[k].words)
    ensures winners == Top(ps, maxPoints)
  {
    winners := [];
    var k := 0;
    while k < |ps|
      invariant 0 <= k <= |ps|
      invariant winners == Top(ps[..k], maxPoints)
    {
      assert ps[..k + 1][..k] == ps[..k];
      if points[k] == maxPoints {
        winners := winners + [ps[k]];
      }
      k := k + 1;
    }
    assert ps[..k] == ps;
  }

  /**
   The settlement of the bot: sums every player's counted points while
   accumulating the round total, finds the maximum from -1, then collects the
   players holding it.
   */
  method Settle(ps: Roster) returns (s: Settled)
    ensures s == SettledOf(ps)
    ensures |s.points| == |ps|
    ensures forall k | 0 <= k < |ps| :: s.points[k] == Score(ps[k].words)
    ensures s.total == Total(ps)
    ensures s.maxPoints == MaxScore(ps)
    ensures s.winners == Winners(ps)
  {
    var points, total := SumPoints(ps);
    var maxPoints := MaxPoints(ps, points);
    var winners := CollectWinners(ps, points, maxPoints);
    s := Settled(points, total, maxPoints, winners);
    assert points == SettledOf(ps).points;
  }

  /** What settlement computes for a roster: the /endgame reply. */
  function SettledOf(ps: Roster): (s: Settled)
  {
    Settled(seq(|ps|, k requires 0 <= k < |ps| => Score(ps[k].words)), Total(ps), MaxScore(ps), Winners(ps))
  }

  // ---------------------------------------------------------------------------
  // Winners.
  // ---------------------------------------------------------------------------

  /** There is at least one winner exactly when somebody took part. */
  lemma WinnersNonEmpty(ps: Roster)
    ensures |Winners(ps)| > 0 <==> |ps| > 0
  {
    if |ps| > 0 {
      var k :| 0 <= k < |ps| && Score(ps[k].words) == MaxScore(ps);
      assert ps[k] in Winners(ps);
    }
  }

  /** A player is among the winners exactly when no participant scored more. */
  lemma WinnerIffTop(ps: Roster, k: int)
    requires DistinctIds(ps) && 0 <= k < |ps|
    ensures ps[k] in Winners(ps) <==>
              forall q | 0 <= q < |ps| :: Score(ps[q].words) <= Score(ps[k].words)
  {
    var m := MaxScore(ps);
    if ps[k] in Winners(ps) {
      var q :| 0 <= q < |ps| && ps[k] == ps[q] && Score(ps[q].words) == m;
      assert ps[q].id == ps[k].id;
    }
    if forall q | 0 <= q < |ps| :: Score(ps[q].words) <= Score(ps[k].words) {
      var q :| 0 <= q < |ps| && Score(ps[q].words) == m;
      assert Score(ps[k].words) == m;
    }
  }

  /** A sequence holding two different values has at least two elements. */
  lemma TwoDistinct<T>(r: seq<T>, x: T, y: T)
    requires x in r && y in r && x != y
    ensures |r| >= 2
  {
  }

  /** A user none of whose entries scores m is absent from Top. */
  lemma {:induction false} TopExcludes(ps: Roster, m: int, id: UserId)
    requires forall q | 0 <= q < |ps| && ps[q].id == id :: Score(ps[q].words) != m
    ensures forall x | x in Top(ps, m) :: x.id != id
  {
    if ps != [] {
      var init := ps[..|ps| - 1];
      assert forall q | 0 <= q < |init| :: init[q] == ps[q];
      TopExcludes(init, m, id);
    }
  }

  /** When no index scores m, Top is empty. */
  lemma {:induction false} TopNone(ps: Roster, m: int)
    requires forall q | 0 <= q < |ps| :: Score(ps[q].words) != m
    ensures Top(ps, m) == []
  {
    if ps != [] {
      var init := ps[..|ps| - 1];
      assert forall q | 0 <= q < |init| :: init[q] == ps[q];
      TopNone(init, m);
    }
  }

  /** When exactly one index scores m, Top holds exactly that player. */
  lemma {:induction false} TopSingle(ps: Roster, m: int, k: int)
    requires 0 <= k < |ps| && Score(ps[k].words) == m
    requires forall q | 0 <= q < |ps| && q != k :: Score(ps[q].words) != m
    ensures Top(ps, m) == [ps[k]]
  {
    var init := ps[..|ps| - 1];
    assert forall q | 0 <= q < |init| :: init[q] == ps[q];
    if k == |ps| - 1 {
      TopNone(init, m);
    } else {
      TopSingle(init, m, k);
    }
  }

  // ---------------------------------------------------------------------------
  // Won / even / lost.
  // ---------------------------------------------------------------------------

  datatype Outcome = Won | Even | Lost

  /** The display name stored for a user among the winners, or "" (falsy) when absent. */
  function NameOf(winners: seq<Player>, id: UserId): (n: string)
    ensures (exists x | x in winners :: x.id == id) ==> exists x | x in winners :: x.id == id && x.name == n
    ensures (forall x | x in winners :: x.id != id) ==> n == ""
  {
    if winners == [] then ""
    else if winners[0].id == id then winners[0].name
    else NameOf(winners[1..], id)
  }

  /**
   A player's outcome, decided the way the bot decides it: through the truthiness
   of the winner's stored name and the number of winners.
   */
  function Classify(winners: seq<Player>, id: UserId): (o: Outcome)
    ensures o != Lost ==> exists x | x in winners :: x.id == id && x.name != ""
    ensures o == Won ==> |winners| == 1
    ensures o == Even ==> |winners| > 1
    ensures (forall x | x in winners :: x.id != id) ==> o == Lost
  {
    var n := NameOf(winners, id);
    if n != "" && |winners| == 1 then Won
    else if n != "" && |winners| > 1 then Even
    else Lost
  }

  /** Every participant has a non-empty display name (Telegram requires a first name). */
  predicate NamesGiven(ps: Roster)
  {
    forall k | 0 <= k < |ps| :: ps[k].name != ""
  }

  /** With distinct ids and given names, a participant's stored winner name is non-empty exactly when they won or tied. */
  lemma NamedWinner(ps: Roster, k: int)
    requires DistinctIds(ps) && NamesGiven(ps) && 0 <= k < |ps|
    ensures NameOf(Winners(ps), ps[k].id) != "" <==> Score(ps[k].words) == MaxScore(ps)
  {
    var w := Winners(ps);
    var id := ps[k].id;
    if Score(ps[k].words) == MaxScore(ps) {
      assert ps[k] in w;
      var n := NameOf(w, id);
      var x :| x in w && x.id == id && x.name == n;
      var q :| 0 <= q < |ps| && x == ps[q] && Score(ps[q].words) == MaxScore(ps);
      assert ps[q].id == ps[k].id;
    } else {
      TopExcludes(ps, MaxScore(ps), id);
    }
  }

  /** A participant wins outright exactly when every other participant scored strictly less. */
  lemma WonIffUniqueTop(ps: Roster, k: int)
    requires DistinctIds(ps) && NamesGiven(ps) && 0 <= k < |ps|
    ensures Classify(Winners(ps), ps[k].id) == Won <==>
              forall q | 0 <= q < |ps| && q != k :: Score(ps[q].words) < Score(ps[k].words)
  {
    NamedWinner(ps, k);
    WinnerIffTop(ps, k);
    var m := MaxScore(ps);
    var w := Winners(ps);
    if forall q | 0 <= q < |ps| && q != k :: Score(ps[q].words) < Score(ps[k].words) {
      assert Score(ps[k].words) == m;
      TopSingle(ps, m, k);
    }
    if Classify(w, ps[k].id) == Won {
      forall q | 0 <= q < |ps| && q != k
        ensures Score(ps[q].words) < Score(ps[k].words)
      {
        if Score(ps[q].words) == m {
          assert ps[q] in w && ps[k] in w;
          assert ps[q].id != ps[k].id;
          TwoDistinct(w, ps[q], ps[k]);
        }
      }
    }
  }

  /** A participant ties exactly when they hold the best score and someone else holds it too. */
  lemma EvenIffSharedTop(ps: Roster, k: int)
    requires DistinctIds(ps) && NamesGiven(ps) && 0 <= k < |ps|
    ensures Classify(Winners(ps), ps[k].id) == Even <==>
              && Score(ps[k].words) == MaxScore(ps)
              && exists q | 0 <= q < |ps| && q != k :: Score(ps[q].words) == Score(ps[k].words)
  {
    NamedWinner(ps, k);
    WonIffUniqueTop(ps, k);
    WinnersNonEmpty(ps);
  }

  /** A participant loses exactly when somebody scored more. */
  lemma LostIffBeaten(ps: Roster, k: int)
    requires DistinctIds(ps) && NamesGiven(ps) && 0 <= k < |ps|
    ensures Classify(Winners(ps), ps[k].id) == Lost <==> Score(ps[k].words) < MaxScore(ps)
  {
    NamedWinner(ps, k);
    WinnersNonEmpty(ps);
  }

  // ---------------------------------------------------------------------------
  // Scores against submission and deduplication.
  // ---------------------------------------------------------------------------

  lemma ScoreAppend(ws: seq<Word>, e: Word)
    ensures Score(ws + [e]) == Score(ws) + (if Counted(e) then e.points else 0)
  {
    assert (ws + [e])[..|ws|] == ws;
  }

  /** An accepted word raises its sender's score by exactly its points. */
  lemma AcceptedRaisesScore(words: seq<Word>, message: string, lang: Board.Lang, g: Board.Grid)
    requires Submit(words, message, lang, g).verdict == Accepted
    ensures var e := Expand(Fold(Lower(message)));
            Score(Submit(words, message, lang, g).words) == Score(words) + Points(e) > Score(words)
  {
    var e := Expand(Fold(Lower(message)));
    ScoreAppend(words, Word(e, Points(e), false, false));
  }

  /** Entry-wise, ws2 has the same points and strike marks as ws1 and at least its flags. */
  predicate MoreFlagged(ws1: seq<Word>, ws2: seq<Word>)
  {
    && |ws1| == |ws2|
    && forall a | 0 <= a < |ws1| ::
         && ws2[a].points == ws1[a].points && ws2[a].deleted == ws1[a].deleted
         && (ws1[a].sentByOthers ==> ws2[a].sentByOthers)
  }

  /** Raising flags never raises a score. */
  lemma {:induction false} ScoreAntitone(ws1: seq<Word>, ws2: seq<Word>)
    requires MoreFlagged(ws1, ws2)
    ensures Score(ws2) <= Score(ws1)
  {
    if ws1 != [] {
      var n := |ws1| - 1;
      assert MoreFlagged(ws1[..n], ws2[..n]);
      ScoreAntitone(ws1[..n], ws2[..n]);
    }
  }

  /** Deduplication never raises anybody's score. */
  lemma DedupNeverRaisesScore(ps: Roster, k: int)
    requires 0 <= k < |ps|
    ensures Score(Deduplicated(ps)[k].words) <= Score(ps[k].words)
  {
    ScoreAntitone(ps[k].words, Deduplicated(ps)[k].words);
  }
}
