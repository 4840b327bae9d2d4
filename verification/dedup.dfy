/**
 Cross-player deduplication at the end of a round: a word that two participants
 both sent is flagged "sent by other players" for each of them, and so stops
 counting towards either score.
 */
module Dedup {

  import opened Records

  /** The player holds w and its flag is still clear. */
  predicate HoldsUnflagged(p: Player, w: string)
  {
    exists c | 0 <= c < |p.words| :: p.words[c].text == w && !p.words[c].sentByOthers
  }

  /** Some participant other than the k-th holds w with a clear flag. */
  predicate HeldElsewhere(ps: Roster, k: int, w: string)
  {
    exists q | 0 <= q < |ps| && q != k :: HoldsUnflagged(ps[q], w)
  }

  /** An entry with its flag raised when f holds (flags never go back to false). */
  function Raise(e: Word, f: bool): (r: Word)
    ensures r.text == e.text && r.points == e.points && r.deleted == e.deleted
    ensures r.sentByOthers <==> e.sentByOthers || f
  {
    e.(sentByOthers := e.sentByOthers || f)
  }

  /**
   Reference definition of deduplication: every entry keeps its text, points and
   deleted flag, and ends flagged exactly when it already was or when another
   participant holds the same word with a clear flag.
   */
  function Deduplicated(ps: Roster): (r: Roster)
    ensures |r| == |ps|
    ensures forall k | 0 <= k < |ps| ::
              r[k].id == ps[k].id && r[k].name == ps[k].name && |r[k].words| == |ps[k].words|
    ensures forall k, c | 0 <= k < |ps| && 0 <= c < |ps[k].words| ::
              r[k].words[c] == Raise(ps[k].words[c], HeldElsewhere(ps, k, ps[k].words[c].text))
  {
    seq(|ps|, k requires 0 <= k < |ps| =>
      ps[k].(words := seq(|ps[k].words|, c requires 0 <= c < |ps[k].words| =>
        Raise(ps[k].words[c], HeldElsewhere(ps, k, ps[k].words[c].text)))))
  }

  // ---------------------------------------------------------------------------
  // The bot's loops, and the states they pass through.
  // ---------------------------------------------------------------------------

  /** r differs from ps at most in the flags. */
  ghost predicate Shape(r: Roster, ps: Roster)
  {
    && |r| == |ps|
    && (forall k | 0 <= k < |ps| ::
          r[k].id == ps[k].id && r[k].name == ps[k].name && |r[k].words| == |ps[k].words|)
    && (forall k, c | 0 <= k < |ps| && 0 <= c < |ps[k].words| ::
          && r[k].words[c].text == ps[k].words[c].text
          && r[k].words[c].points == ps[k].words[c].points
          && r[k].words[c].deleted == ps[k].words[c].deleted)
  }

  /** Some participant before the i-th held w unflagged while another also did. */
  ghost predicate PairedBefore(ps: Roster, i: int, w: string)
    requires 0 <= i <= |ps|
  {
    exists x | 0 <= x < i :: HoldsUnflagged(ps[x], w) && HeldElsewhere(ps, x, w)
  }

  /** w is among the first a words of player p. */
  ghost predicate SentBefore(p: Player, a: int, w: string)
    requires 0 <= a <= |p.words|
  {
    exists c | 0 <= c < a :: p.words[c].text == w
  }

  /** Flag of entry (k, c) once players 0 .. i-1 have been handled. */
  ghost predicate ExpA(ps: Roster, i: int, k: int, c: int)
    requires 0 <= i <= |ps| && 0 <= k < |ps| && 0 <= c < |ps[k].words|
  {
    ps[k].words[c].sentByOthers || PairedBefore(ps, i, ps[k].words[c].text)
  }

  /** Flag of entry (k, c) once, in addition, the first a words of player i have been handled. */
  ghost predicate ExpB(ps: Roster, i: int, a: int, k: int, c: int)
    requires 0 <= i < |ps| && 0 <= a <= |ps[i].words| && 0 <= k < |ps| && 0 <= c < |ps[k].words|
  {
    var w := ps[k].words[c].text;
    ExpA(ps, i, k, c) || (SentBefore(ps[i], a, w) && HoldsUnflagged(ps[i], w) && HeldElsewhere(ps, i, w))
  }

  /** Flag of entry (k, c) while word a of player i is compared with players i+1 .. j-1. */
  ghost predicate ExpC(ps: Roster, i: int, a: int, j: int, k: int, c: int)
    requires 0 <= i < |ps| && 0 <= a < |ps[i].words| && i < j <= |ps|
    requires 0 <= k < |ps| && 0 <= c < |ps[k].words|
  {
    var w0 := ps[i].words[a].text;
    if k == i && c == a then exists x | i < x < j :: HoldsUnflagged(ps[x], w0)
    else if i < k < j && ps[k].words[c].text == w0 then true
    else ExpB(ps, i, a, k, c)
  }

  ghost predicate StateA(r: Roster, ps: Roster, i: int)
    requires 0 <= i <= |ps|
  {
    && Shape(r, ps)
    && forall k, c | 0 <= k < |ps| && 0 <= c < |ps[k].words| :: r[k].words[c].sentByOthers == ExpA(ps, i, k, c)
  }

  ghost predicate StateB(r: Roster, ps: Roster, i: int, a: int)
    requires 0 <= i < |ps| && 0 <= a <= |ps[i].words|
  {
    && Shape(r, ps)
    && forall k, c | 0 <= k < |ps| && 0 <= c < |ps[k].words| :: r[k].words[c].sentByOthers == ExpB(ps, i, a, k, c)
  }

  ghost predicate StateC(r: Roster, ps: Roster, i: int, a: int, j: int)
    requires 0 <= i < |ps| && 0 <= a < |ps[i].words| && i < j <= |ps|
  {
    && Shape(r, ps)
    && forall k, c | 0 <= k < |ps| && 0 <= c < |ps[k].words| :: r[k].words[c].sentByOthers == ExpC(ps, i, a, j, k, c)
  }

  /** Raises the flag of one entry. */
  function SetFlag(r: Roster, k: int, c: int): (r': Roster)
    requires 0 <= k < |r| && 0 <= c < |r[k].words|
    ensures |r'| == |r|
    ensures forall q | 0 <= q < |r| ::
              r'[q].id == r[q].id && r'[q].name == r[q].name && |r'[q].words| == |r[q].words|
    ensures forall q, d | 0 <= q < |r| && 0 <= d < |r[q].words| ::
              r'[q].words[d] == if q == k && d == c then r[q].words[d].(sentByOthers := true) else r[q].words[d]
  {
    r[k := r[k].(words := r[k].words[c := r[k].words[c].(sentByOthers := true)])]
  }

  lemma StartPlayer(r: Roster, ps: Roster, i: int)
    requires 0 <= i < |ps| && StateA(r, ps, i)
    ensures StateB(r, ps, i, 0)
  {
  }

  /** With distinct texts, w unflagged in player p means exactly its entry with that text is unflagged. */
  lemma UnflaggedEntry(p: Player, c: int)
    requires DistinctTexts(p.words) && 0 <= c < |p.words|
    ensures HoldsUnflagged(p, p.words[c].text) <==> !p.words[c].sentByOthers
  {
  }

  /** Entering the comparison of word a of player i, whose flag is still clear. */
  lemma StartWord(r: Roster, ps: Roster, i: int, a: int)
    requires TextsDistinct(ps)
    requires 0 <= i < |ps| && 0 <= a < |ps[i].words| && StateB(r, ps, i, a)
    requires !r[i].words[a].sentByOthers
    ensures !ps[i].words[a].sentByOthers && !PairedBefore(ps, i, ps[i].words[a].text)
    ensures StateC(r, ps, i, a, i + 1)
  {
    var w0 := ps[i].words[a].text;
    assert !ExpB(ps, i, a, i, a);
    forall k, c | 0 <= k < |ps| && 0 <= c < |ps[k].words|
      ensures r[k].words[c].sentByOthers == ExpC(ps, i, a, i + 1, k, c)
    {
    }
  }

  /** An earlier player holding w0 unflagged would already have formed a pair with player i. */
  lemma EarlierHolderPairs(ps: Roster, i: int, a: int, k: int)
    requires 0 <= i < |ps| && 0 <= a < |ps[i].words|
    requires !ps[i].words[a].sentByOthers
    requires 0 <= k < i
    ensures HoldsUnflagged(ps[k], ps[i].words[a].text) ==> PairedBefore(ps, i, ps[i].words[a].text)
  {
    var w0 := ps[i].words[a].text;
    if HoldsUnflagged(ps[k], w0) {
      assert HoldsUnflagged(ps[i], w0);
      assert HeldElsewhere(ps, k, w0);
    }
  }

  /** Before player j is compared, its entry for w0 still has its original flag. */
  lemma ScanSeesOriginal(r: Roster, ps: Roster, i: int, a: int, j: int, b: int)
    requires TextsDistinct(ps)
    requires 0 <= i < |ps| && 0 <= a < |ps[i].words| && i < j < |ps|
    requires !ps[i].words[a].sentByOthers && !PairedBefore(ps, i, ps[i].words[a].text)
    requires StateC(r, ps, i, a, j)
    requires 0 <= b < |ps[j].words| && ps[j].words[b].text == ps[i].words[a].text
    ensures r[j].words[b].sentByOthers == ps[j].words[b].sentByOthers
  {
    var w0 := ps[i].words[a].text;
    assert r[j].words[b].sentByOthers == ExpB(ps, i, a, j, b);
    assert !SentBefore(ps[i], a, w0);
  }

  /** Comparing with player j when j holds w0 unflagged: both entries get flagged. */
  lemma ScanHit(r: Roster, ps: Roster, i: int, a: int, j: int, b: int)
    requires TextsDistinct(ps)
    requires 0 <= i < |ps| && 0 <= a < |ps[i].words| && i < j < |ps|
    requires !ps[i].words[a].sentByOthers && !PairedBefore(ps, i, ps[i].words[a].text)
    requires StateC(r, ps, i, a, j)
    requires 0 <= b < |r[j].words| && r[j].words[b].text == r[i].words[a].text && !r[j].words[b].sentByOthers
    ensures StateC(SetFlag(SetFlag(r, i, a), j, b), ps, i, a, j + 1)
  {
    var w0 := ps[i].words[a].text;
    ScanSeesOriginal(r, ps, i, a, j, b);
    assert HoldsUnflagged(ps[j], w0);
    var r' := SetFlag(SetFlag(r, i, a), j, b);
    forall k, c | 0 <= k < |ps| && 0 <= c < |ps[k].words|
      ensures r'[k].words[c].sentByOthers == ExpC(ps, i, a, j + 1, k, c)
    {
      if k == j && c != b {
        assert ps[k].words[c].text != w0;
      }
    }
  }

  /** Comparing with player j when j has no unflagged w0: nothing changes. */
  lemma ScanMiss(r: Roster, ps: Roster, i: int, a: int, j: int, b: int)
    requires TextsDistinct(ps)
    requires 0 <= i < |ps| && 0 <= a < |ps[i].words| && i < j < |ps|
    requires !ps[i].words[a].sentByOthers && !PairedBefore(ps, i, ps[i].words[a].text)
    requires StateC(r, ps, i, a, j)
    requires b == IndexOfText(r[j].words, r[i].words[a].text)
    requires b < 0 || r[j].words[b].sentByOthers
    ensures StateC(r, ps, i, a, j + 1)
  {
    var w0 := ps[i].words[a].text;
    if b >= 0 {
      ScanSeesOriginal(r, ps, i, a, j, b);
      assert forall c | 0 <= c < |ps[j].words| && ps[j].words[c].text == w0 :: c == b;
    } else {
      assert forall c | 0 <= c < |ps[j].words| :: ps[j].words[c].text != r[j].words[c].text || r[j].words[c].text != w0;
    }
    assert !HoldsUnflagged(ps[j], w0);
    forall k, c | 0 <= k < |ps| && 0 <= c < |ps[k].words|
      ensures r[k].words[c].sentByOthers == ExpC(ps, i, a, j + 1, k, c)
    {
    }
  }

  /** After comparing word a with every later player, its outcome is recorded. */
  lemma FinishWord(r: Roster, ps: Roster, i: int, a: int)
    requires TextsDistinct(ps)
    requires 0 <= i < |ps| && 0 <= a < |ps[i].words|
    requires !ps[i].words[a].sentByOthers && !PairedBefore(ps, i, ps[i].words[a].text)
    requires StateC(r, ps, i, a, |ps|)
    ensures StateB(r, ps, i, a + 1)
  {
    var w0 := ps[i].words[a].text;
    assert HoldsUnflagged(ps[i], w0);
    assert HeldElsewhere(ps, i, w0) <==> exists x | i < x < |ps| :: HoldsUnflagged(ps[x], w0) by {
      if HeldElsewhere(ps, i, w0) {
        var q :| 0 <= q < |ps| && q != i && HoldsUnflagged(ps[q], w0);
        if q < i {
          EarlierHolderPairs(ps, i, a, q);
        }
      }
    }
    forall k, c | 0 <= k < |ps| && 0 <= c < |ps[k].words|
      ensures r[k].words[c].sentByOthers == ExpB(ps, i, a + 1, k, c)
    {
      var w := ps[k].words[c].text;
      assert SentBefore(ps[i], a + 1, w) <==> SentBefore(ps[i], a, w) || w == w0;
      if w == w0 && !(k == i && c == a) {
        if k < i {
          EarlierHolderPairs(ps, i, a, k);
        } else if k == i {
          assert false;
        } else if !ps[k].words[c].sentByOthers {
          assert HoldsUnflagged(ps[k], w0);
        }
      }
    }
  }

  /** A word whose flag is already raised is skipped without changes. */
  lemma SkipWord(r: Roster, ps: Roster, i: int, a: int)
    requires TextsDistinct(ps)
    requires 0 <= i < |ps| && 0 <= a < |ps[i].words| && StateB(r, ps, i, a)
    requires r[i].words[a].sentByOthers
    ensures StateB(r, ps, i, a + 1)
  {
    var w0 := ps[i].words[a].text;
    assert !SentBefore(ps[i], a, w0);
    UnflaggedEntry(ps[i], a);
    forall k, c | 0 <= k < |ps| && 0 <= c < |ps[k].words|
      ensures r[k].words[c].sentByOthers == ExpB(ps, i, a + 1, k, c)
    {
      var w := ps[k].words[c].text;
      assert SentBefore(ps[i], a + 1, w) <==> SentBefore(ps[i], a, w) || w == w0;
    }
  }

  lemma FinishPlayer(r: Roster, ps: Roster, i: int)
    requires 0 <= i < |ps| && StateB(r, ps, i, |ps[i].words|)
    ensures StateA(r, ps, i + 1)
  {
    forall k, c | 0 <= k < |ps| && 0 <= c < |ps[k].words|
      ensures r[k].words[c].sentByOthers == ExpA(ps, i + 1, k, c)
    {
      var w := ps[k].words[c].text;
      if HoldsUnflagged(ps[i], w) {
        var d :| 0 <= d < |ps[i].words| && ps[i].words[d].text == w && !ps[i].words[d].sentByOthers;
        assert SentBefore(ps[i], |ps[i].words|, w);
      }
      assert PairedBefore(ps, i + 1, w) <==> PairedBefore(ps, i, w) || (HoldsUnflagged(ps[i], w) && HeldElsewhere(ps, i, w));
    }
  }

  lemma FinishAll(r: Roster, ps: Roster)
    requires TextsDistinct(ps) && StateA(r, ps, |ps|)
    ensures r == Deduplicated(ps)
  {
    var d := Deduplicated(ps);
    forall k | 0 <= k < |ps|
      ensures r[k] == d[k]
    {
      forall c | 0 <= c < |ps[k].words|
        ensures r[k].words[c] == d[k].words[c]
      {
        var w := ps[k].words[c].text;
        if !ps[k].words[c].sentByOthers {
          assert HoldsUnflagged(ps[k], w);
          if PairedBefore(ps, |ps|, w) {
            var x :| 0 <= x < |ps| && HoldsUnflagged(ps[x], w) && HeldElsewhere(ps, x, w);
            if x != k {
              assert HeldElsewhere(ps, k, w);
            }
          }
        }
      }
      assert r[k].words == d[k].words;
    }
  }

  /**
   The bot's deduplication loops: each player in turn, each of their words whose
   flag is still clear, compared with every later player's unflagged entries;
   a match flags both. The result is the reference definition, whatever the
   iteration order of the participants.
   */
  method CheckWordsInCommon(ps: Roster) returns (r: Roster)
    requires TextsDistinct(ps)
    ensures r == Deduplicated(ps)
  {
    r := ps;
    var i := 0;
    while i < |r|
      invariant 0 <= i <= |ps| && |r| == |ps|
      invariant StateA(r, ps, i)
    {
      StartPlayer(r, ps, i);
      var a := 0;
      while a < |r[i].words|
        invariant 0 <= a <= |ps[i].words| && |r| == |ps| && |r[i].words| == |ps[i].words|
        invariant StateB(r, ps, i, a)
      {
        if !r[i].words[a].sentByOthers {
          StartWord(r, ps, i, a);
          var w := r[i].words[a].text;
          var j := i + 1;
          while j < |r|
            invariant i < j <= |ps| && |r| == |ps|
            invariant StateC(r, ps, i, a, j)
            invariant w == r[i].words[a].text
          {
            var b := IndexOfText(r[j].words, w);
            if b >= 0 && !r[j].words[b].sentByOthers {
              ScanHit(r, ps, i, a, j, b);
              r := SetFlag(r, i, a);
              r := SetFlag(r, j, b);
            } else {
              ScanMiss(r, ps, i, a, j, b);
            }
            j := j + 1;
          }
          FinishWord(r, ps, i, a);
        } else {
          SkipWord(r, ps, i, a);
        }
        a := a + 1;
      }
      FinishPlayer(r, ps, i);
      i := i + 1;
    }
    FinishAll(r, ps);
  }

  // ---------------------------------------------------------------------------
  // Properties of deduplication.
  // ---------------------------------------------------------------------------

  /** After deduplication no word is held with a clear flag by two different participants. */
  lemma NoSharedCountedWord(ps: Roster, k: int, q: int, w: string)
    requires 0 <= k < |ps| && 0 <= q < |ps| && k != q
    ensures var r := Deduplicated(ps);
            HoldsUnflagged(r[q], w) ==> !HoldsUnflagged(r[k], w)
  {
    var r := Deduplicated(ps);
    if HoldsUnflagged(r[q], w) {
      var d :| 0 <= d < |r[q].words| && r[q].words[d].text == w && !r[q].words[d].sentByOthers;
      assert r[q].words[d] == Raise(ps[q].words[d], HeldElsewhere(ps, q, w));
      assert HoldsUnflagged(ps[q], w);
      assert HeldElsewhere(ps, k, w);
      forall c | 0 <= c < |r[k].words| && r[k].words[c].text == w
        ensures r[k].words[c].sentByOthers
      {
        assert r[k].words[c] == Raise(ps[k].words[c], HeldElsewhere(ps, k, w));
      }
    }
  }

  /** Deduplicating twice is the same as deduplicating once. */
  lemma DedupIdempotent(ps: Roster)
    ensures Deduplicated(Deduplicated(ps)) == Deduplicated(ps)
  {
    var r := Deduplicated(ps);
    var r2 := Deduplicated(r);
    forall k | 0 <= k < |r|
      ensures r2[k] == r[k]
    {
      forall c | 0 <= c < |r[k].words|
        ensures r2[k].words[c] == r[k].words[c]
      {
        var w := r[k].words[c].text;
        if !r[k].words[c].sentByOthers {
          assert HoldsUnflagged(r[k], w);
          forall q | 0 <= q < |r| && q != k
            ensures !HoldsUnflagged(r[q], w)
          {
            NoSharedCountedWord(ps, q, k, w);
          }
          assert !HeldElsewhere(r, k, w);
        }
      }
      assert r2[k].words == r[k].words;
    }
  }

  /** No entry is flagged yet, as at the end of a round. */
  predicate AllClear(ps: Roster)
  {
    forall k, c | 0 <= k < |ps| && 0 <= c < |ps[k].words| :: !ps[k].words[c].sentByOthers
  }

  /**
   At the end of a round, when no entry is flagged yet, a word ends flagged for a
   player exactly when some other participant also sent it.
   */
  lemma FreshRoundFlags(ps: Roster, k: int, c: int)
    requires AllClear(ps)
    requires 0 <= k < |ps| && 0 <= c < |ps[k].words|
    ensures Deduplicated(ps)[k].words[c].sentByOthers <==>
              exists q | 0 <= q < |ps| && q != k :: Holds(ps[q].words, ps[k].words[c].text)
  {
    var w := ps[k].words[c].text;
    if q :| 0 <= q < |ps| && q != k && Holds(ps[q].words, w) {
      var d :| 0 <= d < |ps[q].words| && ps[q].words[d].text == w;
      assert HoldsUnflagged(ps[q], w);
    }
  }

  /** Flagging changes neither ids nor word texts, so a well-formed roster stays well-formed. */
  lemma DedupWellFormed(ps: Roster)
    requires WellFormed(ps)
    ensures WellFormed(Deduplicated(ps))
  {
    var r := Deduplicated(ps);
    forall k, a, b | 0 <= k < |r| && 0 <= a < b < |r[k].words|
      ensures r[k].words[a].text != r[k].words[b].text
    {
      assert r[k].words[a].text == ps[k].words[a].text;
      assert r[k].words[b].text == ps[k].words[b].text;
    }
  }
}
