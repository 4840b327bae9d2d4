/**
 A private message received during a round: the cheap filters, the "qu" fold
 before tracing and the expansion after it, the points table, and the insertion
 into the sender's word list.
 */
module Submission {

  import opened Board
  import opened Tracer
  import opened Records

  /** Lower-casing of a whole message. */
  function Lower(s: string): (r: string)
    ensures |r| == |s|
    ensures forall i | 0 <= i < |s| :: r[i] == LowerChar(s[i])
  {
    if s == [] then [] else [LowerChar(s[0])] + Lower(s[1..])
  }

  /** Every character belongs to the game language's alphabet. */
  predicate InAlphabet(s: string, lang: Lang)
  {
    forall i | 0 <= i < |s| :: s[i] in Alphabet(lang)
  }

  /** The two-letter substring "qu" occurs somewhere. */
  predicate HasQu(s: string)
  {
    exists i | 0 <= i < |s| - 1 :: s[i] == 'q' && s[i + 1] == 'u'
  }

  /** Every 'q' is immediately followed by 'u'. */
  predicate QuPaired(s: string)
  {
    forall i | 0 <= i < |s| && s[i] == 'q' :: i + 1 < |s| && s[i + 1] == 'u'
  }

  /** Replaces "qu" by the single search symbol 'q', left to right and without overlaps. */
  function Fold(s: string): (r: string)
    ensures |r| <= |s| && 2 * |r| >= |s|
    ensures !HasQu(s) ==> r == s
  {
    if s == [] then []
    else if |s| >= 2 && s[0] == 'q' && s[1] == 'u' then ['q'] + Fold(s[2..])
    else [s[0]] + Fold(s[1..])
  }

  /** Replaces every 'q' by "qu": the spelling shown on the "Qu" die. */
  function Expand(s: string): (r: string)
    ensures |s| <= |r| <= 2 * |s|
    ensures 'q' !in s ==> r == s
  {
    if s == [] then []
    else (if s[0] == 'q' then "qu" else [s[0]]) + Expand(s[1..])
  }

  /** Folding an expanded word gives the word back. */
  lemma {:induction false} FoldExpand(t: string)
    ensures Fold(Expand(t)) == t
  {
    if t != [] {
      FoldExpand(t[1..]);
      var rest := Expand(t[1..]);
      if t[0] == 'q' {
        assert Expand(t) == ['q', 'u'] + rest;
        assert Expand(t)[2..] == rest;
      } else {
        assert Expand(t) == [t[0]] + rest;
        assert Expand(t)[1..] == rest;
      }
    }
  }

  /** Expanding a folded word gives the word back when every 'q' is followed by 'u'. */
  lemma {:induction false} ExpandFold(s: string)
    requires QuPaired(s)
    ensures Expand(Fold(s)) == s
  {
    if s != [] {
      if s[0] == 'q' {
        assert QuPaired(s[2..]);
        ExpandFold(s[2..]);
        var f := ['q'] + Fold(s[2..]);
        assert f[0] == 'q' && f[1..] == Fold(s[2..]);
        assert s == ['q', 'u'] + s[2..];
      } else {
        assert QuPaired(s[1..]);
        ExpandFold(s[1..]);
        var f := [s[0]] + Fold(s[1..]);
        assert f[0] == s[0] && f[1..] == Fold(s[1..]);
      }
    }
  }

  /** Expanding a folded word never makes it shorter than the original. */
  lemma {:induction false} FoldLength(s: string)
    ensures |Expand(Fold(s))| >= |s|
  {
    if s != [] {
      if |s| >= 2 && s[0] == 'q' && s[1] == 'u' {
        FoldLength(s[2..]);
        var f := ['q'] + Fold(s[2..]);
        assert f[0] == 'q' && f[1..] == Fold(s[2..]);
      } else {
        FoldLength(s[1..]);
        var f := [s[0]] + Fold(s[1..]);
        assert f[0] == s[0] && f[1..] == Fold(s[1..]);
      }
    }
  }

  /** Minimum accepted length (for the only board size, 4x4). */
  const MinLength: int := 3

  /** Points for a word, by its length. */
  function Points(w: string): (p: nat)
    ensures p == 0 <==> |w| < MinLength
    ensures p <= 11
    ensures |w| >= 8 ==> p == 11
  {
    var length := |w|;
    if length < 3 then 0
    else if length == 3 || length == 4 then 1
    else if length == 5 then 2
    else if length == 6 then 3
    else if length == 7 then 5
    else 11
  }

  /** A longer word never scores fewer points. */
  lemma PointsMonotone(a: string, b: string)
    requires |a| <= |b|
    ensures Points(a) <= Points(b)
  {
  }

  /** What the bot answers to a submitted message. */
  datatype Verdict =
    | CharNotAlpha
    | TooShort
    | QWithoutU
    | NotValidated
    | AlreadySent
    | Accepted

  datatype Submitted = Submitted(words: seq<Word>, verdict: Verdict)

  /** The message passes the three cheap filters. */
  predicate PassesFilters(w: string, lang: Lang)
  {
    InAlphabet(w, lang) && |w| >= MinLength && !('q' in w && !HasQu(w))
  }

  /** Stores a traced word unless the player already has it. */
  function Insert(words: seq<Word>, e: string): (r: Submitted)
    requires |e| >= MinLength
    ensures r.verdict == AlreadySent <==> Holds(words, e)
    ensures r.verdict == Accepted <==> !Holds(words, e)
    ensures r.verdict == AlreadySent ==> r.words == words
    ensures r.verdict == Accepted ==> r.words == words + [Word(e, Points(e), false, false)]
    ensures DistinctTexts(words) ==> DistinctTexts(r.words)
  {
    if Holds(words, e) then Submitted(words, AlreadySent)
    else Submitted(words + [Word(e, Points(e), false, false)], Accepted)
  }

  /**
   Handles one message: rejects a foreign character, a short word, a 'q' with no
   "qu" anywhere, or a word that cannot be traced after folding; otherwise stores
   the expanded word once, with its points and both flags cleared.
   */
  function Submit(words: seq<Word>, message: string, lang: Lang, g: Grid): (r: Submitted)
    ensures r.verdict == CharNotAlpha <==> !InAlphabet(Lower(message), lang)
    ensures r.verdict == TooShort <==> InAlphabet(Lower(message), lang) && |message| < MinLength
    ensures r.verdict == QWithoutU <==>
              && InAlphabet(Lower(message), lang) && |message| >= MinLength
              && 'q' in Lower(message) && !HasQu(Lower(message))
    ensures r.verdict == NotValidated <==>
              PassesFilters(Lower(message), lang) && !Traceable(g, Fold(Lower(message)))
    ensures r.verdict == AlreadySent <==>
              && PassesFilters(Lower(message), lang) && Traceable(g, Fold(Lower(message)))
              && Holds(words, Expand(Fold(Lower(message))))
    ensures r.verdict == Accepted <==>
              && PassesFilters(Lower(message), lang) && Traceable(g, Fold(Lower(message)))
              && !Holds(words, Expand(Fold(Lower(message))))
    ensures r.verdict != Accepted ==> r.words == words
    ensures r.verdict == Accepted ==>
              var e := Expand(Fold(Lower(message)));
              r.words == words + [Word(e, Points(e), false, false)] && Points(e) > 0
    ensures DistinctTexts(words) ==> DistinctTexts(r.words)
  {
    var w := Lower(message);
    if !InAlphabet(w, lang) then Submitted(words, CharNotAlpha)
    else if |w| < MinLength then Submitted(words, TooShort)
    else if 'q' in w && !HasQu(w) then Submitted(words, QWithoutU)
    else
      var folded := Fold(w);
      if !Validate(g, folded) then Submitted(words, NotValidated)
      else
        var e := Expand(folded);
        assert |e| >= |folded| >= 1;
        FoldExpand(folded);
        FoldLength(w);
        Insert(words, e)
  }

  /** When every 'q' of the message is followed by 'u', the stored word is the message as typed (lower-cased). */
  lemma AcceptedStoresTypedWord(words: seq<Word>, message: string, lang: Lang, g: Grid)
    requires QuPaired(Lower(message))
    requires Submit(words, message, lang, g).verdict == Accepted
    ensures Submit(words, message, lang, g).words == words + [Word(Lower(message), Points(Lower(message)), false, false)]
  {
    var w := Lower(message);
    var r := Submit(words, message, lang, g);
    assert r.words == words + [Word(Expand(Fold(w)), Points(Expand(Fold(w))), false, false)];
    ExpandFold(w);
  }

  /** A second submission of an accepted word is answered "already sent" and changes nothing. */
  lemma ResubmitIsRejected(words: seq<Word>, message: string, lang: Lang, g: Grid)
    requires Submit(words, message, lang, g).verdict == Accepted
    ensures var again := Submit(Submit(words, message, lang, g).words, message, lang, g);
            again.verdict == AlreadySent && again.words == Submit(words, message, lang, g).words
  {
    var r := Submit(words, message, lang, g);
    var e := Expand(Fold(Lower(message)));
    assert r.words[|words|].text == e;
  }
}
