/** The numbers and choices of the result screen (`renderResultView`). */
module Scoring {
  import opened Seqs
  import opened Session

  /** The three messages: all correct; at least 80% correct; below that. */
  datatype Tier = Perfect | Close | Review

  /** `correctCount / total`, the message tier, and whether retrying the missed questions
      is offered. */
  datatype Summary = Summary(correct: int, total: nat, tier: Tier, retryWrongOffered: bool)

  /** The result screen's numbers. A question answered wrongly several times counts once.
      The 80% test `correctCount >= total * 0.8` is taken over the integers as
      `5 * correct >= 4 * total`. */
  function Summarize(s: Session): (r: Summary)
    ensures r.total == |s.questions|
    ensures r.correct + |WrongIds(s.wrong)| == r.total
    ensures r.tier == Perfect <==> r.correct == r.total
    ensures r.tier == Close <==> r.correct < r.total && 5 * r.correct >= 4 * r.total
    ensures r.retryWrongOffered <==> s.wrong != []
  {
    var total := |s.questions|;
    var wrongCount := |WrongIds(s.wrong)|;
    var correct := total - wrongCount;
    assert s.wrong != [] ==> s.wrong[0].id in WrongIds(s.wrong);
    var tier :=
      if correct == total then Perfect
      else if 5 * correct >= 4 * total then Close
      else Review;
    Summary(correct, total, tier, wrongCount > 0)
  }

  /** When every wrong answer is one of the session's questions, the score lies between 0
      and the number of questions. */
  lemma ScoreBounds(s: Session)
    requires forall w :: w in s.wrong ==> w in s.questions
    ensures 0 <= Summarize(s).correct <= Summarize(s).total
  {
    var questionIds := set w | w in s.questions :: w.id;
    IdCount(s.questions);
    forall x | x in s.wrong ensures x.id in questionIds {
      assert x in s.questions;
    }
    assert WrongIds(s.wrong) <= questionIds;
    assert questionIds == WrongIds(s.wrong) + (questionIds - WrongIds(s.wrong));
    assert |WrongIds(s.wrong)| <= |questionIds|;
  }

  /** A list of entries has no more distinct ids than entries. */
  lemma {:induction false} IdCount(ws: seq<Word>)
    ensures |set w | w in ws :: w.id| <= |ws|
  {
    if |ws| > 0 {
      IdCount(ws[1..]);
      assert (set w | w in ws :: w.id) == {ws[0].id} + (set w | w in ws[1..] :: w.id) by {
        assert forall x :: x in ws <==> x == ws[0] || x in ws[1..];
      }
    }
  }

  /** Full marks exactly when nothing was answered wrongly; then the perfect message shows
      and retrying the missed questions is not offered. */
  lemma PerfectIffNoWrong(s: Session)
    ensures Summarize(s).correct == Summarize(s).total <==> s.wrong == []
    ensures s.wrong == [] ==> Summarize(s).tier == Perfect && !Summarize(s).retryWrongOffered
  {
    if s.wrong != [] {
      assert s.wrong[0].id in WrongIds(s.wrong);
    }
  }

  /** Missing a question whose id was already missed leaves the result unchanged. */
  lemma RepeatedWrongCountsOnce(s: Session, w: Word)
    requires w.id in WrongIds(s.wrong)
    ensures Summarize(s.(wrong := s.wrong + [w])) == Summarize(s)
  {
    assert WrongIds(s.wrong + [w]) == WrongIds(s.wrong) by {
      forall x | x in s.wrong + [w] ensures x.id in WrongIds(s.wrong) {
        if x != w {
          assert x in s.wrong;
        }
      }
    }
  }

  /** A wrong choice costs one point, unless that question had already been missed. */
  lemma WrongChoiceCost(s: Session, selectedIdx: int, correctIdx: int)
    requires s.screen == Question(false) && s.index < |s.questions|
    requires selectedIdx != correctIdx
    ensures Summarize(CheckChoiceAnswer(s, selectedIdx, correctIdx)).correct
         == Summarize(s).correct - (if Current(s).id in WrongIds(s.wrong) then 0 else 1)
  {
    var w := Current(s);
    var after := s.wrong + [w];
    assert WrongIds(after) == WrongIds(s.wrong) + {w.id} by {
      forall x | x in after ensures x.id in WrongIds(s.wrong) + {w.id} {
        if x != w {
          assert x in s.wrong;
        }
      }
      assert w in after;
    }
  }

  /** Five questions with one of them missed (possibly more than once): four of five, the
      second message, and the retry offered. */
  lemma OneMissOfFive(s: Session, id: string)
    requires |s.questions| == 5 && s.wrong != [] && WrongIds(s.wrong) == {id}
    ensures Summarize(s) == Summary(4, 5, Close, true)
  {
  }
}
