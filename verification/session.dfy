/**
 * The practice-session endpoints over an in-memory word table, question table
 * and attempt log: assembling the items of a new session, recording an
 * attempt (which reviews the word it was about) and the overall statistics.
 */
module PracticeSession {
  import opened Wrappers
  import opened Seqs
  import Srs

  /** The columns of a question row that session assembly looks at. */
  datatype QuestionRow = QuestionRow(id: string, tags: seq<string>)

  /** One item of a session: a due word or a practice question. */
  datatype Item = WordItem(word: Srs.Word) | QuestionItem(question: QuestionRow)

  /** Words are served when no topic is asked for or "vocab" is. */
  predicate WantsWords(topics: seq<string>)
  {
    |topics| == 0 || "vocab" in topics
  }

  /** Questions are served when no topic is asked for or "quant" or "verbal" is. */
  predicate WantsQuestions(topics: seq<string>)
  {
    |topics| == 0 || "quant" in topics || "verbal" in topics
  }

  /** A question carries every requested topic other than "vocab" among its tags. */
  predicate MatchesTopics(q: QuestionRow, topics: seq<string>)
  {
    forall t :: t in topics && t != "vocab" ==> t in q.tags
  }

  /** The questions that match the topics, in table order. */
  function MatchingQuestions(questions: seq<QuestionRow>, topics: seq<string>): (r: seq<QuestionRow>)
    ensures |r| <= |questions|
    ensures forall q :: q in r <==> q in questions && MatchesTopics(q, topics)
    decreases |questions|
  {
    if |questions| == 0 then []
    else
      var rest := MatchingQuestions(questions[1..], topics);
      if MatchesTopics(questions[0], topics) then [questions[0]] + rest else rest
  }

  function WordItems(ws: seq<Srs.Word>): (r: seq<Item>)
    ensures |r| == |ws|
    ensures forall i :: 0 <= i < |r| ==> r[i] == WordItem(ws[i])
  {
    seq(|ws|, i requires 0 <= i < |ws| => WordItem(ws[i]))
  }

  function QuestionItems(qs: seq<QuestionRow>): (r: seq<Item>)
    ensures |r| == |qs|
    ensures forall i :: 0 <= i < |r| ==> r[i] == QuestionItem(qs[i])
  {
    seq(|qs|, i requires 0 <= i < |qs| => QuestionItem(qs[i]))
  }

  /** The due words a session serves (all due words count, new ones included). */
  function SessionWords(words: seq<Srs.Word>, topics: seq<string>, limit: nat, now: int): (r: seq<Srs.Word>)
    ensures |r| <= limit
  {
    if WantsWords(topics) then Srs.GetDueWords(words, now, limit, true) else []
  }

  /** The questions a session serves: matching ones, as many as the words left room for. */
  function SessionQuestions(questions: seq<QuestionRow>, topics: seq<string>, room: nat): (r: seq<QuestionRow>)
    ensures |r| <= room
    ensures forall q :: q in r ==> q in questions && MatchesTopics(q, topics)
  {
    if WantsQuestions(topics) then Take(MatchingQuestions(questions, topics), room) else []
  }

  /**
   * `start_session`: the due words first, then the matching questions, and the
   * whole cut to the limit.
   */
  function StartSession(words: seq<Srs.Word>, questions: seq<QuestionRow>, topics: seq<string>, limit: nat, now: int): (items: seq<Item>)
    ensures |items| <= limit
    ensures forall i, j :: 0 <= i < j < |items| && items[j].WordItem? ==> items[i].WordItem?
    ensures !WantsWords(topics) ==> forall i :: 0 <= i < |items| ==> items[i].QuestionItem?
    ensures !WantsQuestions(topics) ==> forall i :: 0 <= i < |items| ==> items[i].WordItem?
    ensures forall i :: 0 <= i < |items| && items[i].WordItem? ==> Srs.IsDue(items[i].word, now, true)
    ensures forall i :: 0 <= i < |items| && items[i].QuestionItem? ==>
      items[i].question in questions && MatchesTopics(items[i].question, topics)
  {
    var ws := SessionWords(words, topics, limit, now);
    var all := WordItems(ws) + QuestionItems(SessionQuestions(questions, topics, limit - |ws|));
    assert Take(all, limit) == all;
    Take(all, limit)
  }

  /**
   * The session's word items are exactly `get_due_words` in its order, and the
   * questions fill at most the room the words left, so the final cut to the
   * limit never removes anything.
   */
  lemma StartSessionLayout(words: seq<Srs.Word>, questions: seq<QuestionRow>, topics: seq<string>, limit: nat, now: int)
    ensures var items := StartSession(words, questions, topics, limit, now);
      var ws := SessionWords(words, topics, limit, now);
      && |ws| <= |items|
      && items[..|ws|] == WordItems(ws)
      && items[|ws|..] == QuestionItems(SessionQuestions(questions, topics, limit - |ws|))
      && (WantsWords(topics) ==> ws == Srs.GetDueWords(words, now, limit, true))
      && |items| - |ws| <= limit - |ws|
  {
    var ws := SessionWords(words, topics, limit, now);
    var qs := QuestionItems(SessionQuestions(questions, topics, limit - |ws|));
    var all := WordItems(ws) + qs;
    assert Take(all, limit) == all;
    assert all[..|ws|] == WordItems(ws);
    assert all[|ws|..] == qs;
  }

  /**
   * When fewer due words than the limit exist, every one of them is served,
   * and the matching questions are served up to the room that is left.
   */
  lemma StartSessionFillsUp(words: seq<Srs.Word>, questions: seq<QuestionRow>, topics: seq<string>, limit: nat, now: int)
    requires WantsWords(topics) && WantsQuestions(topics)
    ensures var ws := SessionWords(words, topics, limit, now);
      && (|ws| < limit ==> forall w :: w in words && Srs.IsDue(w, now, true) ==> w in ws)
      && |SessionQuestions(questions, topics, limit - |ws|)| == Min(limit - |ws|, |MatchingQuestions(questions, topics)|)
  {
  }

  /* ---------- attempts ---------- */

  /** A row of the attempt log. */
  datatype Attempt = Attempt(
    sessionId: Option<string>,
    itemId: string,
    itemType: string,
    response: string,
    correct: bool,
    latencyMs: int,
    endedAt: int)

  /** A correct answer counts as quality 4, a wrong one as quality 2. */
  function QualityFor(correct: bool): (q: int)
    ensures 0 <= q <= 5
    ensures correct ==> q == 4
    ensures !correct ==> q == 2
  {
    if correct then 4 else 2
  }

  /** The quality a right or wrong answer maps to is a success for SM-2 exactly when the answer was right. */
  lemma QualityForIsSuccess(correct: bool)
    ensures QualityFor(correct) >= 3 <==> correct
    ensures correct ==> Srs.EaseDelta(QualityFor(correct)) == 0.0
    ensures !correct ==> Srs.EaseDelta(QualityFor(correct)) < 0.0
  {
    Srs.EaseDeltaByQuality(QualityFor(correct));
  }

  /** The position of the first word with this id, if any. */
  function FindWord(words: seq<Srs.Word>, id: string): (r: Option<nat>)
    ensures r.Some? ==> r.value < |words| && words[r.value].id == id
    ensures r.Some? ==> forall j :: 0 <= j < r.value ==> words[j].id != id
    ensures r.None? <==> forall j :: 0 <= j < |words| ==> words[j].id != id
    decreases |words|
  {
    if |words| == 0 then None
    else if words[0].id == id then Some(0)
    else
      match FindWord(words[1..], id)
      case None => None
      case Some(i) => Some(i + 1)
  }

  datatype Tables = Tables(words: seq<Srs.Word>, attempts: seq<Attempt>)

  /**
   * `record_attempt`: the attempt is logged; when it is about a word that
   * exists, that word is reviewed with the quality the answer maps to.
   */
  function RecordAttempt(e: Srs.Engine, t: Tables, a: Attempt, now: int): (r: Tables)
    ensures r.attempts == t.attempts + [a]
    ensures |r.words| == |t.words|
    ensures a.itemType != "word" || FindWord(t.words, a.itemId).None? ==> r.words == t.words
    ensures a.itemType == "word" && FindWord(t.words, a.itemId).Some? ==>
      var i := FindWord(t.words, a.itemId).value;
      && r.words[i] == Srs.UpdateWordSrs(e, t.words[i], QualityFor(a.correct), now)
      && r.words[i].lastResult == Some(a.correct)
      && forall j :: 0 <= j < |t.words| && j != i ==> r.words[j] == t.words[j]
  {
    var log := t.attempts + [a];
    if a.itemType == "word" then
      match FindWord(t.words, a.itemId)
      case None => Tables(t.words, log)
      case Some(i) =>
        QualityForIsSuccess(a.correct);
        Tables(t.words[i := Srs.UpdateWordSrs(e, t.words[i], QualityFor(a.correct), now)], log)
    else Tables(t.words, log)
  }

  /**
   * A wrong answer restarts the word (due again tomorrow); a right one keeps
   * its ease when that is above the floor and counts one more repetition.
   */
  lemma AttemptOutcome(e: Srs.Engine, t: Tables, a: Attempt, now: int)
    requires a.itemType == "word" && FindWord(t.words, a.itemId).Some?
    ensures var i := FindWord(t.words, a.itemId).value;
      var w := RecordAttempt(e, t, a, now).words[i];
      && (!a.correct ==> w.intervalDays == Some(1) && w.repetitions == Some(0) && w.nextDue == Some(now + Srs.SecondsPerDay))
      && (a.correct ==> w.repetitions == Some(t.words[i].repetitions.GetOr(0) + 1))
      && (a.correct && Srs.EffectiveEase(e, t.words[i]) > Srs.MinEase ==> w.ease == Some(Srs.EffectiveEase(e, t.words[i])))
  {
    QualityForIsSuccess(a.correct);
  }

  /**
   * A right or wrong answer about a word with a settled schedule takes it out
   * of the due queue until at least a day later.
   */
  lemma AnsweredWordLeavesQueue(e: Srs.Engine, t: Tables, a: Attempt, now: int, limit: nat)
    requires a.itemType == "word" && FindWord(t.words, a.itemId).Some?
    requires Srs.Settled(Srs.StoredSchedule(e, t.words[FindWord(t.words, a.itemId).value]))
    ensures var i := FindWord(t.words, a.itemId).value;
      var w := RecordAttempt(e, t, a, now).words[i];
      w !in Srs.GetDueWords(RecordAttempt(e, t, a, now).words, now, limit, true)
  {
    var i := FindWord(t.words, a.itemId).value;
    Srs.ReviewedWordIsNotDue(e, t.words[i], QualityFor(a.correct), now, true);
  }

  /* ---------- statistics ---------- */

  datatype SessionStats = SessionStats(review: Srs.ReviewStats, totalAttempts: nat, correctAttempts: nat, accuracy: real)

  predicate IsCorrect(a: Attempt)
  {
    a.correct
  }

  /** `get_session_stats`: the review counts plus the share of correct attempts, 0 when there are none. */
  function GetSessionStats(words: seq<Srs.Word>, attempts: seq<Attempt>, now: int): (r: SessionStats)
    ensures r.review == Srs.GetReviewStats(words, now)
    ensures r.totalAttempts == |attempts| && r.correctAttempts == Count(IsCorrect, attempts)
    ensures r.correctAttempts <= r.totalAttempts
    ensures 0.0 <= r.accuracy <= 1.0
    ensures r.totalAttempts == 0 ==> r.accuracy == 0.0
    ensures r.totalAttempts > 0 ==> r.accuracy * r.totalAttempts as real == r.correctAttempts as real
  {
    var total := |attempts|;
    var correct := Count(IsCorrect, attempts);
    SessionStats(Srs.GetReviewStats(words, now), total, correct, Accuracy(correct, total))
  }

  /** `correct / total if total > 0 else 0`, over the reals. */
  function Accuracy(correct: nat, total: nat): (a: real)
    requires correct <= total
    ensures 0.0 <= a <= 1.0
    ensures total == 0 ==> a == 0.0
    ensures total > 0 ==> a * total as real == correct as real
  {
    if total > 0 then
      var a := correct as real / total as real;
      assert a * total as real == correct as real;
      assert a <= 1.0 by {
        if a > 1.0 {
          assert a * total as real > 1.0 * total as real;
        }
      }
      a
    else 0.0
  }

  /** Recording an attempt adds one to the total and, when it was right, one to the correct count. */
  lemma RecordAttemptCounts(e: Srs.Engine, t: Tables, a: Attempt, now: int, clock: int)
    ensures var before := GetSessionStats(t.words, t.attempts, clock);
      var after := GetSessionStats(RecordAttempt(e, t, a, now).words, RecordAttempt(e, t, a, now).attempts, clock);
      && after.totalAttempts == before.totalAttempts + 1
      && after.correctAttempts == before.correctAttempts + (if a.correct then 1 else 0)
  {
    FilterAppend(IsCorrect, t.attempts, [a]);
  }

  /** Accuracy is 1 exactly when there were attempts and every one was right. */
  lemma PerfectAccuracy(words: seq<Srs.Word>, attempts: seq<Attempt>, now: int)
    ensures GetSessionStats(words, attempts, now).accuracy == 1.0 <==>
      |attempts| > 0 && forall i :: 0 <= i < |attempts| ==> attempts[i].correct
  {
    var r := GetSessionStats(words, attempts, now);
    AccuracyIsOne(r.correctAttempts, r.totalAttempts);
    if |attempts| > 0 && forall i :: 0 <= i < |attempts| ==> attempts[i].correct {
      FilterAll(IsCorrect, attempts);
    }
    if r.correctAttempts == |attempts| {
      forall i | 0 <= i < |attempts| ensures attempts[i].correct {
        AllCorrectWhenCountFull(attempts, i);
      }
    }
  }

  lemma AccuracyIsOne(correct: nat, total: nat)
    requires correct <= total
    ensures Accuracy(correct, total) == 1.0 <==> total > 0 && correct == total
  {
    if total > 0 {
      var a := Accuracy(correct, total);
      assert (a - 1.0) * total as real == correct as real - total as real;
    }
  }

  lemma {:induction false} AllCorrectWhenCountFull(attempts: seq<Attempt>, i: nat)
    requires Count(IsCorrect, attempts) == |attempts| && i < |attempts|
    ensures attempts[i].correct
    decreases |attempts|
  {
    FilterAppend(IsCorrect, [attempts[0]], attempts[1..]);
    assert [attempts[0]] + attempts[1..] == attempts;
    if i > 0 {
      AllCorrectWhenCountFull(attempts[1..], i - 1);
    }
  }
}
