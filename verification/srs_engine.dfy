/**
 * The SM-2 spaced-repetition engine: the pure ease/interval update, its
 * application to a stored word, and the due / new / statistics queries over
 * the word table (a sequence of records in store order).
 */
module Srs {
  import opened Wrappers
  import opened Seqs
  import opened Sorting

  /** `settings.default_ease_factor`, also the column default of `srs_ease`. */
  const DefaultEaseFactor: real := 2.5
  /** The ease floor applied after every update. */
  const MinEase: real := 1.3
  /** `timedelta(days=1)`; timestamps are whole seconds. */
  const SecondsPerDay: int := 86400
  /** `settings.default_new_words_per_day`. */
  const DefaultNewWordsPerDay: nat := 50

  /** The three numbers one SM-2 step reads and writes. */
  datatype Schedule = Schedule(ease: real, interval: nat, repetitions: nat)

  /** Change of the ease before the floor: 0.1 - (5 - q)(0.08 + (5 - q) 0.02). */
  function EaseDelta(quality: int): real
  {
    var miss := (5 - quality) as real;
    0.1 - miss * (0.08 + miss * 0.02)
  }

  lemma ProductNonNegative(x: real, y: real)
    requires x >= 0.0 && y >= 0.0
    ensures x * y >= 0.0
  {
  }

  /**
   * One SM-2 step. A quality below 3 is a failure and restarts the schedule; a
   * success counts one more repetition, uses the fixed intervals 1 and 3 for
   * the first two, and afterwards multiplies the previous interval by the new
   * ease, truncated. The quality is not range-checked.
   */
  function CalculateNextReview(ease: real, interval: nat, repetitions: nat, quality: int): (r: Schedule)
    ensures r.ease >= MinEase
    ensures r.ease >= ease + EaseDelta(quality)
    ensures r.ease > MinEase ==> r.ease == ease + EaseDelta(quality)
    ensures quality < 3 ==> r.interval == 1 && r.repetitions == 0
    ensures quality >= 3 ==> r.repetitions == repetitions + 1
    ensures quality >= 3 && repetitions == 0 ==> r.interval == 1
    ensures quality >= 3 && repetitions == 1 ==> r.interval == 3
    ensures quality >= 3 && repetitions >= 2 ==>
      r.interval as real <= interval as real * r.ease < r.interval as real + 1.0
  {
    var raised := ease + EaseDelta(quality);
    var newEase := if raised > MinEase then raised else MinEase;
    if quality < 3 then Schedule(newEase, 1, 0)
    else if repetitions == 0 then Schedule(newEase, 1, 1)
    else if repetitions == 1 then Schedule(newEase, 3, 2)
    else
      ProductNonNegative(interval as real, newEase);
      Schedule(newEase, (interval as real * newEase).Floor, repetitions + 1)
  }

  /** Before the floor, a better recall never changes the ease by less (for qualities up to 5). */
  lemma EaseDeltaMonotone(q1: int, q2: int)
    requires q1 <= q2 <= 5
    ensures EaseDelta(q1) <= EaseDelta(q2)
  {
    var m1 := (5 - q1) as real;
    var m2 := (5 - q2) as real;
    assert m1 >= m2 >= 0.0;
    assert m1 * m1 >= m2 * m2 by {
      assert m1 * m1 - m2 * m2 == (m1 - m2) * (m1 + m2);
      ProductNonNegative(m1 - m2, m1 + m2);
    }
  }

  /** Quality 5 adds 0.1, quality 4 leaves the ease unchanged, qualities 0 to 3 lower it. */
  lemma EaseDeltaByQuality(quality: int)
    requires 0 <= quality <= 5
    ensures quality == 5 ==> EaseDelta(quality) == 0.1
    ensures quality == 4 ==> EaseDelta(quality) == 0.0
    ensures quality <= 3 ==> EaseDelta(quality) <= -0.14
  {
    if quality <= 3 {
      EaseDeltaMonotone(quality, 3);
    }
  }

  /** Hence a review never raises the ease by more than 0.1 above a floor-respecting ease. */
  lemma EaseRisesAtMostATenth(ease: real, interval: nat, repetitions: nat, quality: int)
    requires ease >= MinEase && 0 <= quality <= 5
    ensures CalculateNextReview(ease, interval, repetitions, quality).ease <= ease + 0.1
    ensures quality == 4 ==> CalculateNextReview(ease, interval, repetitions, quality).ease == ease
    ensures quality <= 3 && ease > MinEase ==> CalculateNextReview(ease, interval, repetitions, quality).ease < ease
  {
    EaseDeltaMonotone(quality, 5);
    EaseDeltaByQuality(quality);
  }

  /**
   * From the third success on, the interval never shrinks, and from four days
   * on it grows by at least a day, because the ease is at least 1.3.
   */
  lemma IntervalNeverShrinks(ease: real, interval: nat, repetitions: nat, quality: int)
    requires quality >= 3 && repetitions >= 2
    ensures CalculateNextReview(ease, interval, repetitions, quality).interval >= interval
    ensures interval >= 4 ==> CalculateNextReview(ease, interval, repetitions, quality).interval >= interval + 1
  {
    var r := CalculateNextReview(ease, interval, repetitions, quality);
    var i := interval as real;
    assert i * r.ease >= i * MinEase by {
      ProductNonNegative(i, r.ease - MinEase);
    }
    assert (r.interval + 1) as real > i;
    if interval >= 4 {
      assert (r.interval + 1) as real > i + 1.0;
    }
  }

  /* ---------- a history of reviews ---------- */

  function Review(s: Schedule, quality: int): Schedule
  {
    CalculateNextReview(s.ease, s.interval, s.repetitions, quality)
  }

  /** Applies the reviews `qualities` in order. */
  function Replay(s: Schedule, qualities: seq<int>): Schedule
    decreases |qualities|
  {
    if |qualities| == 0 then s else Replay(Review(s, qualities[0]), qualities[1..])
  }

  predicate AllSucceed(qualities: seq<int>)
  {
    forall i :: 0 <= i < |qualities| ==> qualities[i] >= 3
  }

  /** Number of successful reviews at the end of `qualities`. */
  function SuccessStreak(qualities: seq<int>): nat
    decreases |qualities|
  {
    if |qualities| == 0 || qualities[|qualities| - 1] < 3 then 0
    else SuccessStreak(qualities[..|qualities| - 1]) + 1
  }

  lemma {:induction false} ReplayAppend(s: Schedule, qualities: seq<int>, q: int)
    ensures Replay(s, qualities + [q]) == Review(Replay(s, qualities), q)
    decreases |qualities|
  {
    if |qualities| > 0 {
      assert (qualities + [q])[1..] == qualities[1..] + [q];
      ReplayAppend(Review(s, qualities[0]), qualities[1..], q);
    }
  }

  /**
   * The repetition count is the number of consecutive successes since the last
   * failure; with no failure in the history it continues the starting count.
   */
  lemma {:induction false} ReplayCountsStreak(s: Schedule, qualities: seq<int>)
    ensures Replay(s, qualities).repetitions ==
      if AllSucceed(qualities) then s.repetitions + |qualities| else SuccessStreak(qualities)
    decreases |qualities|
  {
    if |qualities| > 0 {
      var init := qualities[..|qualities| - 1];
      var q := qualities[|qualities| - 1];
      assert qualities == init + [q];
      ReplayAppend(s, init, q);
      ReplayCountsStreak(s, init);
      if AllSucceed(qualities) {
        assert AllSucceed(init);
      } else if q >= 3 {
        assert !AllSucceed(init) by {
          var k :| 0 <= k < |qualities| && qualities[k] < 3;
          assert k < |init| && init[k] == qualities[k];
        }
      }
    }
  }

  /** Once two successes are in a row the interval is at least the bootstrap value 3. */
  predicate Settled(s: Schedule)
  {
    s.repetitions >= 2 ==> s.interval >= 3
  }

  /** A review keeps a schedule settled and always leaves an interval of at least one day. */
  lemma ReviewKeepsSettled(s: Schedule, quality: int)
    requires Settled(s)
    ensures Settled(Review(s, quality))
    ensures Review(s, quality).interval >= 1
  {
    if quality >= 3 && s.repetitions >= 2 {
      IntervalNeverShrinks(s.ease, s.interval, s.repetitions, quality);
    }
  }

  lemma {:induction false} ReplayKeepsSettled(s: Schedule, qualities: seq<int>)
    requires Settled(s)
    ensures Settled(Replay(s, qualities))
    ensures |qualities| > 0 ==> Replay(s, qualities).interval >= 1
    decreases |qualities|
  {
    if |qualities| > 0 {
      ReviewKeepsSettled(s, qualities[0]);
      ReplayKeepsSettled(Review(s, qualities[0]), qualities[1..]);
    }
  }

  /* ---------- stored words ---------- */

  /** The SRS columns of a stored word; every column is nullable. */
  datatype Word = Word(
    id: string,
    text: string,
    ease: Option<real>,
    intervalDays: Option<nat>,
    repetitions: Option<nat>,
    nextDue: Option<int>,
    lastResult: Option<bool>)

  /** A word as inserted, with the column defaults. */
  function NewWord(id: string, text: string): (w: Word)
    ensures w.id == id && w.text == text
    ensures w.nextDue.None? && w.lastResult.None?
  {
    Word(id, text, Some(DefaultEaseFactor), Some(0), Some(0), None, None)
  }

  /** The engine's configured starting ease. */
  datatype Engine = Engine(defaultEase: real)

  /** `default_ease or settings.default_ease_factor`: an absent or zero request falls back to 2.5. */
  function MakeEngine(requested: Option<real>): (e: Engine)
    ensures e.defaultEase != 0.0
    ensures requested.Some? && requested.value != 0.0 ==> e.defaultEase == requested.value
    ensures requested.None? || requested == Some(0.0) ==> e.defaultEase == DefaultEaseFactor
  {
    if requested.Some? && requested.value != 0.0 then Engine(requested.value) else Engine(DefaultEaseFactor)
  }

  /** `word.srs_ease or default_ease`: a null or zero ease reads as the engine default. */
  function EffectiveEase(e: Engine, w: Word): real
  {
    if w.ease.None? || w.ease.value == 0.0 then e.defaultEase else w.ease.value
  }

  /** The schedule `update_word_srs` reads, with nulls read as 0. */
  function StoredSchedule(e: Engine, w: Word): Schedule
  {
    Schedule(EffectiveEase(e, w), w.intervalDays.GetOr(0), w.repetitions.GetOr(0))
  }

  /**
   * Records one review of `w` at time `now`: the word's schedule advances by one
   * SM-2 step, it is due again `interval` days later, and its last result says
   * whether the recall succeeded. Identity columns do not change.
   */
  function UpdateWordSrs(e: Engine, w: Word, quality: int, now: int): (r: Word)
    ensures r.id == w.id && r.text == w.text
    ensures r.ease.Some? && r.intervalDays.Some? && r.repetitions.Some? && r.nextDue.Some?
    ensures Schedule(r.ease.value, r.intervalDays.value, r.repetitions.value) == Review(StoredSchedule(e, w), quality)
    ensures r.ease.value >= MinEase
    ensures r.lastResult == Some(quality >= 3)
    ensures r.nextDue.value == now + r.intervalDays.value * SecondsPerDay
    ensures quality < 3 ==> r.intervalDays == Some(1) && r.repetitions == Some(0)
    ensures quality >= 3 ==> r.repetitions == Some(w.repetitions.GetOr(0) + 1)
  {
    var s := Review(StoredSchedule(e, w), quality);
    w.(ease := Some(s.ease), intervalDays := Some(s.interval), repetitions := Some(s.repetitions),
       lastResult := Some(quality >= 3), nextDue := Some(now + s.interval * SecondsPerDay))
  }

  /* ---------- queries ---------- */

  predicate IsNew(w: Word)
  {
    w.nextDue.None?
  }

  predicate IsOverdue(w: Word, now: int)
  {
    w.nextDue.Some? && w.nextDue.value <= now
  }

  predicate IsUpcoming(w: Word, now: int)
  {
    w.nextDue.Some? && w.nextDue.value > now
  }

  /** The filter of `get_due_words`: new words only when `includeNew`, dated words once their time has come. */
  predicate IsDue(w: Word, now: int, includeNew: bool)
  {
    (includeNew && IsNew(w)) || IsOverdue(w, now)
  }

  function DueAt(now: int, includeNew: bool): Word -> bool
  {
    w => IsDue(w, now, includeNew)
  }

  /** Ascending due date with undated words first. */
  predicate DueNoLater(a: Word, b: Word)
  {
    a.nextDue.None? || (b.nextDue.Some? && a.nextDue.value <= b.nextDue.value)
  }

  lemma DueNoLaterIsTotalPreorder()
    ensures TotalPreorder(DueNoLater)
  {
  }

  /** Every due word, ordered by due date with new words first. */
  function DueQueue(words: seq<Word>, now: int, includeNew: bool): (q: seq<Word>)
    ensures SortedBy(DueNoLater, q)
    ensures multiset(q) == multiset(Filter(DueAt(now, includeNew), words))
  {
    DueNoLaterIsTotalPreorder();
    Sort(DueNoLater, Filter(DueAt(now, includeNew), words))
  }

  /** The due queue holds exactly the due words of the table. */
  lemma DueQueueMembers(words: seq<Word>, now: int, includeNew: bool)
    ensures forall w :: w in DueQueue(words, now, includeNew) <==> w in words && IsDue(w, now, includeNew)
    ensures multiset(DueQueue(words, now, includeNew)) <= multiset(words)
  {
    var q := DueQueue(words, now, includeNew);
    var f := Filter(DueAt(now, includeNew), words);
    forall w ensures w in q <==> w in f {
      assert w in q <==> w in multiset(q);
      assert w in f <==> w in multiset(f);
    }
  }

  /**
   * `get_due_words`: at most `limit` words, each due at `now`, new words first
   * and then by ascending due date; fewer than `limit` only when every due word
   * is returned.
   */
  function GetDueWords(words: seq<Word>, now: int, limit: nat, includeNew: bool): (r: seq<Word>)
    ensures |r| <= limit
    ensures forall i :: 0 <= i < |r| ==> IsDue(r[i], now, includeNew)
    ensures forall i :: 0 <= i < |r| && r[i].nextDue.None? ==> includeNew
    ensures forall i :: 0 <= i < |r| && r[i].nextDue.Some? ==> r[i].nextDue.value <= now
    ensures forall i, j :: 0 <= i < j < |r| && r[j].nextDue.None? ==> r[i].nextDue.None?
    ensures forall i, j :: 0 <= i < j < |r| && r[i].nextDue.Some? && r[j].nextDue.Some? ==>
      r[i].nextDue.value <= r[j].nextDue.value
    ensures multiset(r) <= multiset(words)
    ensures |r| < limit ==> forall w :: w in words && IsDue(w, now, includeNew) ==> w in r
  {
    var q := DueQueue(words, now, includeNew);
    var r := Take(q, limit);
    TakeFacts(words, now, includeNew, q, r);
    r
  }

  lemma TakeFacts(words: seq<Word>, now: int, includeNew: bool, q: seq<Word>, r: seq<Word>)
    requires q == DueQueue(words, now, includeNew)
    requires |r| <= |q| && r == q[..|r|]
    ensures forall i :: 0 <= i < |r| ==> IsDue(r[i], now, includeNew)
    ensures forall i, j :: 0 <= i < j < |r| ==> DueNoLater(r[i], r[j])
    ensures multiset(r) <= multiset(words)
    ensures |r| == |q| ==> forall w :: w in words && IsDue(w, now, includeNew) ==> w in r
  {
    DueQueueMembers(words, now, includeNew);
    assert q == r + q[|r|..];
    assert multiset(q) == multiset(r) + multiset(q[|r|..]);
    forall i | 0 <= i < |r| ensures IsDue(r[i], now, includeNew) {
      assert r[i] == q[i];
      assert q[i] in q;
    }
  }

  /** A due word left out because of the limit is due no earlier than any word returned. */
  lemma SkippedDueWordsComeLater(words: seq<Word>, now: int, limit: nat, includeNew: bool)
    ensures var r := GetDueWords(words, now, limit, includeNew);
      forall w, i :: w in multiset(Filter(DueAt(now, includeNew), words)) - multiset(r) && 0 <= i < |r| ==>
        DueNoLater(r[i], w)
  {
    var q := DueQueue(words, now, includeNew);
    SkippedComeLater(q, Take(q, limit));
  }

  /** In a queue sorted by due date, whatever is left after a prefix is due no earlier than the prefix. */
  lemma SkippedComeLater(q: seq<Word>, r: seq<Word>)
    requires SortedBy(DueNoLater, q) && |r| <= |q| && r == q[..|r|]
    ensures forall w, i :: w in multiset(q) - multiset(r) && 0 <= i < |r| ==> DueNoLater(r[i], w)
  {
    var rest := q[|r|..];
    assert q == r + rest;
    assert multiset(q) == multiset(r) + multiset(rest);
    SortedSplit(DueNoLater, q, |r|);
    forall w, i | w in multiset(q) - multiset(r) && 0 <= i < |r|
      ensures DueNoLater(r[i], w)
    {
      assert w in multiset(rest);
      var j :| 0 <= j < |rest| && rest[j] == w;
      assert q[|r| + j] == w;
    }
  }

  /** `get_new_words`: `limit or default_new_words_per_day`. */
  function NewWordsLimit(limit: Option<nat>): (n: nat)
    ensures n > 0
    ensures limit.Some? && limit.value > 0 ==> n == limit.value
    ensures limit.None? || limit.value == 0 ==> n == DefaultNewWordsPerDay
  {
    if limit.None? || limit.value == 0 then DefaultNewWordsPerDay else limit.value
  }

  /** `get_new_words`: never-reviewed words in store order, at most the effective limit. */
  function GetNewWords(words: seq<Word>, limit: Option<nat>): (r: seq<Word>)
    ensures |r| <= NewWordsLimit(limit)
    ensures forall i :: 0 <= i < |r| ==> IsNew(r[i])
    ensures multiset(r) <= multiset(words)
    ensures |r| < NewWordsLimit(limit) ==> forall w :: w in words && IsNew(w) ==> w in r
  {
    var all := Filter(IsNew, words);
    var r := Take(all, NewWordsLimit(limit));
    assert all == r + all[|r|..];
    assert multiset(all) == multiset(r) + multiset(all[|r|..]);
    forall i | 0 <= i < |r| ensures IsNew(r[i]) {
      assert r[i] in all;
    }
    r
  }

  datatype ReviewStats = ReviewStats(totalWords: nat, newWords: nat, dueWords: nat, upcomingWords: int)

  function OverdueAt(now: int): Word -> bool
  {
    w => IsOverdue(w, now)
  }

  function UpcomingAt(now: int): Word -> bool
  {
    w => IsUpcoming(w, now)
  }

  predicate IsDated(w: Word)
  {
    w.nextDue.Some?
  }

  predicate Anything(w: Word)
  {
    true
  }

  /**
   * `get_review_stats`: new and overdue words are counted separately and the
   * remainder is exactly the words scheduled after `now`, so it is never negative.
   */
  function GetReviewStats(words: seq<Word>, now: int): (r: ReviewStats)
    ensures r.totalWords == |words|
    ensures r.newWords == Count(IsNew, words)
    ensures r.dueWords == Count(OverdueAt(now), words)
    ensures r.upcomingWords == Count(UpcomingAt(now), words)
    ensures r.upcomingWords >= 0
    ensures r.newWords + r.dueWords + r.upcomingWords == r.totalWords
  {
    FilterAll(Anything, words);
    CountDisjointUnion(IsNew, IsDated, Anything, words);
    CountDisjointUnion(OverdueAt(now), UpcomingAt(now), IsDated, words);
    var total := |words|;
    var newCount := Count(IsNew, words);
    var due := Count(OverdueAt(now), words);
    ReviewStats(total, newCount, due, total - newCount - due)
  }

  /** The new and due counts are the sizes of the two due queues. */
  lemma StatsMatchDueQueue(words: seq<Word>, now: int)
    ensures GetReviewStats(words, now).newWords + GetReviewStats(words, now).dueWords ==
      |DueQueue(words, now, true)|
    ensures GetReviewStats(words, now).dueWords == |DueQueue(words, now, false)|
  {
    CountDisjointUnion(IsNew, OverdueAt(now), DueAt(now, true), words);
    FilterCongruent(OverdueAt(now), DueAt(now, false), words);
    assert |DueQueue(words, now, true)| == |multiset(Filter(DueAt(now, true), words))|;
    assert |DueQueue(words, now, false)| == |multiset(Filter(DueAt(now, false), words))|;
  }

  /**
   * A word with a settled schedule that has just been reviewed is due strictly
   * later than `now`, so it drops out of the due queue.
   */
  lemma ReviewedWordIsNotDue(e: Engine, w: Word, quality: int, now: int, includeNew: bool)
    requires Settled(StoredSchedule(e, w))
    ensures UpdateWordSrs(e, w, quality, now).nextDue.value >= now + SecondsPerDay
    ensures !IsDue(UpdateWordSrs(e, w, quality, now), now, includeNew)
    ensures Settled(StoredSchedule(e, UpdateWordSrs(e, w, quality, now)))
  {
    ReviewKeepsSettled(StoredSchedule(e, w), quality);
    var r := UpdateWordSrs(e, w, quality, now);
    assert r.intervalDays.value * SecondsPerDay >= SecondsPerDay;
  }
}
