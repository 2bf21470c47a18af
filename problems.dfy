/**
 * The process-wide `history` object of the problem generator and the three
 * operations that change it in place: `tryAddToHistory`, `newProblem` and
 * `cleanHistory`. Each method is proved to leave the store as the matching
 * function of module History prescribes.
 */
module Problems {
  import opened DayKey
  import opened History

  class ProblemStore {
    /** `history[id][dayKey]`: the candidates served for `id` on that day, oldest first. */
    var history: Store

    ghost predicate Valid()
      reads this
    {
      WellFormed(history)
    }

    /** The empty history the program starts with. */
    constructor ()
      ensures Valid() && history == map[]
    {
      history := map[];
    }

    /**
     * `tryAddToHistory(id, q)` on the calendar day `now`: true and `q` appended
     * to today's bucket if that bucket does not already hold it, false and no
     * change otherwise.
     */
    method TryAddToHistory(id: ProblemId, q: Candidate, now: Date) returns (added: bool)
      requires ValidDate(now)
      modifies this
      ensures var a := Admit(old(history), id, q, DateToString(now));
              history == a.store && added == a.added
    {
      var today := DateToString(now);
      AdmitInPlace(history, id, q, today);
      // Create the id's entry and today's bucket where missing.
      var days := if id in history then history[id] else map[];
      var bucket := if today in days then days[today] else [];
      history := history[id := days[today := bucket]];
      // Compare against today's bucket only.
      var found := ScanBucket(bucket, q);
      if found {
        MapUpdateSame(days, today);
        MapUpdateSame(old(history), id);
        return false;
      }
      MapUpdateTwice(days, today, bucket, bucket + [q]);
      MapUpdateTwice(old(history), id, days[today := bucket], days[today := bucket + [q]]);
      history := history[id := history[id][today := bucket + [q]]];
      return true;
    }

    /**
     * The do-while loop of `newProblem`: call the generator (`gen[k]` on the
     * k-th call), count the call, and stop once the candidate is admitted or
     * 200 calls have been made.
     */
    method GenerateUntilAdded(id: ProblemId, gen: seq<Candidate>, now: Date)
      returns (data: Candidate, count: nat, added: bool)
      requires ValidDate(now)
      requires MaxAttempts <= |gen|
      modifies this
      ensures var r := Retry(old(history), id, gen, DateToString(now), 0);
              history == r.store && count == r.count && added == r.admitted && data == gen[count - 1]
    {
      ghost var today := DateToString(now);
      ghost var h0 := history;
      count, added, data := 0, false, [];
      while count == 0 || (!added && count < MaxAttempts)
        invariant count <= MaxAttempts
        invariant count > 0 ==> data == gen[count - 1]
        invariant count == 0 ==> !added
        invariant !added && count < MaxAttempts ==>
                    history == h0 && Retry(h0, id, gen, today, 0) == Retry(h0, id, gen, today, count)
        invariant count > 0 && (added || count == MaxAttempts) ==>
                    Retry(h0, id, gen, today, 0) == Attempts(history, count, added)
        decreases MaxAttempts - count
      {
        data := gen[count];
        added := TryAddToHistory(id, data, now);
        RetryStep(h0, id, gen, today, count, history, added);
        count := count + 1;
      }
    }

    /**
     * `newProblem(id)` as written: the admitted candidate, or `None` for `null`
     * whenever the count reached 200, even when the 200th candidate was admitted.
     * Also returns how many times the generator was called.
     */
    method NewProblem(id: ProblemId, gen: seq<Candidate>, now: Date) returns (problem: Option<Candidate>, calls: nat)
      requires Valid() && ValidDate(now) && 1000 <= now.year <= 9999
      requires MaxAttempts <= |gen|
      modifies this
      ensures Valid()
      ensures var r := Retry(old(history), id, gen, DateToString(now), 0);
              history == r.store && calls == r.count && problem == AsWrittenResult(r, gen)
    {
      var data, added;
      data, calls, added := GenerateUntilAdded(id, gen, now);
      DateToStringFields(now);
      RetryPreservesWellFormed(old(history), id, gen, DateToString(now), 0);
      if calls == MaxAttempts {
        return None, calls;
      }
      return Some(data), calls;
    }

    /** `newProblem(id)` with the test its comment describes: `null` only when no candidate was admitted. */
    method NewProblemIntended(id: ProblemId, gen: seq<Candidate>, now: Date) returns (problem: Option<Candidate>, calls: nat)
      requires Valid() && ValidDate(now) && 1000 <= now.year <= 9999
      requires MaxAttempts <= |gen|
      modifies this
      ensures Valid()
      ensures var r := Retry(old(history), id, gen, DateToString(now), 0);
              history == r.store && calls == r.count && problem == IntendedResult(r, gen)
    {
      var data, added;
      data, calls, added := GenerateUntilAdded(id, gen, now);
      DateToStringFields(now);
      RetryPreservesWellFormed(old(history), id, gen, DateToString(now), 0);
      if !added {
        return None, calls;
      }
      return Some(data), calls;
    }

    /**
     * `cleanHistory()` at the instant `now` (milliseconds): for every id, delete
     * each day bucket whose day started more than three weeks before `now`.
     */
    method CleanHistory(now: int)
      requires Valid()
      modifies this
      ensures Valid()
      ensures history == Cleaned(old(history), now)
    {
      ghost var start := history;
      CleanedWellFormed(start, now);
      PartlyCleanedEnds(start, now);
      var ids := history.Keys;
      while ids != {}
        invariant ids <= start.Keys
        invariant history == PartlyCleaned(start, ids, now)
        decreases ids
      {
        var id :| id in ids;
        PartlyCleanedStep(start, ids, id, now);
        CleanDays(id, now);
        ids := ids - {id};
      }
    }

    /** The inner loop of `cleanHistory`: delete the expired day buckets of one id. */
    method CleanDays(id: ProblemId, now: int)
      requires id in history && AllDayKeys(history[id])
      modifies this
      ensures history == old(history)[id := FreshDays(old(history)[id], now)]
    {
      ghost var days := history[id];
      PartlyFreshEnds(days, now);
      var dateStrings := history[id].Keys;
      while dateStrings != {}
        invariant dateStrings <= days.Keys
        invariant history == old(history)[id := PartlyFresh(days, dateStrings, now)]
        decreases dateStrings
      {
        var dateString :| dateString in dateStrings;
        PartlyFreshStep(days, dateStrings, dateString, now);
        if Expired(dateString, now) {
          history := history[id := history[id] - {dateString}];
        }
        dateStrings := dateStrings - {dateString};
      }
    }
  }
}
