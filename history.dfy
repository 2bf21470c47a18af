/**
 * The problem history as a value: problem id -> day key -> the candidates
 * admitted that day, oldest first. These functions say what admission, the
 * retry loop of `newProblem` and the age-based cleanup do to that value; the
 * class in module Problems performs them in place and is proved against them.
 */
module History {
  import opened Decimal
  import opened DayKey
  import opened Json

  type ProblemId = string
  /** The randomised parameters `q` of one generated problem. */
  type Candidate = seq<int>
  type Days = map<string, seq<Candidate>>
  type Store = map<ProblemId, Days>

  datatype Option<T> = None | Some(value: T)

  /** The day buckets of `id`; an id never seen has none. */
  function DaysOf(h: Store, id: ProblemId): Days {
    if id in h then h[id] else map[]
  }

  /** The candidates admitted for `id` on `day`; a missing bucket is empty. */
  function Bucket(h: Store, id: ProblemId, day: string): seq<Candidate> {
    if day in DaysOf(h, id) then DaysOf(h, id)[day] else []
  }

  predicate Distinct(b: seq<Candidate>) {
    forall i, j :: 0 <= i < j < |b| ==> b[i] != b[j]
  }

  lemma MapUpdateTwice<K, V>(m: map<K, V>, k: K, a: V, b: V)
    ensures m[k := a][k := b] == m[k := b]
  {
  }

  lemma MapUpdateSame<K, V>(m: map<K, V>, k: K)
    requires k in m
    ensures m[k := m[k]] == m
  {
  }

  /** Every bucket is filed under an eight-digit day key and holds no candidate twice. */
  predicate WellFormed(h: Store) {
    forall id, day :: id in h && day in h[id] ==> IsDayKey(day) && Distinct(h[id][day])
  }

  /** Apart from the bucket (`id`, `day`), `h'` holds exactly what `h` holds. */
  ghost predicate OthersUnchanged(h: Store, h': Store, id: ProblemId, day: string) {
    && (forall i :: i != id ==> (i in h <==> i in h'))
    && (forall i :: i in h && i != id ==> h'[i] == h[i])
    && (forall d :: d != day ==> (d in DaysOf(h, id) <==> d in DaysOf(h', id)))
    && (forall d :: d in DaysOf(h, id) && d != day ==> DaysOf(h', id)[d] == DaysOf(h, id)[d])
  }

  /**
   * The linear scan of `tryAddToHistory` over today's bucket, comparing JSON
   * texts. Finds a match exactly when the candidate is already in the bucket.
   */
  method ScanBucket(bucket: seq<Candidate>, q: Candidate) returns (found: bool)
    ensures found <==> q in bucket
  {
    var text := Stringify(q);
    for i := 0 to |bucket|
      invariant forall j :: 0 <= j < i ==> bucket[j] != q
    {
      var same := Stringify(bucket[i]) == text;
      assert same <==> bucket[i] == q by {
        StringifyInjective(bucket[i], q);
      }
      if same {
        return true;
      }
    }
    return false;
  }

  datatype Admission = Admission(store: Store, added: bool)

  /**
   * `tryAddToHistory(id, q)` on the day whose key is `today`: the id entry and
   * today's bucket are created if missing, then `q` is appended unless today's
   * bucket already holds it. Only today's bucket is consulted.
   */
  function Admit(h: Store, id: ProblemId, q: Candidate, today: string): (r: Admission)
    ensures r.added <==> q !in Bucket(h, id, today)
    ensures !r.added ==> r.store == h
    ensures r.added ==> Bucket(r.store, id, today) == Bucket(h, id, today) + [q]
  {
    var days := DaysOf(h, id)[today := Bucket(h, id, today)];
    var created := h[id := days];
    if q in days[today] then
      assert days == h[id];
      Admission(created, false)
    else
      Admission(created[id := days[today := days[today] + [q]]], true)
  }

  /**
   * Admission touches nothing but the bucket (`id`, `today`): when it adds, the
   * id and the day exist afterwards and the bucket holds `q` last.
   */
  lemma AdmitFrame(h: Store, id: ProblemId, q: Candidate, today: string)
    ensures var r := Admit(h, id, q, today);
            && (r.added ==> r.store.Keys == h.Keys + {id} && r.store[id].Keys == DaysOf(h, id).Keys + {today}
                            && r.store[id][today] == Bucket(h, id, today) + [q])
            && OthersUnchanged(h, r.store, id, today)
  {
  }

  /**
   * Admission as the source performs it in place: with today's bucket created
   * when missing, a repeat leaves the store as it was and anything else is
   * appended to that bucket.
   */
  lemma AdmitInPlace(h: Store, id: ProblemId, q: Candidate, today: string)
    ensures var days := DaysOf(h, id)[today := Bucket(h, id, today)];
            Admit(h, id, q, today)
            == if q in days[today] then Admission(h, false)
               else Admission(h[id := days[today := days[today] + [q]]], true)
  {
  }

  /** Admission keeps every bucket free of repeats and every key well-formed. */
  lemma AdmitPreservesWellFormed(h: Store, id: ProblemId, q: Candidate, today: string)
    requires WellFormed(h) && IsDayKey(today)
    ensures WellFormed(Admit(h, id, q, today).store)
  {
    var r := Admit(h, id, q, today);
    AdmitFrame(h, id, q, today);
    if r.added {
      var b := Bucket(h, id, today);
      assert Distinct(b + [q]) by {
        forall i, j | 0 <= i < j < |b| + 1 ensures (b + [q])[i] != (b + [q])[j] {
          if j == |b| {
            assert b[i] in b;
          }
        }
      }
      var s := r.store;
      forall i, d | i in s && d in s[i] ensures IsDayKey(d) && Distinct(s[i][d]) {
        if i == id && d != today {
          assert d in DaysOf(h, id) && s[i][d] == DaysOf(h, id)[d];
        }
      }
    }
  }

  /** Once admitted, the same candidate is refused for the rest of that day. */
  lemma SameDayRepeatRefused(h: Store, id: ProblemId, q: Candidate, today: string)
    requires Admit(h, id, q, today).added
    ensures var h1 := Admit(h, id, q, today).store;
            !Admit(h1, id, q, today).added && Admit(h1, id, q, today).store == h1
  {
    var h1 := Admit(h, id, q, today).store;
    assert Bucket(h1, id, today) == Bucket(h, id, today) + [q];
  }

  /**
   * The duplicate check reads today's bucket only: a candidate served on an
   * earlier day is admitted again, and is then stored under both days.
   */
  lemma EarlierDayDoesNotBlock(h: Store, id: ProblemId, q: Candidate, earlier: string, today: string)
    requires earlier != today && q in Bucket(h, id, earlier) && q !in Bucket(h, id, today)
    ensures var r := Admit(h, id, q, today);
            r.added && q in Bucket(r.store, id, earlier) && q in Bucket(r.store, id, today)
  {
    var r := Admit(h, id, q, today);
    AdmitFrame(h, id, q, today);
    assert earlier in DaysOf(h, id);
    assert Bucket(r.store, id, earlier) == Bucket(h, id, earlier);
    assert q in r.store[id][today];
  }

  const MaxAttempts: nat := 200

  /** Where the retry loop of `newProblem` stops: the store, the calls made, whether the last call was admitted. */
  datatype Attempts = Attempts(store: Store, count: nat, admitted: bool)

  /**
   * The do-while loop of `newProblem` from its `count`-th call on, with `gen[k]`
   * the candidate the generator produces on call number k (from 0): generate,
   * count, and stop once a candidate is admitted or 200 calls have been made.
   */
  function Retry(h: Store, id: ProblemId, gen: seq<Candidate>, today: string, count: nat): (r: Attempts)
    requires count < MaxAttempts <= |gen|
    ensures count < r.count <= MaxAttempts
    ensures r.admitted || r.count == MaxAttempts
    decreases MaxAttempts - count
  {
    var a := Admit(h, id, gen[count], today);
    if a.added || count + 1 == MaxAttempts then Attempts(a.store, count + 1, a.added)
    else Retry(a.store, id, gen, today, count + 1)
  }

  /**
   * Every call before the last produced a repeat of today's bucket; the last
   * was admitted exactly when it was new; the store changed only by admitting
   * that last candidate.
   */
  lemma {:induction false} RetryOutcome(h: Store, id: ProblemId, gen: seq<Candidate>, today: string, count: nat)
    requires count < MaxAttempts <= |gen|
    ensures var r := Retry(h, id, gen, today, count);
            && (forall k :: count <= k < r.count - 1 ==> gen[k] in Bucket(h, id, today))
            && (r.admitted <==> gen[r.count - 1] !in Bucket(h, id, today))
            && r.store == Admit(h, id, gen[r.count - 1], today).store
    decreases MaxAttempts - count
  {
    var a := Admit(h, id, gen[count], today);
    if !a.added && count + 1 < MaxAttempts {
      RetryOutcome(a.store, id, gen, today, count + 1);
    }
  }

  /**
   * One turn of the loop, given the store and the verdict admission produced
   * for the next candidate: the loop stops with them, or goes on from an
   * unchanged store.
   */
  lemma RetryStep(h: Store, id: ProblemId, gen: seq<Candidate>, today: string, count: nat, h': Store, added: bool)
    requires count < MaxAttempts <= |gen|
    requires h' == Admit(h, id, gen[count], today).store && added == Admit(h, id, gen[count], today).added
    ensures added || count + 1 == MaxAttempts ==> Retry(h, id, gen, today, count) == Attempts(h', count + 1, added)
    ensures !added ==> h' == h
    ensures !added && count + 1 < MaxAttempts ==> Retry(h, id, gen, today, count) == Retry(h, id, gen, today, count + 1)
  {
  }

  /** However the loop ends, every bucket is still free of repeats and filed under a day key. */
  lemma {:induction false} RetryPreservesWellFormed(h: Store, id: ProblemId, gen: seq<Candidate>, today: string, count: nat)
    requires count < MaxAttempts <= |gen|
    requires WellFormed(h) && IsDayKey(today)
    ensures WellFormed(Retry(h, id, gen, today, count).store)
    decreases MaxAttempts - count
  {
    var a := Admit(h, id, gen[count], today);
    AdmitPreservesWellFormed(h, id, gen[count], today);
    if !a.added && count + 1 < MaxAttempts {
      RetryPreservesWellFormed(a.store, id, gen, today, count + 1);
    }
  }

  /** `newProblem`'s verdict as written: `null` when the count reached 200, the last candidate otherwise. */
  function AsWrittenResult(r: Attempts, gen: seq<Candidate>): (p: Option<Candidate>)
    requires 1 <= r.count <= MaxAttempts <= |gen|
    ensures p == None <==> r.count == MaxAttempts
    ensures p.Some? ==> p.value == gen[r.count - 1]
  {
    if r.count == MaxAttempts then None else Some(gen[r.count - 1])
  }

  /** The verdict the source's comment promises: `null` only when no attempt was admitted. */
  function IntendedResult(r: Attempts, gen: seq<Candidate>): (p: Option<Candidate>)
    requires 1 <= r.count <= MaxAttempts <= |gen|
    ensures p == None <==> !r.admitted
    ensures p.Some? ==> p.value == gen[r.count - 1]
  {
    if r.admitted then Some(gen[r.count - 1]) else None
  }

  /**
   * As written, `newProblem` returns a problem exactly when an attempt before
   * the 200th was admitted, and that problem is then the last one in today's
   * bucket; on `null` the generator was called 200 times.
   */
  lemma AsWrittenResultMeaning(h: Store, id: ProblemId, gen: seq<Candidate>, today: string)
    requires MaxAttempts <= |gen|
    ensures var r := Retry(h, id, gen, today, 0);
            var p := AsWrittenResult(r, gen);
            && (p.Some? <==> r.admitted && r.count < MaxAttempts)
            && (p.Some? ==> gen[r.count - 1] !in Bucket(h, id, today)
                            && Bucket(r.store, id, today) == Bucket(h, id, today) + [p.value])
            && (p.None? ==> r.count == MaxAttempts)
  {
    var r := Retry(h, id, gen, today, 0);
    RetryOutcome(h, id, gen, today, 0);
    if r.admitted {
      assert Bucket(r.store, id, today) == r.store[id][today];
    }
  }

  /**
   * The off-by-one of the source: when the first 199 candidates are repeats of
   * today's bucket and the 200th is new, the 200th is admitted and kept in the
   * history, yet the result is `null`.
   */
  lemma LastAttemptAdmittedYetNull(h: Store, id: ProblemId, gen: seq<Candidate>, today: string)
    requires MaxAttempts <= |gen|
    requires forall k :: 0 <= k < MaxAttempts - 1 ==> gen[k] in Bucket(h, id, today)
    requires gen[MaxAttempts - 1] !in Bucket(h, id, today)
    ensures var r := Retry(h, id, gen, today, 0);
            && r.admitted && r.count == MaxAttempts
            && gen[MaxAttempts - 1] in Bucket(r.store, id, today)
            && AsWrittenResult(r, gen) == None
  {
    var r := Retry(h, id, gen, today, 0);
    RetryOutcome(h, id, gen, today, 0);
    assert r.store[id][today] == Bucket(h, id, today) + [gen[MaxAttempts - 1]];
  }

  /**
   * A generator that only repeats candidates already served today is called
   * exactly 200 times; nothing is stored and the result is `null`.
   */
  lemma AllRepeatsExhaust(h: Store, id: ProblemId, gen: seq<Candidate>, today: string)
    requires MaxAttempts <= |gen|
    requires forall k :: 0 <= k < MaxAttempts ==> gen[k] in Bucket(h, id, today)
    ensures var r := Retry(h, id, gen, today, 0);
            && r.count == MaxAttempts && !r.admitted && r.store == h
            && AsWrittenResult(r, gen) == None && IntendedResult(r, gen) == None
  {
    RetryOutcome(h, id, gen, today, 0);
  }

  /** Such inputs exist: 199 repeats of a candidate already served today, then a new one. */
  lemma LastAttemptAdmittedExample()
    ensures var h := map["lineareq1" := map["20240101" := [[1, 2]]]];
            var gen := seq(MaxAttempts - 1, _ => [1, 2]) + [[3, 4]];
            var r := Retry(h, "lineareq1", gen, "20240101", 0);
            r.admitted && AsWrittenResult(r, gen) == None
  {
    var h := map["lineareq1" := map["20240101" := [[1, 2]]]];
    var gen := seq(MaxAttempts - 1, _ => [1, 2]) + [[3, 4]];
    assert [3, 4] != [1, 2];
    assert Bucket(h, "lineareq1", "20240101") == [[1, 2]];
    LastAttemptAdmittedYetNull(h, "lineareq1", gen, "20240101");
  }

  /**
   * With the intended verdict, a problem is returned exactly when some attempt
   * was admitted; it is the first candidate not yet in today's bucket and ends
   * that bucket, and `null` means all 200 candidates were repeats.
   */
  lemma IntendedResultMeaning(h: Store, id: ProblemId, gen: seq<Candidate>, today: string)
    requires MaxAttempts <= |gen|
    ensures var r := Retry(h, id, gen, today, 0);
            var p := IntendedResult(r, gen);
            && (p.Some? ==> p.value !in Bucket(h, id, today)
                            && (forall k :: 0 <= k < r.count - 1 ==> gen[k] in Bucket(h, id, today))
                            && Bucket(r.store, id, today) == Bucket(h, id, today) + [p.value])
            && (p.None? ==> r.count == MaxAttempts && r.store == h
                            && forall k :: 0 <= k < MaxAttempts ==> gen[k] in Bucket(h, id, today))
  {
    var r := Retry(h, id, gen, today, 0);
    RetryOutcome(h, id, gen, today, 0);
    if r.admitted {
      assert Bucket(r.store, id, today) == r.store[id][today];
    }
  }

  /** Three weeks, in milliseconds: `3 * 7 * 24 * 60 * 60 * 1000`. */
  const MaxAgeMs: nat := 3 * 7 * MsPerDay

  predicate AllDayKeys(days: Days) {
    forall d :: d in days ==> IsDayKey(d)
  }

  /** The bucket filed under `day` is more than three weeks older than `now` (in milliseconds). */
  predicate Expired(day: string, now: int): (stale: bool)
    requires IsDayKey(day)
    ensures day[0] != '0' && ValidDate(KeyFields(day)) ==>
              (stale <==> now - StartOfDay(KeyFields(day)) > MaxAgeMs)
  {
    now - StringToDate(day) > MaxAgeMs
  }

  /** One id's buckets after the inner loop of `cleanHistory`. */
  function FreshDays(days: Days, now: int): (r: Days)
    requires AllDayKeys(days)
    ensures forall d :: d in r <==> d in days && !Expired(d, now)
    ensures forall d :: d in r ==> r[d] == days[d]
  {
    map d | d in days && !Expired(d, now) :: days[d]
  }

  /**
   * `cleanHistory(now)`: every id stays; each id keeps exactly the buckets that
   * are not more than three weeks old.
   */
  function Cleaned(h: Store, now: int): (r: Store)
    requires WellFormed(h)
    ensures forall id :: id in r <==> id in h
    ensures forall id, d :: id in h ==> (d in r[id] <==> d in h[id] && !Expired(d, now))
    ensures forall id, d :: id in h && d in r[id] ==> d in h[id] && r[id][d] == h[id][d]
  {
    map id | id in h :: FreshDays(h[id], now)
  }

  /** `days` part-way through the inner loop: the keys still to visit are kept whatever their age. */
  ghost function PartlyFresh(days: Days, pending: set<string>, now: int): Days
    requires AllDayKeys(days)
  {
    map d | d in days && (d in pending || !Expired(d, now)) :: days[d]
  }

  /** Visiting one more key deletes it exactly when it has expired. */
  lemma PartlyFreshStep(days: Days, pending: set<string>, d: string, now: int)
    requires AllDayKeys(days) && d in pending && d in days
    ensures PartlyFresh(days, pending - {d}, now)
            == if Expired(d, now) then PartlyFresh(days, pending, now) - {d} else PartlyFresh(days, pending, now)
  {
  }

  lemma PartlyFreshEnds(days: Days, now: int)
    requires AllDayKeys(days)
    ensures PartlyFresh(days, days.Keys, now) == days
    ensures PartlyFresh(days, {}, now) == FreshDays(days, now)
  {
  }

  /** The store part-way through the outer loop: the ids still to visit are untouched. */
  ghost function PartlyCleaned(h: Store, pending: set<ProblemId>, now: int): Store
    requires WellFormed(h)
  {
    map id | id in h :: if id in pending then h[id] else FreshDays(h[id], now)
  }

  /** Visiting one more id replaces its buckets by the fresh ones. */
  lemma PartlyCleanedStep(h: Store, pending: set<ProblemId>, id: ProblemId, now: int)
    requires WellFormed(h) && id in pending && id in h
    ensures PartlyCleaned(h, pending - {id}, now) == PartlyCleaned(h, pending, now)[id := FreshDays(h[id], now)]
  {
  }

  lemma PartlyCleanedEnds(h: Store, now: int)
    requires WellFormed(h)
    ensures PartlyCleaned(h, h.Keys, now) == h
    ensures PartlyCleaned(h, {}, now) == Cleaned(h, now)
  {
  }

  lemma CleanedWellFormed(h: Store, now: int)
    requires WellFormed(h)
    ensures WellFormed(Cleaned(h, now))
  {
  }

  /** A second cleanup at the same instant removes nothing more. */
  lemma CleanIdempotent(h: Store, now: int)
    requires WellFormed(h)
    ensures Cleaned(Cleaned(h, now), now) == Cleaned(h, now)
  {
    var once := Cleaned(h, now);
    forall id | id in h ensures Cleaned(once, now)[id] == once[id] {
      FreshLaterSubsumes(h[id], now, now);
    }
  }

  /** Cleaning at one instant and then at a later one is the same as cleaning at the later one. */
  lemma CleanLaterSubsumes(h: Store, now: int, later: int)
    requires WellFormed(h) && now <= later
    ensures Cleaned(Cleaned(h, now), later) == Cleaned(h, later)
  {
    var first := Cleaned(h, now);
    forall id | id in h ensures Cleaned(first, later)[id] == Cleaned(h, later)[id] {
      FreshLaterSubsumes(h[id], now, later);
    }
  }

  /** A bucket still fresh at a later instant was fresh at every earlier one. */
  lemma FreshLaterSubsumes(days: Days, now: int, later: int)
    requires AllDayKeys(days) && now <= later
    ensures FreshDays(FreshDays(days, now), later) == FreshDays(days, later)
  {
    ExpiredStaysExpired(days, now, later);
    var both := FreshDays(FreshDays(days, now), later);
    assert both.Keys == FreshDays(days, later).Keys;
  }

  /** A bucket expired at one instant is expired at every later one. */
  lemma ExpiredStaysExpired(days: Days, now: int, later: int)
    requires AllDayKeys(days) && now <= later
    ensures forall d :: d in days && Expired(d, now) ==> Expired(d, later)
  {
  }
}
