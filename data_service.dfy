/**
 * The document store behind the achievement evaluator (services/dataService.ts).
 * The two per-user collections it touches, `users/<uid>/achievements` keyed by
 * badge id and `users/<uid>/daily_metrics` keyed by date, are in-memory maps;
 * whether a read or a write reaches the backend is a parameter, and the
 * evaluation time is passed in instead of read from the clock.
 */
module DataService {
  import opened Wrappers
  import opened Types
  import opened DateOrder
  import opened AchievementRules

  /** Why a store operation failed. */
  datatype StoreError =
    | NotAuthenticated   // no user is signed in
    | InvalidPath        // an empty document id: the backend rejects the path
    | WriteFailed        // the backend did not accept the write

  /** A per-user collection: user id, then document id, then document. */
  type Collection<T> = map<string, map<string, T>>

  /** The documents of one user (none if the user has none). */
  function Docs<T>(c: Collection<T>, uid: string): map<string, T> {
    if uid in c then c[uid] else map[]
  }

  /** The document `key` of user `uid`, if there is one. */
  function Lookup<T>(c: Collection<T>, uid: string, key: string): Option<T> {
    if uid in c && key in c[uid] then Some(c[uid][key]) else None
  }

  /** `setDoc` on one document: it now holds `doc`, and no other document changes. */
  function Upsert<T>(c: Collection<T>, uid: string, key: string, doc: T): (r: Collection<T>)
    ensures Lookup(r, uid, key) == Some(doc)
    ensures forall u, k :: (u != uid || k != key) ==> Lookup(r, u, k) == Lookup(c, u, k)
    ensures Docs(r, uid).Keys == Docs(c, uid).Keys + {key}
  {
    c[uid := Docs(c, uid)[key := doc]]
  }

  /** Every stored badge sits under its own id. */
  ghost predicate KeyedById(c: Collection<Achievement>) {
    forall u, k :: u in c && k in c[u] ==> c[u][k].id == k
  }

  /** Every stored metric sits under its own date. */
  ghost predicate KeyedByDate(c: Collection<DailyMetric>) {
    forall u, d :: u in c && d in c[u] ==> c[u][d].date == d
  }

  /** The store after writing `badges` one after the other; writes of ids in `failed` fail. */
  function WriteAll(c: Collection<Achievement>, uid: string, badges: seq<Achievement>, failed: set<string>): (r: Collection<Achievement>)
    ensures uid == "" || badges == [] ==> r == c
    ensures forall u, k :: u != uid ==> Lookup(r, u, k) == Lookup(c, u, k)
    decreases |badges|
  {
    if badges == [] then c
    else
      var n := |badges| - 1;
      var before := WriteAll(c, uid, badges[..n], failed);
      if uid != "" && badges[n].id !in failed then Upsert(before, uid, badges[n].id, badges[n]) else before
  }

  lemma WriteAllSnoc(c: Collection<Achievement>, uid: string, badges: seq<Achievement>, b: Achievement, failed: set<string>)
    ensures var before := WriteAll(c, uid, badges, failed);
      WriteAll(c, uid, badges + [b], failed) == if uid != "" && b.id !in failed then Upsert(before, uid, b.id, b) else before
  {
    assert (badges + [b])[..|badges|] == badges;
  }

  /**
   * What a run of badge writes changes: only documents of `uid` whose id is
   * among the badges' and whose write succeeded, and those now exist.
   */
  lemma {:induction false} WriteAllEffect(c: Collection<Achievement>, uid: string, badges: seq<Achievement>, failed: set<string>)
    ensures uid == "" ==> WriteAll(c, uid, badges, failed) == c
    ensures forall u, k :: u != uid ==> Lookup(WriteAll(c, uid, badges, failed), u, k) == Lookup(c, u, k)
    ensures forall k :: k !in IdsOf(badges) - failed ==> Lookup(WriteAll(c, uid, badges, failed), uid, k) == Lookup(c, uid, k)
    ensures uid != "" ==> Docs(WriteAll(c, uid, badges, failed), uid).Keys == Docs(c, uid).Keys + (IdsOf(badges) - failed)
    decreases |badges|
  {
    if badges != [] {
      var n := |badges| - 1;
      var front := badges[..n];
      assert badges == front + [badges[n]];
      assert IdsOf(badges) == IdsOf(front) + {badges[n].id};
      WriteAllEffect(c, uid, front, failed);
    }
  }

  /** With distinct ids, every badge whose write succeeded is stored as written. */
  lemma {:induction false} WriteAllStores(c: Collection<Achievement>, uid: string, badges: seq<Achievement>, failed: set<string>)
    requires uid != ""
    requires forall i, j :: 0 <= i < j < |badges| ==> badges[i].id != badges[j].id
    ensures forall b :: b in badges && b.id !in failed ==> Lookup(WriteAll(c, uid, badges, failed), uid, b.id) == Some(b)
    decreases |badges|
  {
    if badges != [] {
      var n := |badges| - 1;
      var front := badges[..n];
      assert badges == front + [badges[n]];
      WriteAllStores(c, uid, front, failed);
      forall b | b in badges && b.id !in failed
        ensures Lookup(WriteAll(c, uid, badges, failed), uid, b.id) == Some(b)
      {
        if b != badges[n] {
          var i :| 0 <= i < n && badges[i] == b;
          assert front[i] == b;
        }
      }
    }
  }

  class Store {
    var achievements: Collection<Achievement>
    var dailyMetrics: Collection<DailyMetric>
    /** The signed-in user's uid, if any. */
    var currentUser: Option<string>

    ghost predicate Valid()
      reads this
    {
      KeyedById(achievements) && KeyedByDate(dailyMetrics) && currentUser != Some("")
    }

    constructor (signedIn: Option<string>)
      requires signedIn != Some("")
      ensures Valid()
      ensures achievements == map[] && dailyMetrics == map[] && currentUser == signedIn
    {
      achievements := map[];
      dailyMetrics := map[];
      currentUser := signedIn;
    }

    /** `uid || auth.currentUser?.uid`: an empty uid falls back to the signed-in user. */
    function TargetUid(uid: string): (r: Option<string>)
      reads this
      ensures uid != "" ==> r == Some(uid)
      ensures uid == "" ==> r == currentUser
      ensures r.None? <==> uid == "" && currentUser.None?
      ensures Valid() && r.Some? ==> r.value != ""
    {
      if uid != "" then Some(uid) else currentUser
    }

    /** The badge ids `getAchievements(uid)` yields: none without a user or when the read fails. */
    function LoadedIds(uid: string, readOk: bool): (r: set<string>)
      reads this
      ensures forall k :: k in r <==> readOk && TargetUid(uid).Some? && Lookup(achievements, TargetUid(uid).value, k).Some?
    {
      match TargetUid(uid)
      case None => {}
      case Some(u) => if readOk then Docs(achievements, u).Keys else {}
    }

    /**
     * `getAchievements(uid)`: every badge the target user owns, each once; an
     * empty list when there is no user or the read fails.
     */
    method GetAchievements(uid: string, readOk: bool) returns (existing: seq<Achievement>)
      requires Valid()
      ensures IdsOf(existing) == LoadedIds(uid, readOk)
      ensures |existing| == |LoadedIds(uid, readOk)|
      ensures forall a :: a in existing ==> Lookup(achievements, TargetUid(uid).value, a.id) == Some(a)
    {
      var target := TargetUid(uid);
      existing := [];
      if target.Some? && readOk {
        var docs := Docs(achievements, target.value);
        var pending := docs.Keys;
        while pending != {}
          invariant pending <= docs.Keys
          invariant IdsOf(existing) == docs.Keys - pending
          invariant |existing| + |pending| == |docs.Keys|
          invariant forall a :: a in existing ==> a.id in docs && docs[a.id] == a
          decreases |pending|
        {
          var k :| k in pending;
          IdsOfAppend(existing, docs[k]);
          existing := existing + [docs[k]];
          pending := pending - {k};
        }
      }
    }

    /**
     * `unlockAchievement(uid, badge)`: the badge is stored under its id; a write
     * that fails (an empty uid makes an invalid path) is swallowed and leaves
     * the store as it was.
     */
    method UnlockAchievement(uid: string, badge: Achievement, writeOk: bool)
      requires Valid()
      modifies this`achievements
      ensures Valid()
      ensures achievements == if uid != "" && writeOk then Upsert(old(achievements), uid, badge.id, badge) else old(achievements)
    {
      if uid != "" && writeOk {
        achievements := Upsert(achievements, uid, badge.id, badge);
      }
    }

    /**
     * `addMetric(metric)`: upserts the signed-in user's record for `metric.date`;
     * fails, changing nothing, when no user is signed in or the write fails.
     */
    method AddMetric(metric: DailyMetric, writeOk: bool) returns (outcome: Result<(), StoreError>)
      requires Valid()
      modifies this`dailyMetrics
      ensures Valid()
      ensures currentUser.None? ==> outcome == Err(NotAuthenticated)
      ensures currentUser.Some? && metric.date == "" ==> outcome == Err(InvalidPath)
      ensures currentUser.Some? && metric.date != "" && !writeOk ==> outcome == Err(WriteFailed)
      ensures outcome.Ok? <==> currentUser.Some? && metric.date != "" && writeOk
      ensures outcome.Ok? ==> dailyMetrics == Upsert(old(dailyMetrics), currentUser.value, metric.date, metric)
      ensures outcome.Err? ==> dailyMetrics == old(dailyMetrics)
    {
      if currentUser.None? {
        return Err(NotAuthenticated);
      }
      if metric.date == "" {
        return Err(InvalidPath);
      }
      if !writeOk {
        return Err(WriteFailed);
      }
      dailyMetrics := Upsert(dailyMetrics, currentUser.value, metric.date, metric);
      outcome := Ok(());
    }

    /**
     * `checkAndUnlockAchievements(uid, metrics)`: runs the five rules over a
     * newest-first copy of `metrics`, skipping badges already owned, writes each
     * new badge and returns them.  A failed write is swallowed: the badge is
     * still returned, and the other badges are still written.
     */
    method CheckAndUnlockAchievements(uid: string, metrics: seq<DailyMetric>, now: int, readOk: bool, failedWrites: set<string>)
      returns (unlocked: seq<Achievement>)
      requires Valid()
      modifies this`achievements
      ensures Valid()
      ensures unlocked == NewBadges(old(LoadedIds(uid, readOk)), SortNewestFirst(metrics), now)
      ensures achievements == WriteAll(old(achievements), uid, unlocked, failedWrites)
      ensures uid != "" ==> forall b :: b in unlocked && b.id !in failedWrites ==> Lookup(achievements, uid, b.id) == Some(b)
      ensures forall u, k :: u != uid ==> Lookup(achievements, u, k) == Lookup(old(achievements), u, k)
    {
      ghost var owned := LoadedIds(uid, readOk);
      var existing := GetAchievements(uid, readOk);
      unlocked := [];
      var existingIds := IdsOf(existing);
      assert existingIds == owned;
      var sortedMetrics := SortNewestFirst(metrics);

      unlocked := EvaluateRule(HydrationHero, uid, sortedMetrics, existingIds, now, failedWrites, old(achievements), unlocked);
      unlocked := EvaluateRule(SleepMaster, uid, sortedMetrics, existingIds, now, failedWrites, old(achievements), unlocked);
      unlocked := EvaluateRule(StressSlayer, uid, sortedMetrics, existingIds, now, failedWrites, old(achievements), unlocked);
      unlocked := EvaluateRule(ActivityChampion, uid, sortedMetrics, existingIds, now, failedWrites, old(achievements), unlocked);
      unlocked := EvaluateRule(ConsistencyKing, uid, sortedMetrics, existingIds, now, failedWrites, old(achievements), unlocked);
      NewBadgesUnfold(owned, sortedMetrics, now);
      NewBadgesOrdered(owned, sortedMetrics, now);
      WriteAllEffect(old(achievements), uid, unlocked, failedWrites);
      if uid != "" {
        WriteAllStores(old(achievements), uid, unlocked, failedWrites);
      }
    }

    /**
     * One of the five rule blocks: if the badge is new and its threshold on the
     * newest-first history is met, award it.
     */
    method EvaluateRule(rule: Rule, uid: string, sortedMetrics: seq<DailyMetric>, existingIds: set<string>, now: int,
                        failedWrites: set<string>, ghost start: Collection<Achievement>, unlocked: seq<Achievement>)
      returns (result: seq<Achievement>)
      requires Valid()
      requires achievements == WriteAll(start, uid, unlocked, failedWrites)
      modifies this`achievements
      ensures Valid()
      ensures result == unlocked + UnlockIf(rule, existingIds, sortedMetrics, now)
      ensures achievements == WriteAll(start, uid, result, failedWrites)
    {
      result := unlocked;
      match rule
      case HydrationHero =>
        if HydrationHero.Id() !in existingIds {
          var recentWater := Filter(Take(sortedMetrics, 3), Hydrated);
          if |recentWater| >= 3 {
            result := Award(uid, rule, now, failedWrites, start, unlocked);
          }
        }
      case SleepMaster =>
        if SleepMaster.Id() !in existingIds {
          var recentSleep := Filter(Take(sortedMetrics, 5), WellRested);
          if |recentSleep| >= 5 {
            result := Award(uid, rule, now, failedWrites, start, unlocked);
          }
        }
      case StressSlayer =>
        if StressSlayer.Id() !in existingIds {
          var recentZen := Filter(Take(sortedMetrics, 4), LowStress);
          if |recentZen| >= 4 {
            result := Award(uid, rule, now, failedWrites, start, unlocked);
          }
        }
      case ActivityChampion =>
        if ActivityChampion.Id() !in existingIds {
          var last7Days := Take(sortedMetrics, 7);
          var activeDays := Filter(last7Days, Active);
          if |activeDays| >= 5 {
            result := Award(uid, rule, now, failedWrites, start, unlocked);
          }
        }
      case ConsistencyKing =>
        // only the number of records is checked; no gap between dates is looked at
        if ConsistencyKing.Id() !in existingIds && |sortedMetrics| >= 10 {
          var last10 := Take(sortedMetrics, 10);
          if |last10| == 10 {
            result := Award(uid, rule, now, failedWrites, start, unlocked);
          }
        }
    }

    /**
     * The body shared by the five rule blocks: build the rule's badge, pass it
     * to `unlockAchievement`, then append it whether or not the write succeeded.
     */
    method Award(uid: string, rule: Rule, now: int, failedWrites: set<string>,
                 ghost start: Collection<Achievement>, unlocked: seq<Achievement>)
      returns (result: seq<Achievement>)
      requires Valid()
      requires achievements == WriteAll(start, uid, unlocked, failedWrites)
      modifies this`achievements
      ensures Valid()
      ensures result == unlocked + [Badge(rule, now)]
      ensures achievements == WriteAll(start, uid, result, failedWrites)
    {
      var badge := Badge(rule, now);
      UnlockAchievement(uid, badge, badge.id !in failedWrites);
      WriteAllSnoc(start, uid, unlocked, badge, failedWrites);
      result := unlocked + [badge];
    }

    /**
     * With a reachable store, one evaluation makes the user own the old badges
     * plus the returned ones, and a second evaluation of the same history
     * returns nothing.
     */
    method EvaluateTwice(uid: string, metrics: seq<DailyMetric>, now: int, later: int)
      returns (first: seq<Achievement>, second: seq<Achievement>)
      requires Valid() && uid != ""
      modifies this`achievements
      ensures Valid()
      ensures Docs(achievements, uid).Keys == old(Docs(achievements, uid).Keys) + IdsOf(first)
      ensures second == []
    {
      ghost var owned := Docs(achievements, uid).Keys;
      first := CheckAndUnlockAchievements(uid, metrics, now, true, {});
      WriteAllEffect(old(achievements), uid, first, {});
      assert IdsOf(first) - {} == IdsOf(first);
      ghost var afterFirst := achievements;
      assert LoadedIds(uid, true) == owned + IdsOf(first);
      second := CheckAndUnlockAchievements(uid, metrics, later, true, {});
      SecondEvaluationReturnsNothing(owned, SortNewestFirst(metrics), now, later);
      assert achievements == WriteAll(afterFirst, uid, [], {}) == afterFirst;
    }
  }
}
