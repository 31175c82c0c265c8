/**
 * The five badge rules of the achievement evaluator
 * (services/dataService.ts:138-227) and the list of badges one evaluation
 * yields, as functions of the badge ids already owned, the history sorted
 * newest first and the evaluation time.
 */
module AchievementRules {
  import opened Types
  import opened DateOrder

  /** The five badges, in the order the evaluator tests them. */
  datatype Rule = HydrationHero | SleepMaster | StressSlayer | ActivityChampion | ConsistencyKing
  {
    function Id(): string {
      match this
      case HydrationHero => "hydration_hero"
      case SleepMaster => "sleep_master"
      case StressSlayer => "stress_slayer"
      case ActivityChampion => "activity_champion"
      case ConsistencyKing => "consistency_king"
    }

    function Title(): string {
      match this
      case HydrationHero => "Hydration Hero"
      case SleepMaster => "Sleep Master"
      case StressSlayer => "Stress Slayer"
      case ActivityChampion => "Activity Champion"
      case ConsistencyKing => "Consistency King"
    }

    function Description(): string {
      match this
      case HydrationHero => "Drank 2L+ of water for 3 days"
      case SleepMaster => "Slept 8 hours+ for 5 days"
      case StressSlayer => "Maintained low stress for 4 days"
      case ActivityChampion => "Active for 5 days in a week"
      case ConsistencyKing => "Logged health data for 10 days"
    }

    function Icon(): string {
      match this
      case HydrationHero => "Droplets"
      case SleepMaster => "Moon"
      case StressSlayer => "Brain"
      case ActivityChampion => "Zap"
      case ConsistencyKing => "Crown"
    }

    /** Position of the rule in the evaluation order. */
    function Rank(): nat {
      match this
      case HydrationHero => 0
      case SleepMaster => 1
      case StressSlayer => 2
      case ActivityChampion => 3
      case ConsistencyKing => 4
    }
  }

  const RuleOrder: seq<Rule> := [HydrationHero, SleepMaster, StressSlayer, ActivityChampion, ConsistencyKing]

  /** The ids of the five badges. */
  const RuleIds: set<string> := set r | r in RuleOrder :: r.Id()

  /** The badge a rule awards when it fires at time `now`. */
  function Badge(rule: Rule, now: int): (b: Achievement)
    ensures b.id in RuleIds && b.isUnlocked && b.unlockedAt == now
    ensures forall other: Rule :: other.Id() == b.id ==> other == rule
  {
    Achievement(rule.Id(), rule.Title(), rule.Description(), rule.Icon(), now, true)
  }

  /** `slice(0, n)`: the first `n` records, or all of them when there are fewer. */
  function Take(s: seq<DailyMetric>, n: nat): (r: seq<DailyMetric>)
    ensures |r| == if |s| <= n then |s| else n
    ensures forall i :: 0 <= i < |r| ==> r[i] == s[i]
  {
    if |s| <= n then s else s[..n]
  }

  /** `filter(p)`: the records that satisfy `p`, in their order. */
  function Filter(s: seq<DailyMetric>, p: DailyMetric -> bool): (r: seq<DailyMetric>)
    ensures |r| <= |s|
    ensures forall m :: m in r ==> m in s && p(m)
    ensures forall m :: m in s && p(m) ==> m in r
  {
    if s == [] then []
    else (if p(s[0]) then [s[0]] else []) + Filter(s[1..], p)
  }

  predicate Hydrated(m: DailyMetric) { m.waterIntake >= 2000 }
  predicate WellRested(m: DailyMetric) { m.sleepHours >= 8.0 }
  predicate LowStress(m: DailyMetric) { m.stressLevel <= 3 }
  predicate Active(m: DailyMetric) { m.exerciseMinutes > 20 }

  /** The number of active records among the first `n`, counted one by one. */
  function CountActive(s: seq<DailyMetric>, n: nat): nat
    decreases |s|
  {
    if s == [] || n == 0 then 0
    else (if s[0].exerciseMinutes > 20 then 1 else 0) + CountActive(s[1..], n - 1)
  }

  /**
   * Whether `rule`'s threshold is met by a history sorted newest first, tested
   * as the evaluator does with `slice` and `filter`.
   */
  function Qualifies(rule: Rule, sorted: seq<DailyMetric>): (b: bool)
    ensures rule == HydrationHero ==>
      (b <==> |sorted| >= 3 && forall i :: 0 <= i < 3 ==> sorted[i].waterIntake >= 2000)
    ensures rule == SleepMaster ==>
      (b <==> |sorted| >= 5 && forall i :: 0 <= i < 5 ==> sorted[i].sleepHours >= 8.0)
    ensures rule == StressSlayer ==>
      (b <==> |sorted| >= 4 && forall i :: 0 <= i < 4 ==> sorted[i].stressLevel <= 3)
    ensures rule == ActivityChampion ==> (b <==> CountActive(sorted, 7) >= 5)
    ensures rule == ConsistencyKing ==> (b <==> |sorted| >= 10)
  {
    match rule
    case HydrationHero =>
      WindowAll(sorted, 3, Hydrated);
      |Filter(Take(sorted, 3), Hydrated)| >= 3
    case SleepMaster =>
      WindowAll(sorted, 5, WellRested);
      |Filter(Take(sorted, 5), WellRested)| >= 5
    case StressSlayer =>
      WindowAll(sorted, 4, LowStress);
      |Filter(Take(sorted, 4), LowStress)| >= 4
    case ActivityChampion =>
      FilterCountsActive(sorted, 7);
      |Filter(Take(sorted, 7), Active)| >= 5
    case ConsistencyKing => |sorted| >= 10 && |Take(sorted, 10)| == 10
  }

  /** The badges of `rules`, in that order, that are not owned and whose threshold is met. */
  function Select(rules: seq<Rule>, owned: set<string>, sorted: seq<DailyMetric>, now: int): (r: seq<Achievement>)
    ensures |r| <= |rules|
    ensures forall b :: b in r ==> b.id in RuleIds && b.id !in owned && b.isUnlocked && b.unlockedAt == now
  {
    if rules == [] then []
    else
      UnlockIf(rules[0], owned, sorted, now) + Select(rules[1..], owned, sorted, now)
  }

  /** What one evaluation returns: the new badges in rule order. */
  function NewBadges(owned: set<string>, sorted: seq<DailyMetric>, now: int): (r: seq<Achievement>)
    ensures |r| <= 5
    ensures forall b :: b in r ==> b.id in RuleIds && b.id !in owned && b.isUnlocked && b.unlockedAt == now
  {
    Select(RuleOrder, owned, sorted, now)
  }

  /** The badge-or-nothing contributed by one rule. */
  function UnlockIf(rule: Rule, owned: set<string>, sorted: seq<DailyMetric>, now: int): seq<Achievement> {
    if rule.Id() !in owned && Qualifies(rule, sorted) then [Badge(rule, now)] else []
  }

  /** The evaluation is the five rule blocks one after another. */
  lemma NewBadgesUnfold(owned: set<string>, sorted: seq<DailyMetric>, now: int)
    ensures NewBadges(owned, sorted, now)
         == UnlockIf(HydrationHero, owned, sorted, now) + UnlockIf(SleepMaster, owned, sorted, now)
          + UnlockIf(StressSlayer, owned, sorted, now) + UnlockIf(ActivityChampion, owned, sorted, now)
          + UnlockIf(ConsistencyKing, owned, sorted, now)
  {
    var r1 := [SleepMaster, StressSlayer, ActivityChampion, ConsistencyKing];
    var r2 := [StressSlayer, ActivityChampion, ConsistencyKing];
    var r3 := [ActivityChampion, ConsistencyKing];
    var r4 := [ConsistencyKing];
    assert RuleOrder[1..] == r1 && r1[1..] == r2 && r2[1..] == r3 && r3[1..] == r4 && r4[1..] == [];
    var u0, u1, u2, u3, u4 := UnlockIf(HydrationHero, owned, sorted, now), UnlockIf(SleepMaster, owned, sorted, now),
      UnlockIf(StressSlayer, owned, sorted, now), UnlockIf(ActivityChampion, owned, sorted, now),
      UnlockIf(ConsistencyKing, owned, sorted, now);
    assert Select(RuleOrder, owned, sorted, now) == u0 + Select(r1, owned, sorted, now);
    assert Select(r1, owned, sorted, now) == u1 + Select(r2, owned, sorted, now);
    assert Select(r2, owned, sorted, now) == u2 + Select(r3, owned, sorted, now);
    assert Select(r3, owned, sorted, now) == u3 + Select(r4, owned, sorted, now);
    assert Select(r4, owned, sorted, now) == u4 + [];
    assert NewBadges(owned, sorted, now) == u0 + (u1 + (u2 + (u3 + (u4 + []))));
    Regroup(u0, u1, u2, u3, u4);
  }

  lemma Regroup(a: seq<Achievement>, b: seq<Achievement>, c: seq<Achievement>, d: seq<Achievement>, e: seq<Achievement>)
    ensures a + (b + (c + (d + (e + [])))) == a + b + c + d + e
  {
    assert e + [] == e;
  }

  // ---------------------------------------------------------------------------
  // Counting through `filter`

  lemma {:induction false} FilterConcat(a: seq<DailyMetric>, b: seq<DailyMetric>, p: DailyMetric -> bool)
    ensures Filter(a + b, p) == Filter(a, p) + Filter(b, p)
    decreases |a|
  {
    if a == [] {
      assert a + b == b;
    } else {
      var h := if p(a[0]) then [a[0]] else [];
      assert (a + b)[0] == a[0] && (a + b)[1..] == a[1..] + b;
      assert Filter(a + b, p) == h + Filter(a[1..] + b, p);
      FilterConcat(a[1..], b, p);
      assert Filter(a, p) == h + Filter(a[1..], p);
    }
  }

  /** `filter` keeps each matching record as many times as it occurs, and no other record. */
  lemma {:induction false} FilterMultiplicity(s: seq<DailyMetric>, p: DailyMetric -> bool, m: DailyMetric)
    ensures multiset(Filter(s, p))[m] == if p(m) then multiset(s)[m] else 0
    decreases |s|
  {
    if s != [] {
      FilterMultiplicity(s[1..], p, m);
      var h := if p(s[0]) then [s[0]] else [];
      assert Filter(s, p) == h + Filter(s[1..], p);
      assert s == [s[0]] + s[1..];
      assert multiset(s) == multiset{s[0]} + multiset(s[1..]);
      assert multiset(Filter(s, p)) == multiset(h) + multiset(Filter(s[1..], p));
    }
  }

  /** Every record passes exactly when none is dropped. */
  lemma {:induction false} FilterKeepsAll(s: seq<DailyMetric>, p: DailyMetric -> bool)
    ensures |Filter(s, p)| == |s| <==> forall i :: 0 <= i < |s| ==> p(s[i])
    decreases |s|
  {
    if s != [] {
      FilterKeepsAll(s[1..], p);
      if forall i :: 0 <= i < |s| ==> p(s[i]) {
        assert forall i :: 0 <= i < |s[1..]| ==> p(s[1..][i]) by {
          forall i | 0 <= i < |s[1..]| ensures p(s[1..][i]) { assert s[1..][i] == s[i + 1]; }
        }
      } else if p(s[0]) {
        var i :| 0 <= i < |s| && !p(s[i]);
        assert s[1..][i - 1] == s[i];
      }
    }
  }

  /** Filtering the first `n` records for activity keeps `CountActive(s, n)` of them. */
  lemma {:induction false} FilterCountsActive(s: seq<DailyMetric>, n: nat)
    ensures |Filter(Take(s, n), Active)| == CountActive(s, n)
    decreases |s|
  {
    if s == [] || n == 0 {
      assert Take(s, n) == [];
    } else {
      var rest := Take(s[1..], n - 1);
      assert Take(s, n) == [s[0]] + rest;
      FilterConcat([s[0]], rest, Active);
      assert [s[0]][1..] == [];
      FilterCountsActive(s[1..], n - 1);
    }
  }

  /** At most `min(n, |s|)` records are counted, and that many exactly when all of them are active. */
  lemma {:induction false} CountActiveAll(s: seq<DailyMetric>, n: nat)
    ensures CountActive(s, n) <= if |s| <= n then |s| else n
    ensures CountActive(s, n) == (if |s| <= n then |s| else n)
        <==> forall i :: 0 <= i < |s| && i < n ==> s[i].exerciseMinutes > 20
    decreases |s|
  {
    if s != [] && n > 0 {
      CountActiveAll(s[1..], n - 1);
      assert forall i :: 0 <= i < |s| - 1 ==> s[1..][i] == s[i + 1];
      if forall i :: 0 <= i < |s| && i < n ==> s[i].exerciseMinutes > 20 {
        assert forall i :: 0 <= i < |s[1..]| && i < n - 1 ==> s[1..][i].exerciseMinutes > 20 by {
          forall i | 0 <= i < |s[1..]| && i < n - 1 ensures s[1..][i].exerciseMinutes > 20 {
            assert s[1..][i] == s[i + 1];
          }
        }
      } else if s[0].exerciseMinutes > 20 {
        var i :| 0 <= i < |s| && i < n && s[i].exerciseMinutes <= 20;
        assert s[1..][i - 1] == s[i];
      }
    }
  }

  /** With a single inactive record among the first `min(n, |s|)`, all the others are counted. */
  lemma {:induction false} CountActiveMissesOne(s: seq<DailyMetric>, n: nat, k: nat)
    requires k < |s| && k < n
    requires forall i :: 0 <= i < |s| && i < n && i != k ==> s[i].exerciseMinutes > 20
    ensures CountActive(s, n) + 1 >= if |s| <= n then |s| else n
    decreases |s|
  {
    assert forall i :: 0 <= i < |s| - 1 ==> s[1..][i] == s[i + 1];
    if k == 0 {
      CountActiveAll(s[1..], n - 1);
    } else {
      CountActiveMissesOne(s[1..], n - 1, k - 1);
    }
  }

  /** A window of `n` counts `n` matches exactly when it is full and every record in it matches. */
  lemma WindowAll(s: seq<DailyMetric>, n: nat, p: DailyMetric -> bool)
    ensures |Filter(Take(s, n), p)| >= n <==> |s| >= n && forall i :: 0 <= i < n ==> p(s[i])
  {
    var w := Take(s, n);
    FilterKeepsAll(w, p);
    if |s| >= n {
      assert |w| == n;
      assert forall i :: 0 <= i < n ==> w[i] == s[i];
    }
  }

  // ---------------------------------------------------------------------------
  // What an evaluation returns

  lemma {:induction false} SelectContains(rules: seq<Rule>, owned: set<string>, sorted: seq<DailyMetric>, now: int, b: Achievement)
    ensures b in Select(rules, owned, sorted, now)
        <==> exists r :: r in rules && r.Id() !in owned && Qualifies(r, sorted) && b == Badge(r, now)
    decreases |rules|
  {
    if rules != [] {
      SelectContains(rules[1..], owned, sorted, now, b);
      assert rules == [rules[0]] + rules[1..];
    }
  }

  /**
   * A badge is returned exactly when its rule is not owned and its threshold is
   * met; it carries the rule's fixed template and the evaluation time.
   */
  lemma NewBadgeIff(owned: set<string>, sorted: seq<DailyMetric>, now: int, rule: Rule)
    ensures Badge(rule, now) in NewBadges(owned, sorted, now) <==> rule.Id() !in owned && Qualifies(rule, sorted)
  {
    SelectContains(RuleOrder, owned, sorted, now, Badge(rule, now));
  }

  /**
   * Every returned badge is one of the five, is not owned, is freshly stamped
   * and unlocked, and is the fixed template of a rule whose threshold is met.
   */
  lemma NewBadgesWellFormed(owned: set<string>, sorted: seq<DailyMetric>, now: int)
    ensures forall b :: b in NewBadges(owned, sorted, now) ==>
      && b.id in RuleIds && b.id !in owned
      && b.isUnlocked && b.unlockedAt == now
      && exists r: Rule :: r.Id() == b.id && Qualifies(r, sorted) && b == Badge(r, now)
  {
    forall b | b in NewBadges(owned, sorted, now)
      ensures b.id in RuleIds && b.id !in owned && b.isUnlocked && b.unlockedAt == now
      ensures exists r: Rule :: r.Id() == b.id && Qualifies(r, sorted) && b == Badge(r, now)
    {
      SelectContains(RuleOrder, owned, sorted, now, b);
    }
  }

  lemma {:induction false} SelectRanked(rules: seq<Rule>, owned: set<string>, sorted: seq<DailyMetric>, now: int)
    requires forall i, j :: 0 <= i < j < |rules| ==> rules[i].Rank() < rules[j].Rank()
    ensures InRuleOrder(Select(rules, owned, sorted, now))
    decreases |rules|
  {
    if rules != [] {
      var rest := rules[1..];
      assert forall i, j :: 0 <= i < j < |rest| ==> rest[i].Rank() < rest[j].Rank() by {
        forall i, j | 0 <= i < j < |rest| ensures rest[i].Rank() < rest[j].Rank() {
          assert rest[i] == rules[i + 1] && rest[j] == rules[j + 1];
        }
      }
      SelectRanked(rest, owned, sorted, now);
      if rules[0].Id() !in owned && Qualifies(rules[0], sorted) {
        SelectRankedHead(rules, owned, sorted, now);
      }
    }
  }

  lemma SelectRankedHead(rules: seq<Rule>, owned: set<string>, sorted: seq<DailyMetric>, now: int)
    requires rules != [] && rules[0].Id() !in owned && Qualifies(rules[0], sorted)
    requires forall i, j :: 0 <= i < j < |rules| ==> rules[i].Rank() < rules[j].Rank()
    requires InRuleOrder(Select(rules[1..], owned, sorted, now))
    ensures InRuleOrder(Select(rules, owned, sorted, now))
  {
    var rest := rules[1..];
    var tail := Select(rest, owned, sorted, now);
    forall k | 0 <= k < |rest| ensures rest[k].Rank() > rules[0].Rank() {
      assert rest[k] == rules[k + 1];
    }
    SelectRanksAbove(rest, owned, sorted, now, rules[0].Rank());
    RankOfId(rules[0]);
    assert Select(rules, owned, sorted, now) == [Badge(rules[0], now)] + tail;
    InRuleOrderCons(Badge(rules[0], now), tail);
  }

  /** A badge ranked below every badge of an ordered list may be put in front of it. */
  lemma InRuleOrderCons(b: Achievement, tail: seq<Achievement>)
    requires InRuleOrder(tail)
    requires forall t :: t in tail ==> RankOf(t.id) > RankOf(b.id)
    ensures InRuleOrder([b] + tail)
  {
    var bs := [b] + tail;
    forall i, j | 0 <= i < j < |bs| ensures RankOf(bs[i].id) < RankOf(bs[j].id) {
      assert bs[j] == tail[j - 1] && tail[j - 1] in tail;
      if i > 0 {
        assert bs[i] == tail[i - 1];
      }
    }
  }

  /** Every badge selected from rules ranked above `bound` has an id ranked above it. */
  lemma {:induction false} SelectRanksAbove(rules: seq<Rule>, owned: set<string>, sorted: seq<DailyMetric>, now: int, bound: nat)
    requires forall k :: 0 <= k < |rules| ==> rules[k].Rank() > bound
    ensures forall b :: b in Select(rules, owned, sorted, now) ==> RankOf(b.id) > bound
    decreases |rules|
  {
    if rules != [] {
      forall k | 0 <= k < |rules| - 1 ensures rules[1..][k].Rank() > bound {
        assert rules[1..][k] == rules[k + 1];
      }
      SelectRanksAbove(rules[1..], owned, sorted, now, bound);
      RankOfId(rules[0]);
    }
  }

  lemma RankOfId(r: Rule)
    ensures RankOf(r.Id()) == r.Rank()
  {
  }

  /** Badges listed in strictly increasing evaluation position. */
  ghost predicate InRuleOrder(bs: seq<Achievement>) {
    forall i, j :: 0 <= i < j < |bs| ==> RankOf(bs[i].id) < RankOf(bs[j].id)
  }

  /** The evaluation position of a badge id: the rank of the rule with that id (past the last rule for any other id). */
  ghost function RankOf(id: string): nat {
    RankAmong(RuleOrder, id)
  }

  /** The rank of the first of `rules` with the given id, or |RuleOrder| when none has it. */
  ghost function RankAmong(rules: seq<Rule>, id: string): nat
    decreases |rules|
  {
    if rules == [] then |RuleOrder|
    else if rules[0].Id() == id then rules[0].Rank()
    else RankAmong(rules[1..], id)
  }

  /**
   * The returned badges follow the fixed rule order hydration, sleep, stress,
   * activity, consistency; in particular no badge is returned twice.
   */
  lemma NewBadgesOrdered(owned: set<string>, sorted: seq<DailyMetric>, now: int)
    ensures InRuleOrder(NewBadges(owned, sorted, now))
    ensures var bs := NewBadges(owned, sorted, now);
      forall i, j :: 0 <= i < j < |bs| ==> bs[i].id != bs[j].id
  {
    SelectRanked(RuleOrder, owned, sorted, now);
  }

  /** The ids returned are exactly the ids of the qualifying rules, less those owned. */
  lemma NewBadgeIds(owned: set<string>, sorted: seq<DailyMetric>, now: int)
    ensures IdsOf(NewBadges(owned, sorted, now)) == QualifyingIds(sorted) - owned
  {
    var bs := NewBadges(owned, sorted, now);
    forall k | k in IdsOf(bs) ensures k in QualifyingIds(sorted) - owned {
      var b :| b in bs && b.id == k;
      SelectContains(RuleOrder, owned, sorted, now, b);
    }
    forall k | k in QualifyingIds(sorted) - owned ensures k in IdsOf(bs) {
      var r :| r in RuleOrder && Qualifies(r, sorted) && r.Id() == k;
      SelectContains(RuleOrder, owned, sorted, now, Badge(r, now));
      assert Badge(r, now).id == k;
    }
  }

  /** The ids of the rules whose threshold the history meets. */
  function QualifyingIds(sorted: seq<DailyMetric>): set<string> {
    set r | r in RuleOrder && Qualifies(r, sorted) :: r.Id()
  }

  /**
   * Once the returned badges are owned, evaluating the same history again, at
   * any later time, returns nothing.
   */
  lemma SecondEvaluationReturnsNothing(owned: set<string>, sorted: seq<DailyMetric>, now: int, later: int)
    ensures NewBadges(owned + IdsOf(NewBadges(owned, sorted, now)), sorted, later) == []
  {
    var owned' := owned + IdsOf(NewBadges(owned, sorted, now));
    NewBadgeIds(owned, sorted, now);
    NewBadgeIds(owned', sorted, later);
    IdsOfEmpty(NewBadges(owned', sorted, later));
  }

  // ---------------------------------------------------------------------------
  // The five rules

  /** Hydration Hero: the three newest records all record at least 2000 ml. */
  lemma HydrationHeroIff(owned: set<string>, sorted: seq<DailyMetric>, now: int)
    ensures Badge(HydrationHero, now) in NewBadges(owned, sorted, now)
        <==> "hydration_hero" !in owned && |sorted| >= 3
             && forall i :: 0 <= i < 3 ==> sorted[i].waterIntake >= 2000
  {
    NewBadgeIff(owned, sorted, now, HydrationHero);
    WindowAll(sorted, 3, Hydrated);
  }

  /** Sleep Master: the five newest records all record at least 8 hours of sleep. */
  lemma SleepMasterIff(owned: set<string>, sorted: seq<DailyMetric>, now: int)
    ensures Badge(SleepMaster, now) in NewBadges(owned, sorted, now)
        <==> "sleep_master" !in owned && |sorted| >= 5
             && forall i :: 0 <= i < 5 ==> sorted[i].sleepHours >= 8.0
  {
    NewBadgeIff(owned, sorted, now, SleepMaster);
    WindowAll(sorted, 5, WellRested);
  }

  /** Stress Slayer: the four newest records all record a stress level of at most 3. */
  lemma StressSlayerIff(owned: set<string>, sorted: seq<DailyMetric>, now: int)
    ensures Badge(StressSlayer, now) in NewBadges(owned, sorted, now)
        <==> "stress_slayer" !in owned && |sorted| >= 4
             && forall i :: 0 <= i < 4 ==> sorted[i].stressLevel <= 3
  {
    NewBadgeIff(owned, sorted, now, StressSlayer);
    WindowAll(sorted, 4, LowStress);
  }

  /** Consistency King: ten records of any dates; contiguity is not checked. */
  lemma ConsistencyKingIff(owned: set<string>, sorted: seq<DailyMetric>, now: int)
    ensures Badge(ConsistencyKing, now) in NewBadges(owned, sorted, now)
        <==> "consistency_king" !in owned && |sorted| >= 10
  {
    NewBadgeIff(owned, sorted, now, ConsistencyKing);
  }

  /**
   * Activity Champion: at least five of the `min(7, n)` newest records record
   * more than 20 minutes of exercise.
   */
  lemma ActivityChampionIff(owned: set<string>, sorted: seq<DailyMetric>, now: int)
    ensures Badge(ActivityChampion, now) in NewBadges(owned, sorted, now)
        <==> "activity_champion" !in owned && CountActive(sorted, 7) >= 5
  {
    NewBadgeIff(owned, sorted, now, ActivityChampion);
  }

  /** With exactly five records, Activity Champion needs every one of them active. */
  lemma ActivityChampionFiveRecords(owned: set<string>, sorted: seq<DailyMetric>, now: int)
    requires |sorted| == 5
    ensures Badge(ActivityChampion, now) in NewBadges(owned, sorted, now)
        <==> "activity_champion" !in owned && forall i :: 0 <= i < 5 ==> sorted[i].exerciseMinutes > 20
  {
    ActivityChampionIff(owned, sorted, now);
    CountActiveAll(sorted, 7);
  }

  /** With exactly six records, one inactive record, the newest for instance, is tolerated. */
  lemma ActivityChampionSixRecordsOneMiss(owned: set<string>, sorted: seq<DailyMetric>, now: int, k: nat)
    requires "activity_champion" !in owned
    requires |sorted| == 6 && k < 6
    requires forall i :: 0 <= i < 6 && i != k ==> sorted[i].exerciseMinutes > 20
    ensures Badge(ActivityChampion, now) in NewBadges(owned, sorted, now)
  {
    ActivityChampionIff(owned, sorted, now);
    CountActiveMissesOne(sorted, 7, k);
  }

  /** Activity Champion never unlocks with fewer than five records. */
  lemma ActivityChampionNeedsFive(owned: set<string>, sorted: seq<DailyMetric>, now: int)
    requires |sorted| < 5
    ensures Badge(ActivityChampion, now) !in NewBadges(owned, sorted, now)
  {
    NewBadgeIff(owned, sorted, now, ActivityChampion);
  }

  /**
   * Five active newest records are enough for Activity Champion, even when the
   * history holds only five or six records.
   */
  lemma ActivityChampionFiveSuffice(owned: set<string>, sorted: seq<DailyMetric>, now: int)
    requires "activity_champion" !in owned
    requires |sorted| >= 5
    requires forall i :: 0 <= i < 5 ==> sorted[i].exerciseMinutes > 20
    ensures Badge(ActivityChampion, now) in NewBadges(owned, sorted, now)
  {
    NewBadgeIff(owned, sorted, now, ActivityChampion);
    var w := Take(sorted, 7);
    assert w == w[..5] + w[5..];
    FilterConcat(w[..5], w[5..], Active);
    FilterKeepsAll(w[..5], Active);
    assert forall i :: 0 <= i < 5 ==> w[..5][i] == sorted[i];
  }

  /**
   * The threshold is a count, not a streak: within the seven newest records
   * any two may be inactive.
   */
  lemma ActivityChampionToleratesTwo(owned: set<string>, sorted: seq<DailyMetric>, now: int, i: nat, j: nat)
    requires "activity_champion" !in owned
    requires |sorted| >= 7 && i < j < 7
    requires forall k :: 0 <= k < 7 && k != i && k != j ==> sorted[k].exerciseMinutes > 20
    ensures Badge(ActivityChampion, now) in NewBadges(owned, sorted, now)
  {
    NewBadgeIff(owned, sorted, now, ActivityChampion);
    var w := sorted[..7];
    assert Take(sorted, 7) == w;
    assert forall k :: 0 <= k < 7 && k != i && k != j ==> Active(w[k]) by {
      forall k | 0 <= k < 7 && k != i && k != j ensures Active(w[k]) {
        assert w[k] == sorted[k];
      }
    }
    TwoMissesCountFive(w, i, j);
  }

  lemma TwoMissesCountFive(w: seq<DailyMetric>, i: nat, j: nat)
    requires |w| == 7 && i < j < 7
    requires forall k :: 0 <= k < 7 && k != i && k != j ==> Active(w[k])
    ensures |Filter(w, Active)| >= 5
  {
    assert w == w[0..7];
    FilterRange(w, 0, i, 7);
    FilterRange(w, i, i + 1, 7);
    FilterRange(w, i + 1, j, 7);
    FilterRange(w, j, j + 1, 7);
    AllActive(w, 0, i);
    AllActive(w, i + 1, j);
    AllActive(w, j + 1, 7);
  }

  /** Three inactive records among the seven newest rule Activity Champion out. */
  lemma ActivityChampionDeniedByThree(owned: set<string>, sorted: seq<DailyMetric>, now: int, i: nat, j: nat, k: nat)
    requires i < j < k < |sorted| && k < 7
    requires sorted[i].exerciseMinutes <= 20 && sorted[j].exerciseMinutes <= 20 && sorted[k].exerciseMinutes <= 20
    ensures Badge(ActivityChampion, now) !in NewBadges(owned, sorted, now)
  {
    NewBadgeIff(owned, sorted, now, ActivityChampion);
    var w := Take(sorted, 7);
    assert !Active(w[i]) && !Active(w[j]) && !Active(w[k]);
    ThreeMissesCountFewer(w, i, j, k);
  }

  lemma ThreeMissesCountFewer(w: seq<DailyMetric>, i: nat, j: nat, k: nat)
    requires i < j < k < |w| <= 7
    requires !Active(w[i]) && !Active(w[j]) && !Active(w[k])
    ensures |Filter(w, Active)| < 5
  {
    var w1 := w[..k] + w[k + 1..];
    DropInactive(w, k);
    assert w1[j] == w[j] && w1[i] == w[i];
    var w2 := w1[..j] + w1[j + 1..];
    DropInactive(w1, j);
    assert w2[i] == w[i];
    DropInactive(w2, i);
  }

  /** Leaving out an inactive record does not change the count. */
  lemma DropInactive(w: seq<DailyMetric>, k: nat)
    requires k < |w| && !Active(w[k])
    ensures |Filter(w, Active)| == |Filter(w[..k] + w[k + 1..], Active)|
  {
    assert w == w[..k] + ([w[k]] + w[k + 1..]);
    FilterConcat(w[..k], [w[k]] + w[k + 1..], Active);
    FilterConcat([w[k]], w[k + 1..], Active);
    FilterConcat(w[..k], w[k + 1..], Active);
    assert Filter([w[k]], Active) == [];
  }

  /** Counting matches over a range is additive. */
  lemma FilterRange(w: seq<DailyMetric>, lo: nat, mid: nat, hi: nat)
    requires lo <= mid <= hi <= |w|
    ensures |Filter(w[lo..hi], Active)| == |Filter(w[lo..mid], Active)| + |Filter(w[mid..hi], Active)|
  {
    assert w[lo..hi] == w[lo..mid] + w[mid..hi];
    FilterConcat(w[lo..mid], w[mid..hi], Active);
  }

  lemma AllActive(w: seq<DailyMetric>, lo: nat, hi: nat)
    requires lo <= hi <= |w|
    requires forall k :: lo <= k < hi ==> Active(w[k])
    ensures |Filter(w[lo..hi], Active)| == hi - lo
  {
    FilterKeepsAll(w[lo..hi], Active);
  }


  /**
   * The evaluation sorts its own copy, so for a history with distinct dates
   * the returned badges do not depend on the order of the input.
   */
  lemma NewBadgesOrderIndependent(owned: set<string>, a: seq<DailyMetric>, b: seq<DailyMetric>, now: int)
    requires multiset(a) == multiset(b)
    requires DistinctDates(a)
    ensures NewBadges(owned, SortNewestFirst(a), now) == NewBadges(owned, SortNewestFirst(b), now)
  {
    SortOrderIndependent(a, b);
  }
}
