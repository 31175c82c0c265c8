/**
 * The two records the achievement system works on: one day's self-reported
 * health data, and a badge the user has earned (types.ts).
 */
module Types {
  import opened Wrappers

  /** A calendar date written `YYYY-MM-DD`; it is also the record's key. */
  type Date = string

  /** One day's metrics for one user. `sleepHours` may be fractional (the form steps by 0.5). */
  datatype DailyMetric = DailyMetric(
    id: string,
    date: Date,
    sleepHours: real,
    waterIntake: int,      // millilitres
    steps: int,
    heartRate: Option<int>,
    mood: int,             // 1-10
    stressLevel: int,      // 1-10
    nutritionScore: int,   // 1-10
    exerciseMinutes: int,
    notes: Option<string>
  )

  /** An earned badge; `unlockedAt` is a millisecond timestamp. */
  datatype Achievement = Achievement(
    id: string,
    title: string,
    description: string,
    icon: string,
    unlockedAt: int,
    isUnlocked: bool
  )

  /** The ids of a list of badges. */
  function IdsOf(badges: seq<Achievement>): (ids: set<string>)
    ensures forall b :: b in badges ==> b.id in ids
    ensures forall k :: k in ids ==> exists b :: b in badges && b.id == k
  {
    set b | b in badges :: b.id
  }

  lemma IdsOfAppend(badges: seq<Achievement>, b: Achievement)
    ensures IdsOf(badges + [b]) == IdsOf(badges) + {b.id}
  {
    assert forall x :: x in badges + [b] <==> x in badges || x == b;
  }

  /** Only the empty list has no ids. */
  lemma IdsOfEmpty(badges: seq<Achievement>)
    ensures IdsOf(badges) == {} <==> badges == []
  {
    if badges != [] {
      assert badges[0].id in IdsOf(badges);
    }
  }
}
