/**
 * The ranking computations of client/src/pages/Rankings.tsx: members sorted
 * by one numeric field, medals for the first three places, and per-class
 * statistics (member count, rounded average level and power, total points)
 * sorted by total points.
 */
module Rankings {
  import opened Primitives
  import opened OrderedMaps
  import opened Schema
  import opened Sorting

  // ---------------------------------------------------------------------
  // getSortedMembers and getMedalEmoji
  // ---------------------------------------------------------------------

  /** The three tabs of the page: `'level' | 'power' | 'eventPoints'`. */
  datatype SortKey = ByLevel | ByPower | ByEventPoints

  function LevelKey(m: Member): int { m.level }
  function PowerKey(m: Member): int { m.power }
  function PointsKey(m: Member): int { m.eventPoints }

  function KeyOf(sortBy: SortKey): Member -> int {
    match sortBy
    case ByLevel => LevelKey
    case ByPower => PowerKey
    case ByEventPoints => PointsKey
  }

  /**
   * `getSortedMembers(sortBy)`: a sorted copy, so the input is untouched; the
   * result is a permutation of the members, highest value first, and members
   * with equal values keep their original order.
   */
  function SortedMembers(ms: seq<Member>, sortBy: SortKey): (r: seq<Member>)
    ensures multiset(r) == multiset(ms)
    ensures NonIncreasing(r, KeyOf(sortBy))
    ensures forall v :: WithKey(r, KeyOf(sortBy), v) == WithKey(ms, KeyOf(sortBy), v)
  {
    SortDescPermutes(ms, KeyOf(sortBy));
    SortDescOrders(ms, KeyOf(sortBy));
    forall v ensures WithKey(SortDesc(ms, KeyOf(sortBy)), KeyOf(sortBy), v) == WithKey(ms, KeyOf(sortBy), v) {
      SortDescStable(ms, KeyOf(sortBy), v);
    }
    SortDesc(ms, KeyOf(sortBy))
  }

  const Medals: seq<string> := ["🥇", "🥈", "🥉"]

  /** `getMedalEmoji(position)`: a medal for the first three places, null after them. */
  function MedalEmoji(position: int): (r: Option<string>)
    ensures r.Some? <==> 0 <= position < 3
    ensures r.Some? ==> r.value == Medals[position]
    ensures forall p :: 0 <= p < 3 && p != position && r.Some? ==> Medals[p] != r.value
  {
    if position == 0 then Some("🥇")
    else if position == 1 then Some("🥈")
    else if position == 2 then Some("🥉")
    else None
  }

  // ---------------------------------------------------------------------
  // getClassStats
  // ---------------------------------------------------------------------

  /** What the `forEach` keeps per class: its members and three running totals. */
  datatype Tally = Tally(members: seq<Member>, totalLevel: int, totalPower: int, totalPoints: int)

  /** One entry of the result of `getClassStats`. */
  datatype ClassStat = ClassStat(gameClass: string, memberCount: nat, avgLevel: int, avgPower: int, totalPoints: int)

  function TotalPointsKey(s: ClassStat): int { s.totalPoints }
  function MemberCountKey(s: ClassStat): int { s.memberCount }
  function One(m: Member): int { 1 }

  /**
   * `Math.round(t / n)` for n > 0: the nearest integer to t / n, halves
   * rounded up, which is the floor of (2t + n) / 2n.
   */
  function RoundedAverage(t: int, n: int): (r: int)
    requires n > 0
    ensures 2 * n * r - n <= 2 * t < 2 * n * r + n
  {
    var q := (2 * t + n) / (2 * n);
    assert 2 * n * q <= 2 * t + n < 2 * n * q + 2 * n by {
      var d := 2 * t + n;
      assert d == (2 * n) * q + d % (2 * n);
    }
    q
  }

  /** The classes of the members, each once, in the order they first occur. */
  function Classes(ms: seq<Member>): seq<string> {
    if ms == [] then []
    else
      var cs := Classes(ms[..|ms| - 1]);
      var c := ms[|ms| - 1].gameClass;
      if c in cs then cs else cs + [c]
  }

  /**
   * Classes lists exactly the classes that occur, each once, in the order
   * they first occur: the classes of any prefix of the members come first.
   */
  lemma {:induction false} ClassesSpec(ms: seq<Member>)
    ensures forall c :: c in Classes(ms) <==> exists m :: m in ms && m.gameClass == c
    ensures forall i, j :: 0 <= i < j < |Classes(ms)| ==> Classes(ms)[i] != Classes(ms)[j]
    ensures forall k :: 0 <= k <= |ms| ==> Classes(ms[..k]) <= Classes(ms)
  {
    if ms != [] {
      var init := ms[..|ms| - 1];
      assert ms == init + [ms[|ms| - 1]];
      ClassesSpec(init);
      assert Classes(init) <= Classes(ms);
      forall k | 0 <= k <= |ms| ensures Classes(ms[..k]) <= Classes(ms) {
        if k < |ms| {
          assert ms[..k] == init[..k];
        } else {
          assert ms[..k] == ms;
        }
      }
    }
  }

  /** The members of class c, in member order. */
  function OfClass(ms: seq<Member>, c: string): seq<Member> {
    if ms == [] then []
    else (if ms[0].gameClass == c then [ms[0]] else []) + OfClass(ms[1..], c)
  }

  /** OfClass keeps exactly the members of class c. */
  lemma {:induction false} OfClassMembers(ms: seq<Member>, c: string)
    ensures forall m :: m in OfClass(ms, c) <==> m in ms && m.gameClass == c
  {
    if ms != [] {
      OfClassMembers(ms[1..], c);
      assert ms == [ms[0]] + ms[1..];
    }
  }

  /** The tally the `forEach` holds for class c once it has seen ms. */
  function Tallied(ms: seq<Member>, c: string): Tally {
    var g := OfClass(ms, c);
    Tally(g, SumOf(g, LevelKey), SumOf(g, PowerKey), SumOf(g, PointsKey))
  }

  /** One `forEach` step: push the member and add its level, power and points. */
  function Add(t: Tally, m: Member): Tally {
    Tally(t.members + [m], t.totalLevel + m.level, t.totalPower + m.power, t.totalPoints + m.eventPoints)
  }

  /** The entry built from a class's tally by the final `map`. */
  function ToStat(c: string, t: Tally): ClassStat
    requires t.members != []
  {
    ClassStat(c, |t.members|, RoundedAverage(t.totalLevel, |t.members|), RoundedAverage(t.totalPower, |t.members|), t.totalPoints)
  }

  /** The final `map` over the class map's entries, in key order. */
  function StatsOf(cs: seq<string>, tallies: map<string, Tally>): (r: seq<ClassStat>)
    requires forall c :: c in cs ==> c in tallies && tallies[c].members != []
    ensures |r| == |cs|
    ensures forall i :: 0 <= i < |r| ==> r[i].gameClass == cs[i] && r[i] == ToStat(cs[i], tallies[cs[i]])
  {
    if cs == [] then [] else [ToStat(cs[0], tallies[cs[0]])] + StatsOf(cs[1..], tallies)
  }

  /** The class map after the whole `forEach`: each class of ms with its tally. */
  function TallyMap(ms: seq<Member>): (r: map<string, Tally>)
    ensures forall c :: c in r ==> r[c].members != []
  {
    ClassesSpec(ms);
    forall c | c in Classes(ms) ensures OfClass(ms, c) != [] {
      OfClassMembers(ms, c);
    }
    map c | c in Classes(ms) :: Tallied(ms, c)
  }

  /** What `getClassStats` returns for the members ms. */
  function ClassStats(ms: seq<Member>): (r: seq<ClassStat>)
    ensures |r| == |Classes(ms)|
    ensures r == [] <==> ms == []
  {
    ClassesSpec(ms);
    assert ms != [] ==> ms[0].gameClass in Classes(ms);
    SortDesc(StatsOf(Classes(ms), TallyMap(ms)), TotalPointsKey)
  }

  lemma {:induction false} OfClassAppend(ms: seq<Member>, m: Member, c: string)
    ensures OfClass(ms + [m], c) == OfClass(ms, c) + (if m.gameClass == c then [m] else [])
  {
    if ms != [] {
      assert (ms + [m])[1..] == ms[1..] + [m];
      OfClassAppend(ms[1..], m, c);
    }
  }

  /** Seeing one more member changes exactly the tally of its class, by one `forEach` step. */
  lemma TallyStep(ms: seq<Member>, m: Member, c: string)
    ensures Tallied(ms + [m], c) == if m.gameClass == c then Add(Tallied(ms, c), m) else Tallied(ms, c)
  {
    OfClassAppend(ms, m, c);
    var g := OfClass(ms, c);
    if m.gameClass == c {
      assert OfClass(ms + [m], c) == g + [m];
      SumOfAppend(g, [m], LevelKey);
      SumOfAppend(g, [m], PowerKey);
      SumOfAppend(g, [m], PointsKey);
      assert SumOf([m], LevelKey) == m.level && SumOf([m], PowerKey) == m.power && SumOf([m], PointsKey) == m.eventPoints;
    } else {
      assert OfClass(ms + [m], c) == g + [] == g;
    }
  }

  /** The loop invariant of `getClassStats`: the class map holds the tallies of the members seen so far. */
  ghost predicate TalliesOf(classMap: OrderedMap<Tally>, seen: seq<Member>) {
    && classMap.Valid()
    && classMap.keys == Classes(seen)
    && forall c :: c in classMap.entries ==> classMap.entries[c] == Tallied(seen, c)
  }

  /** One `forEach` step keeps the invariant: create the class's tally if missing, then add the member to it. */
  lemma TalliesStep(classMap: OrderedMap<Tally>, seen: seq<Member>, m: Member)
    requires TalliesOf(classMap, seen)
    ensures var created := if m.gameClass !in classMap.entries then classMap.Set(m.gameClass, Tally([], 0, 0, 0)) else classMap;
            TalliesOf(created.Set(m.gameClass, Add(created.entries[m.gameClass], m)), seen + [m])
  {
    ClassesAppend(seen, m);
    if m.gameClass in classMap.entries {
      TalliesSeenClass(classMap, seen, m);
    } else {
      UnseenClassEmpty(seen, m.gameClass);
      TalliesSeenClass(classMap.Set(m.gameClass, Tally([], 0, 0, 0)), seen, m);
    }
  }

  /** The step once the member's class has its (possibly fresh, empty) tally in the map. */
  lemma TalliesSeenClass(classMap: OrderedMap<Tally>, seen: seq<Member>, m: Member)
    requires classMap.Valid() && m.gameClass in classMap.entries
    requires classMap.keys == if m.gameClass in Classes(seen) then Classes(seen) else Classes(seen) + [m.gameClass]
    requires forall c :: c in classMap.entries ==> classMap.entries[c] == Tallied(seen, c)
    ensures TalliesOf(classMap.Set(m.gameClass, Add(classMap.entries[m.gameClass], m)), seen + [m])
  {
    ClassesAppend(seen, m);
    var next := classMap.Set(m.gameClass, Add(classMap.entries[m.gameClass], m));
    assert next.Valid();
    assert next.keys == Classes(seen + [m]);
    forall c | c in next.entries ensures next.entries[c] == Tallied(seen + [m], c) {
      TallyStep(seen, m, c);
    }
  }

  /** A class no member seen so far has, has the empty tally. */
  lemma UnseenClassEmpty(seen: seq<Member>, c: string)
    requires c !in Classes(seen)
    ensures Tallied(seen, c) == Tally([], 0, 0, 0)
  {
    ClassesSpec(seen);
    OfClassMembers(seen, c);
  }

  lemma ClassesAppend(seen: seq<Member>, m: Member)
    ensures Classes(seen + [m]) == if m.gameClass in Classes(seen) then Classes(seen) else Classes(seen) + [m.gameClass]
  {
    assert (seen + [m])[..|seen|] == seen;
  }

  /** After the whole pass the class map is exactly the tally of every class. */
  lemma TalliesComplete(classMap: OrderedMap<Tally>, ms: seq<Member>)
    requires TalliesOf(classMap, ms)
    ensures classMap.entries == TallyMap(ms)
  {
  }

  /**
   * `getClassStats`: one pass over the members filling a map keyed by class
   * (a class is added with an empty tally the first time it is seen, and its
   * tally is then updated in place), then one entry per class in the map's
   * order, sorted by total points.
   */
  method GetClassStats(ms: seq<Member>) returns (stats: seq<ClassStat>)
    ensures stats == ClassStats(ms)
  {
    var classMap: OrderedMap<Tally> := Empty();
    var i := 0;
    while i < |ms|
      invariant 0 <= i <= |ms|
      invariant TalliesOf(classMap, ms[..i])
    {
      var member := ms[i];
      assert ms[..i + 1] == ms[..i] + [member];
      TalliesStep(classMap, ms[..i], member);
      if member.gameClass !in classMap.entries {
        classMap := classMap.Set(member.gameClass, Tally([], 0, 0, 0));
      }
      var classData := classMap.entries[member.gameClass];
      classMap := classMap.Set(member.gameClass, Add(classData, member));
      i := i + 1;
    }
    assert ms[..|ms|] == ms;
    TalliesComplete(classMap, ms);
    stats := SortDesc(StatsOf(classMap.keys, classMap.entries), TotalPointsKey);
  }

  // ---------------------------------------------------------------------
  // What getClassStats promises
  // ---------------------------------------------------------------------

  /** The entries come out with non-increasing total points, a permutation of the per-class entries. */
  lemma ClassStatsOrdered(ms: seq<Member>)
    ensures NonIncreasing(ClassStats(ms), TotalPointsKey)
    ensures multiset(ClassStats(ms)) == multiset(StatsOf(Classes(ms), TallyMap(ms)))
  {
    SortDescOrders(StatsOf(Classes(ms), TallyMap(ms)), TotalPointsKey);
    SortDescPermutes(StatsOf(Classes(ms), TallyMap(ms)), TotalPointsKey);
  }

  /**
   * Every entry describes one class that occurs: its member count, the
   * rounded averages of its levels and powers, and the sum of its points.
   */
  lemma ClassStatsEntries(ms: seq<Member>)
    ensures forall s :: s in ClassStats(ms) ==>
              var g := OfClass(ms, s.gameClass);
              && g != []
              && s.memberCount == |g|
              && s.avgLevel == RoundedAverage(SumOf(g, LevelKey), |g|)
              && s.avgPower == RoundedAverage(SumOf(g, PowerKey), |g|)
              && s.totalPoints == SumOf(g, PointsKey)
  {
    var u := StatsOf(Classes(ms), TallyMap(ms));
    ClassStatsOrdered(ms);
    forall s | s in ClassStats(ms) ensures s in u {
      assert s in multiset(ClassStats(ms));
    }
  }

  /** A sequence whose entries have distinct classes holds each entry once. */
  lemma {:induction false} DistinctClassesOnce(u: seq<ClassStat>, x: ClassStat)
    requires forall i, j :: 0 <= i < j < |u| ==> u[i].gameClass != u[j].gameClass
    ensures multiset(u)[x] <= 1
  {
    if u != [] {
      assert u == [u[0]] + u[1..];
      DistinctClassesOnce(u[1..], x);
      if u[0] == x {
        assert forall k :: 0 <= k < |u[1..]| ==> u[1..][k] != x by {
          forall k | 0 <= k < |u[1..]| ensures u[1..][k] != x {
            assert u[1..][k] == u[k + 1];
          }
        }
      }
    }
  }

  /** Two positions of a sequence holding its element only once hold different values. */
  lemma HeldOnce<T>(r: seq<T>, i: nat, j: nat)
    requires i < j < |r| && multiset(r)[r[i]] <= 1
    ensures r[i] != r[j]
  {
    assert r == r[..j] + r[j..];
    assert r[i] in r[..j];
    assert r[j] in r[j..];
  }

  /** Sorting keeps the classes of the entries distinct. */
  lemma PermutedClassesDistinct(u: seq<ClassStat>, r: seq<ClassStat>)
    requires multiset(r) == multiset(u)
    requires forall i, j :: 0 <= i < j < |u| ==> u[i].gameClass != u[j].gameClass
    ensures forall i, j :: 0 <= i < j < |r| ==> r[i].gameClass != r[j].gameClass
  {
    forall i, j | 0 <= i < j < |r| ensures r[i].gameClass != r[j].gameClass {
      assert r[i] in multiset(u) && r[j] in multiset(u);
      var a :| 0 <= a < |u| && u[a] == r[i];
      var b :| 0 <= b < |u| && u[b] == r[j];
      DistinctClassesOnce(u, r[i]);
      HeldOnce(r, i, j);
      assert a != b;
      if a < b {
        assert u[a].gameClass != u[b].gameClass;
      } else {
        assert u[b].gameClass != u[a].gameClass;
      }
    }
  }

  /** Exactly one entry per class that occurs among the members. */
  lemma ClassStatsOnePerClass(ms: seq<Member>)
    ensures forall s :: s in ClassStats(ms) ==> exists m :: m in ms && m.gameClass == s.gameClass
    ensures forall m :: m in ms ==> exists s :: s in ClassStats(ms) && s.gameClass == m.gameClass
    ensures forall i, j :: 0 <= i < j < |ClassStats(ms)| ==> ClassStats(ms)[i].gameClass != ClassStats(ms)[j].gameClass
  {
    var cs := Classes(ms);
    var u := StatsOf(cs, TallyMap(ms));
    var r := ClassStats(ms);
    ClassStatsOrdered(ms);
    ClassesSpec(ms);
    PermutedClassesDistinct(u, r);
    EntriesOccur(ms, cs, u, r);
    ClassesCovered(ms, cs, u, r);
  }

  lemma EntriesOccur(ms: seq<Member>, cs: seq<string>, u: seq<ClassStat>, r: seq<ClassStat>)
    requires forall c :: c in cs ==> exists m :: m in ms && m.gameClass == c
    requires |u| == |cs| && forall i :: 0 <= i < |u| ==> u[i].gameClass == cs[i]
    requires multiset(r) == multiset(u)
    ensures forall s :: s in r ==> exists m :: m in ms && m.gameClass == s.gameClass
  {
    forall s | s in r ensures exists m :: m in ms && m.gameClass == s.gameClass {
      assert s in multiset(u);
      var k :| 0 <= k < |u| && u[k] == s;
      assert s.gameClass in cs;
    }
  }

  lemma ClassesCovered(ms: seq<Member>, cs: seq<string>, u: seq<ClassStat>, r: seq<ClassStat>)
    requires forall m :: m in ms ==> m.gameClass in cs
    requires |u| == |cs| && forall i :: 0 <= i < |u| ==> u[i].gameClass == cs[i]
    requires multiset(r) == multiset(u)
    ensures forall m :: m in ms ==> exists s :: s in r && s.gameClass == m.gameClass
  {
    forall m | m in ms ensures exists s :: s in r && s.gameClass == m.gameClass {
      var k :| 0 <= k < |cs| && cs[k] == m.gameClass;
      assert u[k] in multiset(r);
    }
  }

  /** The points of the members of the classes cs, class by class. */
  function PartSum(cs: seq<string>, ms: seq<Member>, f: Member -> int): int {
    if cs == [] then 0 else SumOf(OfClass(ms, cs[0]), f) + PartSum(cs[1..], ms, f)
  }

  lemma {:induction false} PartSumAppendMember(cs: seq<string>, ms: seq<Member>, m: Member, f: Member -> int)
    requires forall i, j :: 0 <= i < j < |cs| ==> cs[i] != cs[j]
    ensures PartSum(cs, ms + [m], f) == PartSum(cs, ms, f) + (if m.gameClass in cs then f(m) else 0)
  {
    if cs != [] {
      var c := cs[0];
      var rest := cs[1..];
      assert cs == [c] + rest;
      OfClassAppend(ms, m, c);
      SumOfAppend(OfClass(ms, c), [m], f);
      assert SumOf([m], f) == f(m);
      PartSumAppendMember(rest, ms, m, f);
      assert PartSum(cs, ms + [m], f) == SumOf(OfClass(ms + [m], c), f) + PartSum(rest, ms + [m], f);
      assert PartSum(cs, ms, f) == SumOf(OfClass(ms, c), f) + PartSum(rest, ms, f);
      if m.gameClass == c {
        forall k | 0 <= k < |rest| ensures rest[k] != c {
          assert rest[k] == cs[k + 1];
        }
        assert c !in rest;
      } else {
        assert OfClass(ms, c) + [] == OfClass(ms, c);
        assert (m.gameClass in cs) == (m.gameClass in rest);
      }
    }
  }

  lemma {:induction false} PartSumAppendClass(cs: seq<string>, c: string, ms: seq<Member>, f: Member -> int)
    ensures PartSum(cs + [c], ms, f) == PartSum(cs, ms, f) + SumOf(OfClass(ms, c), f)
  {
    if cs != [] {
      assert (cs + [c])[1..] == cs[1..] + [c];
      PartSumAppendClass(cs[1..], c, ms, f);
    }
  }

  /** The classes partition the members: summing class by class is summing over all members. */
  lemma {:induction false} PartitionSum(ms: seq<Member>, f: Member -> int)
    ensures PartSum(Classes(ms), ms, f) == SumOf(ms, f)
  {
    if ms != [] {
      var s := ms[..|ms| - 1];
      var m := ms[|ms| - 1];
      assert ms == s + [m];
      PartitionSum(s, f);
      ClassesSpec(s);
      SumOfAppend(s, [m], f);
      PartSumAppendMember(Classes(s), s, m, f);
      if m.gameClass !in Classes(s) {
        PartSumAppendClass(Classes(s), m.gameClass, ms, f);
        UnseenClassEmpty(s, m.gameClass);
        OfClassAppend(s, m, m.gameClass);
      }
    }
  }

  lemma {:induction false} SumOfOne(g: seq<Member>)
    ensures SumOf(g, One) == |g|
  {
    if g != [] {
      SumOfOne(g[1..]);
    }
  }

  /** The per-class entries add up, class by class, to PartSum. */
  lemma {:induction false} StatsOfSums(cs: seq<string>, ms: seq<Member>)
    requires forall c :: c in cs ==> c in TallyMap(ms)
    ensures SumOf(StatsOf(cs, TallyMap(ms)), TotalPointsKey) == PartSum(cs, ms, PointsKey)
    ensures SumOf(StatsOf(cs, TallyMap(ms)), MemberCountKey) == PartSum(cs, ms, One)
  {
    if cs != [] {
      StatsOfSums(cs[1..], ms);
      SumOfOne(OfClass(ms, cs[0]));
      assert StatsOf(cs, TallyMap(ms))[1..] == StatsOf(cs[1..], TallyMap(ms));
    }
  }

  /** The member counts add up to the number of members, and the totals to all points. */
  lemma ClassStatsSums(ms: seq<Member>)
    ensures SumOf(ClassStats(ms), MemberCountKey) == |ms|
    ensures SumOf(ClassStats(ms), TotalPointsKey) == SumOf(ms, PointsKey)
  {
    var u := StatsOf(Classes(ms), TallyMap(ms));
    SortDescSum(u, TotalPointsKey, MemberCountKey);
    SortDescSum(u, TotalPointsKey, TotalPointsKey);
    StatsOfSums(Classes(ms), ms);
    PartitionSum(ms, One);
    PartitionSum(ms, PointsKey);
    SumOfOne(ms);
  }
}
