/** The two reports computed over the pairing table: the median age of recently
    registered male mentorees, and the number of distinct mentorees per gender among
    pairings whose mentor is at least 60. */
module Analytics {
  import opened Options
  import opened Sequences
  import opened Timestamps
  import opened Members
  import opened Pairing

  // ---------------------------------------------------------------------------
  // Median age of male mentorees
  // ---------------------------------------------------------------------------

  /** The cut-off of the median report: registered on or after 2010-01-01 00:00:00. */
  const MaleMentoreeCutoff: Timestamp := Midnight(2010, 1, 1)

  function MentoreeIs(u: string): Mentorship -> bool {
    (p: Mentorship) => p.mentoreeUuid == u
  }

  function Repeat(m: Member, n: nat): (r: seq<Member>)
    ensures |r| == n
    ensures forall x :: x in r <==> n > 0 && x == m
  {
    if n == 0 then [] else [m] + Repeat(m, n - 1)
  }

  /** Inner join of the member table with the pairing table on the mentoree uuid: each
      member, in member order, once per pairing that names it as mentoree. */
  function MentoreeRows(members: seq<Member>, pairs: seq<Mentorship>): (rows: seq<Member>)
    ensures forall m :: m in rows <==>
      m in members && exists p :: p in pairs && p.mentoreeUuid == m.uuid
  {
    if members == [] then []
    else
      var matching := Select(pairs, MentoreeIs(members[0].uuid));
      assert |matching| > 0 <==> exists p :: p in pairs && p.mentoreeUuid == members[0].uuid by {
        if |matching| > 0 {
          assert matching[0] in matching;
        }
      }
      assert forall m :: m in members <==> m == members[0] || m in members[1..];
      Repeat(members[0], |matching|) + MentoreeRows(members[1..], pairs)
  }

  lemma MulSucc(c: int, n: int)
    ensures (c + 1) * n == c * n + n
  {
  }

  lemma {:induction false} RepeatCount(m: Member, n: nat, x: Member)
    ensures multiset(Repeat(m, n))[x] == if x == m then n else 0
  {
    if n > 0 {
      RepeatCount(m, n - 1, x);
      assert Repeat(m, n) == [m] + Repeat(m, n - 1);
    }
  }

  lemma MentoreeRowsHead(members: seq<Member>, pairs: seq<Mentorship>, m: Member)
    requires members != []
    ensures multiset(MentoreeRows(members, pairs))[m]
         == multiset(Repeat(members[0], |Select(pairs, MentoreeIs(members[0].uuid))|))[m]
            + multiset(MentoreeRows(members[1..], pairs))[m]
  {
  }

  /** The inner join's multiplicities: each member occurs in the joined rows once per
      pairing that names it as mentoree, times the number of times it occurs in the
      member table. */
  lemma {:induction false} MentoreeRowsCount(members: seq<Member>, pairs: seq<Mentorship>, m: Member)
    ensures multiset(MentoreeRows(members, pairs))[m]
         == multiset(members)[m] * |Select(pairs, MentoreeIs(m.uuid))|
  {
    if members != [] {
      var m0 := members[0];
      var n := |Select(pairs, MentoreeIs(m.uuid))|;
      var c := multiset(members[1..])[m];
      MentoreeRowsHead(members, pairs, m);
      HeadCount(members, m);
      MentoreeRowsCount(members[1..], pairs, m);
      RepeatCount(m0, |Select(pairs, MentoreeIs(m0.uuid))|, m);
      if m == m0 {
        MulSucc(c, n);
      }
    }
  }

  /** The row filter of the median report. */
  predicate IsLateMale(m: Member) {
    m.gender == "male" && Ticks(m.registered) >= Ticks(MaleMentoreeCutoff)
  }

  function Ages(rows: seq<Member>): (ages: seq<int>)
    ensures |ages| == |rows|
    ensures forall i :: 0 <= i < |rows| ==> ages[i] == rows[i].age
  {
    if rows == [] then [] else [rows[0].age] + Ages(rows[1..])
  }

  lemma AgesConcat(a: seq<Member>, b: seq<Member>)
    ensures Ages(a + b) == Ages(a) + Ages(b)
  {
    assert forall i :: 0 <= i < |a| + |b| ==> (a + b)[i] == if i < |a| then a[i] else b[i - |a|];
  }

  /** The ages the median is taken over, one per joined and filtered row. */
  function MaleMentoreeAges(members: seq<Member>, pairs: seq<Mentorship>): seq<int> {
    Ages(Select(MentoreeRows(members, pairs), IsLateMale))
  }

  predicate SortedInts(xs: seq<int>) {
    forall i, j :: 0 <= i < j < |xs| ==> xs[i] <= xs[j]
  }

  /** `x` put into the sorted `xs` before the first larger element. */
  function InsertInt(x: int, xs: seq<int>): (r: seq<int>)
    requires SortedInts(xs)
    ensures SortedInts(r)
    ensures |r| == |xs| + 1
    ensures forall y :: y in r <==> y == x || y in xs
  {
    if xs == [] || x <= xs[0] then [x] + xs
    else
      var rest := InsertInt(x, xs[1..]);
      assert forall y :: y in xs <==> y == xs[0] || y in xs[1..];
      assert forall k :: 0 <= k < |rest| ==> xs[0] <= rest[k] by {
        forall k | 0 <= k < |rest| ensures xs[0] <= rest[k] {
          assert rest[k] in rest;
        }
      }
      [xs[0]] + rest
  }

  /** The ages in ascending order; `SortIntsCount` shows it is a rearrangement. */
  function SortInts(xs: seq<int>): (r: seq<int>)
    ensures SortedInts(r)
    ensures |r| == |xs|
    ensures forall y :: y in r <==> y in xs
  {
    if xs == [] then []
    else
      assert forall y :: y in xs <==> y == xs[0] || y in xs[1..];
      InsertInt(xs[0], SortInts(xs[1..]))
  }

  /** The median of a list of ages: nothing for an empty list, the middle element of
      the sorted list for an odd count, the mean of the two middle elements for an
      even count. */
  function Median(xs: seq<int>): (r: Option<real>)
    ensures r.None? <==> xs == []
  {
    if xs == [] then None
    else
      var s := SortInts(xs);
      var n := |s|;
      if n % 2 == 1 then Some(s[n / 2] as real)
      else Some(Mean(s[n / 2 - 1], s[n / 2]))
  }

  /** The exact mean of two ages. */
  function Mean(a: int, b: int): real {
    (a + b) as real / 2.0
  }

  function AtMost(v: int): int -> bool {
    x => x <= v
  }

  function AtLeast(v: int): int -> bool {
    x => x >= v
  }

  lemma {:induction false} InsertIntCount(x: int, xs: seq<int>, p: int -> bool)
    requires SortedInts(xs)
    ensures |Select(InsertInt(x, xs), p)| == |Select([x] + xs, p)|
  {
    if xs == [] || x <= xs[0] {
    } else {
      assert InsertInt(x, xs) == [xs[0]] + InsertInt(x, xs[1..]);
      SelectConcat([xs[0]], InsertInt(x, xs[1..]), p);
      InsertIntCount(x, xs[1..], p);
      SelectConcat([x], xs[1..], p);
      assert xs == [xs[0]] + xs[1..];
      SelectConcat([xs[0]], xs[1..], p);
      SelectConcat([x], xs, p);
    }
  }

  /** Sorting does not change how many elements pass any test, so the sorted list is a
      rearrangement of the original. */
  lemma {:induction false} SortIntsCount(xs: seq<int>, p: int -> bool)
    ensures |Select(SortInts(xs), p)| == |Select(xs, p)|
  {
    if xs != [] {
      InsertIntCount(xs[0], SortInts(xs[1..]), p);
      SortIntsCount(xs[1..], p);
      SelectConcat([xs[0]], SortInts(xs[1..]), p);
      assert xs == [xs[0]] + xs[1..];
      SelectConcat([xs[0]], xs[1..], p);
    }
  }

  /** In a sorted list, the element at `k` has at least `k + 1` elements at or below
      it and at least `|s| - k` at or above it. */
  lemma SortedRank(s: seq<int>, k: nat)
    requires SortedInts(s) && k < |s|
    ensures |Select(s, AtMost(s[k]))| >= k + 1
    ensures |Select(s, AtLeast(s[k]))| >= |s| - k
  {
    SelectPrefixBound(s, AtMost(s[k]), k + 1);
    SelectSuffixBound(s, AtLeast(s[k]), k);
  }

  /** The element of rank `k` of `xs`, with the counts of `xs` around it. */
  lemma RankOf(xs: seq<int>, k: nat)
    requires k < |xs|
    ensures SortInts(xs)[k] in xs
    ensures |Select(xs, AtMost(SortInts(xs)[k]))| >= k + 1
    ensures |Select(xs, AtLeast(SortInts(xs)[k]))| >= |xs| - k
  {
    var s := SortInts(xs);
    assert s[k] in s;
    SortedRank(s, k);
    SortIntsCount(xs, AtMost(s[k]));
    SortIntsCount(xs, AtLeast(s[k]));
  }

  /** The lower and upper middle elements of `xs` in ascending order; they coincide
      when the count is odd. */
  function LowerMiddle(xs: seq<int>): int
    requires xs != []
  {
    SortInts(xs)[(|xs| - 1) / 2]
  }

  function UpperMiddle(xs: seq<int>): int
    requires xs != []
  {
    SortInts(xs)[|xs| / 2]
  }

  /** The median is the middle element for an odd count and the mean of the two
      middle elements for an even count. */
  lemma MedianIsMiddle(xs: seq<int>)
    requires xs != []
    ensures |xs| % 2 == 1 ==> Median(xs) == Some(LowerMiddle(xs) as real)
    ensures |xs| % 2 == 0 ==> Median(xs) == Some(Mean(LowerMiddle(xs), UpperMiddle(xs)))
  {
    var h := |xs| / 2;
    if |xs| % 2 == 1 {
      assert (|xs| - 1) / 2 == h;
    } else {
      assert (|xs| - 1) / 2 == h - 1;
    }
  }

  /** Both middle elements come from the list, in order, and coincide for an odd
      count; at least half of the list (rounded up) lies at or below the lower one and
      at least half at or above the upper one. */
  lemma MiddlesSplitList(xs: seq<int>)
    requires xs != []
    ensures LowerMiddle(xs) in xs && UpperMiddle(xs) in xs
    ensures LowerMiddle(xs) <= UpperMiddle(xs)
    ensures |xs| % 2 == 1 ==> LowerMiddle(xs) == UpperMiddle(xs)
    ensures |Select(xs, AtMost(LowerMiddle(xs)))| >= (|xs| + 1) / 2
    ensures |Select(xs, AtLeast(UpperMiddle(xs)))| >= (|xs| + 1) / 2
  {
    var h := |xs| / 2;
    var lo := (|xs| - 1) / 2;
    if |xs| % 2 == 1 {
      assert lo == h;
    } else {
      assert lo == h - 1;
    }
    RankOf(xs, lo);
    RankOf(xs, h);
  }

  function Below(v: int): int -> bool {
    x => x < v
  }

  function Above(v: int): int -> bool {
    x => x > v
  }

  /** In a sorted list, at most `k` elements lie below the element at `k`, and at
      most `|s| - k - 1` above it. */
  lemma SortedBelowRank(s: seq<int>, k: nat)
    requires SortedInts(s) && k < |s|
    ensures |Select(s, Below(s[k]))| <= k
  {
    var v := s[k];
    assert s == s[..k] + s[k..];
    SelectConcat(s[..k], s[k..], Below(v));
    assert forall i :: 0 <= i < |s[k..]| ==> !Below(v)(s[k..][i]) by {
      forall i | 0 <= i < |s[k..]|
        ensures !Below(v)(s[k..][i])
      {
        assert s[k..][i] == s[k + i];
      }
    }
    SelectNone(s[k..], Below(v));
  }

  lemma SortedAboveRank(s: seq<int>, k: nat)
    requires SortedInts(s) && k < |s|
    ensures |Select(s, Above(s[k]))| <= |s| - k - 1
  {
    var v := s[k];
    var front := s[..k + 1];
    assert s == front + s[k + 1..];
    SelectConcat(front, s[k + 1..], Above(v));
    assert forall i :: 0 <= i < |front| ==> !Above(v)(front[i]) by {
      forall i | 0 <= i < |front|
        ensures !Above(v)(front[i])
      {
        assert front[i] == s[i];
      }
    }
    SelectNone(front, Above(v));
  }

  /** The middle elements are the order statistics of the list: fewer than half of
      it (rounded down) lies strictly below the lower one, and as few strictly above
      the upper one. With the bounds of `MiddlesSplitList` this fixes both values. */
  lemma MiddleRanks(xs: seq<int>)
    requires xs != []
    ensures |Select(xs, Below(LowerMiddle(xs)))| <= (|xs| - 1) / 2
    ensures |Select(xs, Above(UpperMiddle(xs)))| <= (|xs| - 1) / 2
  {
    var s := SortInts(xs);
    SortedBelowRank(s, (|xs| - 1) / 2);
    SortedAboveRank(s, |xs| / 2);
    SortIntsCount(xs, Below(LowerMiddle(xs)));
    SortIntsCount(xs, Above(UpperMiddle(xs)));
  }

  lemma {:induction false} InsertIntMultiset(x: int, xs: seq<int>)
    requires SortedInts(xs)
    ensures multiset(InsertInt(x, xs)) == multiset(xs) + multiset{x}
  {
    if xs != [] && x > xs[0] {
      InsertIntMultiset(x, xs[1..]);
      assert xs == [xs[0]] + xs[1..];
    }
  }

  lemma {:induction false} SortIntsMultiset(xs: seq<int>)
    ensures multiset(SortInts(xs)) == multiset(xs)
  {
    if xs != [] {
      SortIntsMultiset(xs[1..]);
      InsertIntMultiset(xs[0], SortInts(xs[1..]));
      assert xs == [xs[0]] + xs[1..];
    }
  }

  /** Two sorted lists holding the same elements equally often are equal. */
  lemma {:induction false} SortedUnique(s: seq<int>, t: seq<int>)
    requires SortedInts(s) && SortedInts(t) && multiset(s) == multiset(t)
    ensures s == t
  {
    assert |s| == |multiset(s)| == |t|;
    if s != [] {
      assert s[0] in multiset(t) && t[0] in multiset(s);
      assert t[0] in s && s[0] in t;
      assert s[0] == t[0];
      assert s == [s[0]] + s[1..];
      assert t == [t[0]] + t[1..];
      assert multiset(s) == multiset{s[0]} + multiset(s[1..]);
      assert multiset(t) == multiset{s[0]} + multiset(t[1..]);
      forall x
        ensures multiset(s[1..])[x] == multiset(t[1..])[x]
      {
        assert multiset(s)[x] == multiset(t)[x];
        assert multiset(s)[x] == multiset{s[0]}[x] + multiset(s[1..])[x];
        assert multiset(t)[x] == multiset{s[0]}[x] + multiset(t[1..])[x];
      }
      assert multiset(s[1..]) == multiset(t[1..]);
      SortedUnique(s[1..], t[1..]);
    }
  }

  /** The median depends only on how often each value occurs, not on order. */
  lemma MedianOfPermutation(xs: seq<int>, ys: seq<int>)
    requires multiset(xs) == multiset(ys)
    ensures Median(xs) == Median(ys)
  {
    assert |xs| == |multiset(xs)| == |ys|;
    SortIntsMultiset(xs);
    SortIntsMultiset(ys);
    SortedUnique(SortInts(xs), SortInts(ys));
  }

  /** `median_age_of_male_mentorees`: the median age over the joined, filtered rows,
      or nothing when no row survives the filter. */
  function MedianAgeOfMaleMentorees(members: seq<Member>, pairs: seq<Mentorship>): (r: Option<real>)
    ensures r.None? <==> forall m :: m in members && IsLateMale(m) ==>
      forall p :: p in pairs ==> p.mentoreeUuid != m.uuid
  {
    var rows := Select(MentoreeRows(members, pairs), IsLateMale);
    assert rows == [] ==> forall m :: m in members && IsLateMale(m) ==>
      forall p :: p in pairs ==> p.mentoreeUuid != m.uuid;
    assert rows != [] ==> rows[0] in rows;
    Median(MaleMentoreeAges(members, pairs))
  }

  /** The ages the median is taken over are exactly the ages of members who are male,
      registered on or after the cut-off and named as mentoree by some pairing. */
  lemma MaleMentoreeAgesMeaning(members: seq<Member>, pairs: seq<Mentorship>, a: int)
    ensures a in MaleMentoreeAges(members, pairs) <==>
      exists m :: m in members && IsLateMale(m) && m.age == a
        && exists p :: p in pairs && p.mentoreeUuid == m.uuid
  {
    var rows := Select(MentoreeRows(members, pairs), IsLateMale);
    var ages := MaleMentoreeAges(members, pairs);
    if a in ages {
      var i :| 0 <= i < |ages| && ages[i] == a;
      assert rows[i] in rows;
    }
    if exists m :: m in members && IsLateMale(m) && m.age == a
        && exists p :: p in pairs && p.mentoreeUuid == m.uuid {
      var m :| m in members && IsLateMale(m) && m.age == a
        && exists p :: p in pairs && p.mentoreeUuid == m.uuid;
      assert m in rows;
      var i :| 0 <= i < |rows| && rows[i] == m;
      assert ages[i] == a;
    }
  }

  /** The number of matches of the inner join, one per (member row, pairing) whose
      pairing names that member as mentoree, counting only members that are male,
      registered on or after the cut-off and aged `a`. */
  function LateMaleMatches(members: seq<Member>, pairs: seq<Mentorship>, a: int): nat {
    if members == [] then 0
    else
      var m := members[0];
      (if IsLateMale(m) && m.age == a then |Select(pairs, MentoreeIs(m.uuid))| else 0)
        + LateMaleMatches(members[1..], pairs, a)
  }

  lemma {:induction false} RepeatAgeCount(m: Member, k: nat, a: int)
    ensures multiset(Ages(Select(Repeat(m, k), IsLateMale)))[a]
         == if IsLateMale(m) && m.age == a then k else 0
  {
    if k > 0 {
      var rest := Repeat(m, k - 1);
      assert Repeat(m, k) == [m] + rest;
      SelectConcat([m], rest, IsLateMale);
      var first := Select([m], IsLateMale);
      AgesConcat(first, Select(rest, IsLateMale));
      RepeatAgeCount(m, k - 1, a);
      assert multiset(Ages(first))[a] == if IsLateMale(m) && m.age == a then 1 else 0 by {
        if IsLateMale(m) {
          assert first == [m];
        } else {
          assert first == [];
        }
      }
    }
  }

  /** Each age occurs among the ages the median is taken over exactly as many times
      as the inner join matches a male, late-registered member of that age. */
  lemma {:induction false} MaleMentoreeAgeCounts(members: seq<Member>, pairs: seq<Mentorship>, a: int)
    ensures multiset(MaleMentoreeAges(members, pairs))[a] == LateMaleMatches(members, pairs, a)
  {
    if members != [] {
      var m := members[0];
      var head := Repeat(m, |Select(pairs, MentoreeIs(m.uuid))|);
      var tail := MentoreeRows(members[1..], pairs);
      assert MentoreeRows(members, pairs) == head + tail;
      SelectConcat(head, tail, IsLateMale);
      AgesConcat(Select(head, IsLateMale), Select(tail, IsLateMale));
      RepeatAgeCount(m, |Select(pairs, MentoreeIs(m.uuid))|, a);
      MaleMentoreeAgeCounts(members[1..], pairs, a);
    }
  }

  /** The report's value: the median of any list holding each age as often as the
      inner join matches a male, late-registered member of that age. */
  lemma MedianAgeValue(members: seq<Member>, pairs: seq<Mentorship>, xs: seq<int>)
    requires forall a :: multiset(xs)[a] == LateMaleMatches(members, pairs, a)
    ensures MedianAgeOfMaleMentorees(members, pairs) == Median(xs)
  {
    var ages := MaleMentoreeAges(members, pairs);
    forall a
      ensures multiset(ages)[a] == multiset(xs)[a]
    {
      MaleMentoreeAgeCounts(members, pairs, a);
    }
    assert multiset(ages) == multiset(xs);
    MedianOfPermutation(ages, xs);
  }

  // ---------------------------------------------------------------------------
  // Distinct mentorees per gender under mentors aged 60 or more
  // ---------------------------------------------------------------------------

  /** The age from which a mentor counts in the grouped report. */
  const SeniorMentorAge: int := 60

  /** Some member with uuid `u` is aged 60 or more. */
  predicate IsSenior(members: seq<Member>, u: string) {
    exists m :: m in members && m.uuid == u && m.age >= SeniorMentorAge
  }

  /** Some member with uuid `u` has gender `g`. */
  predicate HasGender(members: seq<Member>, u: string, g: string) {
    exists m :: m in members && m.uuid == u && m.gender == g
  }

  /** The sub-query: uuids of mentors in some pairing that match a member aged 60 or
      more. */
  function SeniorMentorUuids(pairs: seq<Mentorship>, members: seq<Member>): (r: set<string>)
    ensures forall u :: u in r <==>
      (exists p :: p in pairs && p.mentorUuid == u) && IsSenior(members, u)
  {
    if pairs == [] then {}
    else
      assert forall p :: p in pairs <==> p == pairs[0] || p in pairs[1..];
      var rest := SeniorMentorUuids(pairs[1..], members);
      var u := pairs[0].mentorUuid;
      if IsSenior(members, u) then rest + {u} else rest
  }

  /** A row of the join of pairings with members on the mentoree uuid. */
  datatype GenderRow = GenderRow(gender: string, mentoreeUuid: string)

  /** The rows of one pairing: one per member matching its mentoree. */
  function RowsOfPairing(p: Mentorship, members: seq<Member>): (rows: seq<GenderRow>)
    ensures forall r :: r in rows <==>
      r.mentoreeUuid == p.mentoreeUuid && HasGender(members, p.mentoreeUuid, r.gender)
  {
    if members == [] then []
    else
      assert forall m :: m in members <==> m == members[0] || m in members[1..];
      (if members[0].uuid == p.mentoreeUuid then [GenderRow(members[0].gender, p.mentoreeUuid)] else [])
      + RowsOfPairing(p, members[1..])
  }

  /** Join plus `WHERE mentor_uuid IN (...)`, in pairing order. */
  function SeniorGenderRows(pairs: seq<Mentorship>, members: seq<Member>, seniors: set<string>)
    : (rows: seq<GenderRow>)
    ensures forall r :: r in rows <==> exists p :: (p in pairs
      && p.mentorUuid in seniors && r.mentoreeUuid == p.mentoreeUuid
      && HasGender(members, p.mentoreeUuid, r.gender))
  {
    if pairs == [] then []
    else
      assert forall p :: p in pairs <==> p == pairs[0] || p in pairs[1..];
      var here := if pairs[0].mentorUuid in seniors then RowsOfPairing(pairs[0], members) else [];
      here + SeniorGenderRows(pairs[1..], members, seniors)
  }

  /** `GROUP BY gender` collecting the distinct mentoree uuids of each group. */
  function GroupDistinct(rows: seq<GenderRow>): (groups: map<string, set<string>>)
    ensures forall g :: g in groups <==> exists r :: r in rows && r.gender == g
    ensures forall g, u :: g in groups ==>
      (u in groups[g] <==> GenderRow(g, u) in rows)
    ensures forall g :: g in groups ==> groups[g] != {}
  {
    if rows == [] then map[]
    else
      var rest := GroupDistinct(rows[1..]);
      var r := rows[0];
      assert forall x :: x in rows <==> x == r || x in rows[1..];
      rest[r.gender := (if r.gender in rest then rest[r.gender] else {}) + {r.mentoreeUuid}]
  }

  /** The rows the grouped report is computed from. */
  function SeniorRows(pairs: seq<Mentorship>, members: seq<Member>): seq<GenderRow> {
    SeniorGenderRows(pairs, members, SeniorMentorUuids(pairs, members))
  }

  /** `total_mentorees_by_gender_and_mentor_age`: for each mentoree gender, the number
      of distinct mentorees paired with a mentor aged 60 or more. */
  function TotalMentoreesByGender(pairs: seq<Mentorship>, members: seq<Member>): (counts: map<string, nat>)
    ensures forall g :: g in counts ==> counts[g] >= 1
  {
    var groups := GroupDistinct(SeniorRows(pairs, members));
    map g | g in groups :: |groups[g]|
  }

  /** Reference reading of the query: the distinct mentorees of gender `g` named by a
      pairing whose mentor matches a member aged 60 or more. A pairing whose mentor or
      mentoree matches no member contributes nothing. */
  function CountedMentorees(pairs: seq<Mentorship>, members: seq<Member>, g: string): set<string> {
    set p | p in pairs && IsSenior(members, p.mentorUuid) && HasGender(members, p.mentoreeUuid, g)
      :: p.mentoreeUuid
  }

  /** A row of gender `g` for mentoree `u` survives the join and the sub-query filter
      exactly when `u` is counted under gender `g`. */
  lemma SeniorRowIff(pairs: seq<Mentorship>, members: seq<Member>, g: string, u: string)
    ensures GenderRow(g, u) in SeniorRows(pairs, members) <==> u in CountedMentorees(pairs, members, g)
  {
    var seniors := SeniorMentorUuids(pairs, members);
    if u in CountedMentorees(pairs, members, g) {
      var p :| p in pairs && IsSenior(members, p.mentorUuid) && HasGender(members, p.mentoreeUuid, g)
        && p.mentoreeUuid == u;
      assert p.mentorUuid in seniors;
    }
  }

  /** The report has a row for gender `g` exactly when some mentoree of that gender is
      counted, and the row holds the number of distinct such mentorees. */
  lemma TotalMentoreesMeaning(pairs: seq<Mentorship>, members: seq<Member>, g: string)
    ensures g in TotalMentoreesByGender(pairs, members) <==> CountedMentorees(pairs, members, g) != {}
    ensures g in TotalMentoreesByGender(pairs, members) ==>
      TotalMentoreesByGender(pairs, members)[g] == |CountedMentorees(pairs, members, g)|
  {
    var groups := GroupDistinct(SeniorRows(pairs, members));
    var counted := CountedMentorees(pairs, members, g);
    if g in groups {
      forall u ensures u in groups[g] <==> u in counted {
        SeniorRowIff(pairs, members, g, u);
      }
      assert groups[g] == counted;
    } else if counted != {} {
      var u :| u in counted;
      SeniorRowIff(pairs, members, g, u);
      assert false;
    }
  }

}
