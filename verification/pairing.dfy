/** The pairing engine: sort both cohorts by registration date, then give the
    i-th mentoree the mentor at position i mod (number of mentors). */
module Pairing {
  import opened Options
  import opened Sequences
  import opened Timestamps
  import opened Members

  /** One mentor-mentoree assignment, with its own identifier. */
  datatype Mentorship = Mentorship(uuid: string, mentorUuid: string, mentoreeUuid: string)

  /** The "nothing to pair" outcomes, reported instead of raised. */
  datatype Warning = NothingToPair | NoMentors | NoMentorees

  function Min(a: int, b: int): int {
    if a <= b then a else b
  }

  // ---------------------------------------------------------------------
  // Sorting by registration date, stably

  /** The sort key: the registration instant. */
  function DateKey(m: Member): int {
    Ticks(m.registered)
  }

  predicate SortedByDate(s: seq<Member>) {
    forall i, j :: 0 <= i < j < |s| ==> DateKey(s[i]) <= DateKey(s[j])
  }

  /** The test "registered at instant k". */
  function AtInstant(k: int): Member -> bool {
    m => DateKey(m) == k
  }

  /** The members of `s` registered at instant `k`, in their order in `s`. */
  function DateRun(s: seq<Member>, k: int): seq<Member> {
    Select(s, AtInstant(k))
  }

  /** `t` is a stable reordering of `s`: for every instant, the same members
      registered then, in the same relative order. */
  ghost predicate SameDateRuns(s: seq<Member>, t: seq<Member>) {
    forall k :: DateRun(s, k) == DateRun(t, k)
  }

  /** Replacing a middle part by one that selects the same leaves the selection unchanged. */
  lemma SelectReplaceMiddle(pre: seq<Member>, mid1: seq<Member>, mid2: seq<Member>,
                            post: seq<Member>, p: Member -> bool)
    requires Select(mid1, p) == Select(mid2, p)
    ensures Select(pre + mid1 + post, p) == Select(pre + mid2 + post, p)
  {
    SelectConcat(pre + mid1, post, p);
    SelectConcat(pre, mid1, p);
    SelectConcat(pre + mid2, post, p);
    SelectConcat(pre, mid2, p);
  }

  /** Two members registered at different instants: at most one of them is kept
      by an instant test, so their order does not matter to it. */
  lemma SelectSwapPair(x: Member, y: Member, k: int)
    requires DateKey(x) != DateKey(y)
    ensures Select([x, y], AtInstant(k)) == Select([y, x], AtInstant(k))
  {
    assert [x, y][1..] == [y];
    assert [y, x][1..] == [x];
    assert Select([x], AtInstant(k)) == if DateKey(x) == k then [x] else [];
    assert Select([y], AtInstant(k)) == if DateKey(y) == k then [y] else [];
  }

  /** Swapping two neighbours registered at different instants is a stable reordering. */
  lemma SwapKeepsDateRuns(s: seq<Member>, j: nat)
    requires 0 < j < |s| && DateKey(s[j - 1]) != DateKey(s[j])
    ensures SameDateRuns(s[j - 1 := s[j]][j := s[j - 1]], s)
    ensures multiset(s[j - 1 := s[j]][j := s[j - 1]]) == multiset(s)
  {
    var t := s[j - 1 := s[j]][j := s[j - 1]];
    var pre, x, y, post := s[..j - 1], s[j - 1], s[j], s[j + 1..];
    assert s == pre + [x, y] + post;
    assert t == pre + [y, x] + post;
    forall k
      ensures DateRun(t, k) == DateRun(s, k)
    {
      SelectSwapPair(x, y, k);
      SelectReplaceMiddle(pre, [y, x], [x, y], post, AtInstant(k));
    }
  }

  /** The first member of a sequence is in its own instant's run. */
  lemma HeadInOwnRun(s: seq<Member>)
    requires s != []
    ensures DateRun(s, DateKey(s[0])) != []
  {
    assert s[0] in DateRun(s, DateKey(s[0]));
  }

  /** The stable order is unique: two sorted, stable reorderings of the same
      sequence are equal. So the sort's postcondition fixes its result. */
  lemma {:induction false} StableSortIsUnique(x: seq<Member>, y: seq<Member>)
    requires SortedByDate(x) && SortedByDate(y) && SameDateRuns(x, y)
    ensures x == y
    decreases |x|
  {
    if x == [] || y == [] {
      if x != [] {
        HeadInOwnRun(x);
        assert false;
      } else if y != [] {
        HeadInOwnRun(y);
        assert false;
      }
    } else {
      var kx, ky := DateKey(x[0]), DateKey(y[0]);
      assert x[0] in DateRun(y, kx) by {
        assert x[0] in DateRun(x, kx);
      }
      assert y[0] in DateRun(x, ky) by {
        assert y[0] in DateRun(y, ky);
      }
      assert kx == ky;
      assert DateRun(x, kx) == [x[0]] + DateRun(x[1..], kx);
      assert DateRun(y, ky) == [y[0]] + DateRun(y[1..], ky);
      assert x[0] == DateRun(x, kx)[0] == DateRun(y, ky)[0] == y[0];
      forall k
        ensures DateRun(x[1..], k) == DateRun(y[1..], k)
      {
        assert DateRun(x, k) == DateRun(y, k);
        if DateKey(x[0]) == k {
          assert DateRun(x[1..], k) == DateRun(x, k)[1..];
          assert DateRun(y[1..], k) == DateRun(y, k)[1..];
        } else {
          assert DateRun(x[1..], k) == DateRun(x, k);
          assert DateRun(y[1..], k) == DateRun(y, k);
        }
      }
      StableSortIsUnique(x[1..], y[1..]);
      assert x == [x[0]] + x[1..];
      assert y == [y[0]] + y[1..];
    }
  }

  /** Exchange two neighbours registered at different instants. */
  method SwapNeighbours(a: array<Member>, j: nat)
    requires 0 < j < a.Length && DateKey(a[j - 1]) != DateKey(a[j])
    modifies a
    ensures a[..] == old(a[..])[j - 1 := old(a[j])][j := old(a[j - 1])]
    ensures SameDateRuns(a[..], old(a[..]))
    ensures multiset(a[..]) == multiset(old(a[..]))
  {
    a[j - 1], a[j] := a[j], a[j - 1];
    SwapKeepsDateRuns(old(a[..]), j);
  }

  /** Insertion sort's state while the member at `j` moves left: `s[..i + 1]` is
      sorted except that `s[j]` may be earlier than its left neighbours, and
      `s[j]` is no later than anything to its right. */
  ghost predicate Sifting(s: seq<Member>, i: nat, j: nat) {
    && j <= i < |s|
    && (forall x, y :: 0 <= x < y <= i && x != j && y != j ==> DateKey(s[x]) <= DateKey(s[y]))
    && (forall y :: j < y <= i ==> DateKey(s[j]) <= DateKey(s[y]))
  }

  lemma SiftingStarts(s: seq<Member>, i: nat)
    requires i < |s| && SortedByDate(s[..i])
    ensures Sifting(s, i, i)
  {
    assert forall x :: 0 <= x < i ==> s[..i][x] == s[x];
  }

  lemma SiftingStep(s: seq<Member>, i: nat, j: nat)
    requires Sifting(s, i, j) && 0 < j && DateKey(s[j - 1]) > DateKey(s[j])
    ensures Sifting(s[j - 1 := s[j]][j := s[j - 1]], i, j - 1)
  {
  }

  lemma SiftingEnds(s: seq<Member>, i: nat, j: nat)
    requires Sifting(s, i, j) && (j == 0 || DateKey(s[j - 1]) <= DateKey(s[j]))
    ensures SortedByDate(s[..i + 1])
  {
  }

  /** One step of insertion sort: move `a[i]` left past the later-registered
      members before it, swapping neighbours, until `a[..i + 1]` is sorted. */
  method InsertIntoSorted(a: array<Member>, i: nat)
    requires i < a.Length
    requires SortedByDate(a[..i])
    modifies a
    ensures SortedByDate(a[..i + 1])
    ensures a[i + 1..] == old(a[i + 1..])
    ensures SameDateRuns(a[..], old(a[..]))
    ensures multiset(a[..]) == multiset(old(a[..]))
  {
    SiftingStarts(a[..], i);
    var j: nat := i;
    while j > 0 && DateKey(a[j - 1]) > DateKey(a[j])
      invariant Sifting(a[..], i, j)
      invariant a[i + 1..] == old(a[i + 1..])
      invariant SameDateRuns(a[..], old(a[..]))
      invariant multiset(a[..]) == multiset(old(a[..]))
    {
      SiftingStep(a[..], i, j);
      SwapNeighbours(a, j);
      j := j - 1;
    }
    SiftingEnds(a[..], i, j);
  }

  /** `list.sort(key=registered_date)` on the caller's list: an in-place, stable sort. */
  method SortByRegistration(a: array<Member>)
    modifies a
    ensures SortedByDate(a[..])
    ensures SameDateRuns(a[..], old(a[..]))
    ensures multiset(a[..]) == multiset(old(a[..]))
  {
    var i := 0;
    while i < a.Length
      invariant 0 <= i <= a.Length
      invariant SortedByDate(a[..i])
      invariant SameDateRuns(a[..], old(a[..]))
      invariant multiset(a[..]) == multiset(old(a[..]))
    {
      InsertIntoSorted(a, i);
      i := i + 1;
    }
    assert a[..] == a[..a.Length];
  }

  // ---------------------------------------------------------------------
  // Building the pairs

  /** `create_mentorships`: pair the lists position by position, as `zip` does,
      each pair with a fresh identifier from `ids`; nothing when either list is empty. */
  method CreateMentorships(mentors: seq<Member>, mentorees: seq<Member>, ids: seq<string>)
    returns (pairs: seq<Mentorship>, warning: Option<Warning>)
    requires |ids| >= Min(|mentors|, |mentorees|)
    ensures warning == if |mentors| == 0 || |mentorees| == 0 then Some(NothingToPair) else None
    ensures |pairs| == Min(|mentors|, |mentorees|)
    ensures forall k :: 0 <= k < |pairs| ==>
      pairs[k] == Mentorship(ids[k], mentors[k].uuid, mentorees[k].uuid)
  {
    if |mentors| == 0 || |mentorees| == 0 {
      return [], Some(NothingToPair);
    }
    pairs, warning := [], None;
    var index := 0;
    while index < |mentors| && index < |mentorees|
      invariant index <= Min(|mentors|, |mentorees|)
      invariant |pairs| == index
      invariant forall k :: 0 <= k < index ==>
        pairs[k] == Mentorship(ids[k], mentors[k].uuid, mentorees[k].uuid)
    {
      pairs := pairs + [Mentorship(ids[index], mentors[index].uuid, mentorees[index].uuid)];
      index := index + 1;
    }
  }

  /** `a` now holds a stable sort by registration date of what `old` held. */
  ghost predicate StablySorted(now: seq<Member>, was: seq<Member>) {
    SortedByDate(now) && SameDateRuns(now, was) && multiset(now) == multiset(was)
  }

  /** The two `sort` calls of `assign_mentorships`: both caller lists sorted in
      place, one after the other. The two may be the same list, in which case it is sorted twice. */
  method SortCohorts(mentors: array<Member>, mentorees: array<Member>)
    modifies mentors, mentorees
    ensures StablySorted(mentors[..], old(mentors[..]))
    ensures StablySorted(mentorees[..], old(mentorees[..]))
  {
    SortByRegistration(mentors);
    ghost var sortedMentors := mentors[..];
    SortByRegistration(mentorees);
    if mentors == mentorees {
      forall k
        ensures DateRun(mentors[..], k) == DateRun(old(mentors[..]), k)
      {
        assert DateRun(mentors[..], k) == DateRun(sortedMentors, k);
      }
    }
  }

  /** `assign_mentorships`: with no mentors or no mentorees, warn and return nothing,
      leaving both lists alone. Otherwise sort both lists in place by registration
      date and give the i-th mentoree the mentor at i mod (number of mentors). */
  method AssignMentorships(mentors: array<Member>, mentorees: array<Member>, ids: seq<string>)
    returns (pairs: seq<Mentorship>, warning: Option<Warning>)
    requires |ids| >= mentorees.Length
    modifies mentors, mentorees
    ensures mentors.Length == 0 ==> warning == Some(NoMentors)
    ensures mentors.Length > 0 && mentorees.Length == 0 ==> warning == Some(NoMentorees)
    ensures mentors.Length == 0 || mentorees.Length == 0 ==>
      && pairs == []
      && mentors[..] == old(mentors[..]) && mentorees[..] == old(mentorees[..])
    ensures mentors.Length > 0 && mentorees.Length > 0 ==>
      && warning == None
      && StablySorted(mentors[..], old(mentors[..]))
      && StablySorted(mentorees[..], old(mentorees[..]))
      && |pairs| == mentorees.Length
      && forall i :: 0 <= i < |pairs| ==>
           pairs[i] == Mentorship(ids[i], mentors[i % mentors.Length].uuid, mentorees[i].uuid)
  {
    if mentors.Length == 0 {
      return [], Some(NoMentors);
    }
    if mentorees.Length == 0 {
      return [], Some(NoMentorees);
    }
    SortCohorts(mentors, mentorees);
    pairs, warning := [], None;
    var mentorCount := mentors.Length;
    var index := 0;
    while index < mentorees.Length
      invariant index <= mentorees.Length
      invariant |pairs| == index
      invariant StablySorted(mentors[..], old(mentors[..]))
      invariant StablySorted(mentorees[..], old(mentorees[..]))
      invariant forall i :: 0 <= i < index ==>
        pairs[i] == Mentorship(ids[i], mentors[i % mentorCount].uuid, mentorees[i].uuid)
    {
      var assignedMentor := mentors[index % mentorCount];
      var created, _ := CreateMentorships([assignedMentor], [mentorees[index]], [ids[index]]);
      pairs := pairs + created;
      index := index + 1;
    }
  }

  /** Pairings aligned with a list of mentorees of distinct uuids name each of those
      mentorees exactly once. */
  lemma EachMentoreeOnce(pairs: seq<Mentorship>, mentorees: seq<Member>)
    requires |pairs| == |mentorees|
    requires forall i :: 0 <= i < |pairs| ==> pairs[i].mentoreeUuid == mentorees[i].uuid
    requires UniqueUuids(mentorees)
    ensures forall i, j ::
      0 <= i < |pairs| && 0 <= j < |pairs| && pairs[i].mentoreeUuid == pairs[j].mentoreeUuid ==> i == j
    ensures forall m :: m in mentorees ==> exists i :: 0 <= i < |pairs| && pairs[i].mentoreeUuid == m.uuid
  {
    forall m | m in mentorees
      ensures exists i :: 0 <= i < |pairs| && pairs[i].mentoreeUuid == m.uuid
    {
      var i :| 0 <= i < |mentorees| && mentorees[i] == m;
      assert pairs[i].mentoreeUuid == m.uuid;
    }
  }
}
