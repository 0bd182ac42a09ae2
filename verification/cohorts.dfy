/** Cohort filtering: which members may mentor and which may be mentored. */
module Cohorts {
  import opened Sequences
  import opened Timestamps
  import opened Members

  /** `datetime(2004, 1, 1)`: mentors registered at or before this instant. */
  const MentorCutoff: Timestamp := Midnight(2004, 1, 1)

  /** A mentor is a woman of at least 40 who registered no later than the cut-off. */
  predicate IsMentor(m: Member) {
    m.gender == "female" && m.age >= 40 && Ticks(m.registered) <= Ticks(MentorCutoff)
  }

  /** A mentoree is anyone of 30 or younger. */
  predicate IsMentoree(m: Member) {
    m.age <= 30
  }

  /** `filter_mentors_and_mentorees`: one pass over the members; the two tests are
      independent, and each list keeps the members' order. */
  method FilterMentorsAndMentorees(members: seq<Member>)
    returns (mentors: seq<Member>, mentorees: seq<Member>)
    ensures mentors == Select(members, IsMentor)
    ensures mentorees == Select(members, IsMentoree)
  {
    mentors, mentorees := [], [];
    var index := 0;
    while index < |members|
      invariant index <= |members|
      invariant mentors == Select(members[..index], IsMentor)
      invariant mentorees == Select(members[..index], IsMentoree)
    {
      var user := members[index];
      assert members[..index + 1] == members[..index] + [user];
      SelectConcat(members[..index], [user], IsMentor);
      SelectConcat(members[..index], [user], IsMentoree);
      if IsMentor(user) {
        mentors := mentors + [user];
      }
      if IsMentoree(user) {
        mentorees := mentorees + [user];
      }
      index := index + 1;
    }
    assert members[..index] == members;
  }

  /** Each cohort is a subsequence of the members: filtering never reorders. */
  lemma CohortsKeepOrder(members: seq<Member>)
    ensures IsSubsequence(Select(members, IsMentor), members)
    ensures IsSubsequence(Select(members, IsMentoree), members)
  {
    SelectIsSubsequence(members, IsMentor);
    SelectIsSubsequence(members, IsMentoree);
  }

  /** With these thresholds (40 and over, 30 and under) no member passes both tests,
      so although the tests are independent the cohorts never share a member. */
  lemma CohortsAreDisjoint(members: seq<Member>)
    ensures forall m :: !(m in Select(members, IsMentor) && m in Select(members, IsMentoree))
  {
  }
}
