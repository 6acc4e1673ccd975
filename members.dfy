/**
  The three tracked family members and their fixed starting and target
  weights (the `familyMembers` table of the dashboard). Display names,
  colours, icons, goals and restrictions are presentation data and are not
  modelled.
 */
module Members {

  datatype Member = Ritvik | Lovely | Anu

  /** The key order of the weight-history record: ritvik, lovely, anu. */
  const AllMembers: seq<Member> := [Ritvik, Lovely, Anu]

  /** The weight a member starts from (`currentWeight` in the table). */
  function StartWeight(m: Member): (w: real)
    ensures w > 0.0
  {
    match m
    case Ritvik => 89.0
    case Lovely => 104.0
    case Anu => 75.0
  }

  /** The weight a member aims for; always strictly below the starting weight. */
  function TargetWeight(m: Member): (w: real)
    ensures 0.0 < w < StartWeight(m)
  {
    match m
    case Ritvik => 81.0
    case Lovely => 95.0
    case Anu => 72.0
  }

  lemma AllMembersListsEveryMember(m: Member)
    ensures m in AllMembers
  {
  }
}
