/** The interest-or-overlap role filter of recommender/engine.py: a role is recommended
    when its title is the user's field of interest or it shares at least two skills with
    the user, compared exactly. The catalog is a parameter. */
module Engine {
  import opened Seqs

  /** A catalog role as this filter reads it. */
  datatype Role = Role(title: string, requiredSkills: seq<string>, recommendedCourses: seq<string>)

  /** One entry of the returned list. */
  datatype RoleMatch = RoleMatch(title: string, matchCount: nat, recommendedCourses: seq<string>)

  /** The smallest overlap that recommends a role outside the field of interest. */
  const MinOverlap: nat := 2

  /** `set(xs)`. */
  function Elements(xs: seq<string>): set<string> {
    set x | x in xs
  }

  /** `len(set(role['required_skills']) & set(user_skills))`: the number of distinct
      skills the role and the user share, compared exactly (case-sensitive). It is at most
      the number of distinct required skills and at most the number of distinct user
      skills, so at most either list's length. */
  function MatchCount(role: Role, userSkills: seq<string>): (r: nat)
    ensures r <= |Elements(role.requiredSkills)| <= |role.requiredSkills|
    ensures r <= |Elements(userSkills)| <= |userSkills|
  {
    var req, user := Elements(role.requiredSkills), Elements(userSkills);
    SubsetCardinality(req * user, req);
    SubsetCardinality(req * user, user);
    SetOfSeqCardinality(role.requiredSkills);
    SetOfSeqCardinality(userSkills);
    |req * user|
  }

  /** The condition of the `if` in the loop. A role with fewer than two required skills,
      or a user with fewer than two skills, is recommended only by its title. */
  predicate Recommended(role: Role, userSkills: seq<string>, interestField: string)
    ensures |role.requiredSkills| < MinOverlap ==> (Recommended(role, userSkills, interestField) <==> role.title == interestField)
    ensures |userSkills| < MinOverlap ==> (Recommended(role, userSkills, interestField) <==> role.title == interestField)
  {
    role.title == interestField || MatchCount(role, userSkills) >= MinOverlap
  }

  /** The dict appended for a recommended role. */
  function MatchOf(role: Role, userSkills: seq<string>): RoleMatch {
    RoleMatch(role.title, MatchCount(role, userSkills), role.recommendedCourses)
  }

  function RecommendedFn(userSkills: seq<string>, interestField: string): Role -> bool {
    role => Recommended(role, userSkills, interestField)
  }

  function MatchFn(userSkills: seq<string>): Role -> RoleMatch {
    role => MatchOf(role, userSkills)
  }

  /** What `recommend_roles` returns for a catalog. */
  function Recommendations(roles: seq<Role>, userSkills: seq<string>, interestField: string): (r: seq<RoleMatch>)
    ensures |r| <= |roles|
  {
    FilterMap(RecommendedFn(userSkills, interestField), MatchFn(userSkills), roles)
  }

  /** The catalog positions of the recommended roles, in catalog order. */
  function RecommendedPositions(roles: seq<Role>, userSkills: seq<string>, interestField: string): seq<nat> {
    PassingIndices(RecommendedFn(userSkills, interestField), roles)
  }

  /** `recommend_roles`: walks the catalog once and appends an entry for each role whose
      title is the field of interest or that shares at least two skills with the user. */
  method RecommendRoles(roles: seq<Role>, userSkills: seq<string>, interestField: string)
    returns (recommendations: seq<RoleMatch>)
    ensures recommendations == Recommendations(roles, userSkills, interestField)
  {
    recommendations := [];
    for i := 0 to |roles|
      invariant recommendations == Recommendations(roles[..i], userSkills, interestField)
    {
      var role := roles[i];
      var matchCount := |Elements(role.requiredSkills) * Elements(userSkills)|;
      if role.title == interestField || matchCount >= MinOverlap {
        recommendations := recommendations + [RoleMatch(role.title, matchCount, role.recommendedCourses)];
      }
      FilterMapSnoc(RecommendedFn(userSkills, interestField), MatchFn(userSkills), roles, i);
    }
    assert roles[..|roles|] == roles;
  }

  // ---------------------------------------------------------------- properties

  /** The result lists, in catalog order, exactly the roles whose title is the field of
      interest or that share at least two skills with the user, each with its title and
      courses unchanged and its overlap count. */
  lemma RecommendationsExact(roles: seq<Role>, userSkills: seq<string>, interestField: string)
    ensures var r, idx := Recommendations(roles, userSkills, interestField),
                          RecommendedPositions(roles, userSkills, interestField);
      && |r| == |idx|
      && (forall k, l :: 0 <= k < l < |idx| ==> idx[k] < idx[l])
      && (forall i :: 0 <= i < |roles| ==>
            (i in idx <==> roles[i].title == interestField || MatchCount(roles[i], userSkills) >= MinOverlap))
      && (forall k :: 0 <= k < |r| ==>
            && idx[k] < |roles|
            && r[k].title == roles[idx[k]].title
            && r[k].matchCount == MatchCount(roles[idx[k]], userSkills)
            && r[k].recommendedCourses == roles[idx[k]].recommendedCourses)
  {
    var keep := RecommendedFn(userSkills, interestField);
    FilterMapIndices(keep, MatchFn(userSkills), roles);
  }

  /** A user with more skills shares at least as many with every role. */
  lemma MatchCountMonotone(role: Role, fewer: seq<string>, more: seq<string>)
    requires Elements(fewer) <= Elements(more)
    ensures MatchCount(role, fewer) <= MatchCount(role, more)
  {
    var req := Elements(role.requiredSkills);
    SubsetCardinality(req * Elements(fewer), req * Elements(more));
  }

  /** Adding skills never removes a role from the result: every catalog position
      recommended for `fewer` is recommended for `more`. */
  lemma RecommendationsMonotone(roles: seq<Role>, fewer: seq<string>, more: seq<string>, interestField: string)
    requires Elements(fewer) <= Elements(more)
    ensures forall i :: i in RecommendedPositions(roles, fewer, interestField) ==>
      i in RecommendedPositions(roles, more, interestField)
  {
    forall i | i in RecommendedPositions(roles, fewer, interestField)
      ensures i in RecommendedPositions(roles, more, interestField)
    {
      var k :| 0 <= k < |RecommendedPositions(roles, fewer, interestField)|
        && RecommendedPositions(roles, fewer, interestField)[k] == i;
      MatchCountMonotone(roles[i], fewer, more);
    }
  }

  /** The overlap is exact: a case variant of a user skill does not count. */
  lemma MatchCountCaseSensitive()
    ensures MatchCount(Role("Data Scientist", ["Python", "SQL"], []), ["python", "sql"]) == 0
  {
    var req, user := Elements(["Python", "SQL"]), Elements(["python", "sql"]);
    assert req == {"Python", "SQL"};
    assert user == {"python", "sql"};
    assert "Python" != "python" && "SQL" != "sql";
    assert req * user == {};
  }
}
