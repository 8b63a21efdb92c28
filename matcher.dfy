/** Skill matching and ranked role recommendation (matcher.py). The role catalog is
    passed in instead of being read from a JSON file. */
module Matcher {
  import opened Seqs
  import opened Text

  // ---------------------------------------------------------------- skills

  /** `normalize_skill`: trim, then lower-case. */
  function NormalizeSkill(s: string): (r: string)
    ensures IsStripped(r) && NoUpper(r)
    ensures |r| <= |s|
  {
    Lower(Strip(s))
  }

  lemma NormalizeSkillIdempotent(s: string)
    ensures NormalizeSkill(NormalizeSkill(s)) == NormalizeSkill(s)
  {
    var t := Strip(s);
    LowerKeepsStripped(t);
    StripStripped(Lower(t));
    LowerIdempotent(t);
  }

  /** `{normalize_skill(s) for s in skills}`: normal forms only, at most one per label. */
  function SkillSet(skills: seq<string>): (r: set<string>)
    ensures forall x :: x in r ==> IsStripped(x) && NoUpper(x)
    ensures |r| <= |skills|
  {
    var r := set s | s in skills :: NormalizeSkill(s);
    ImageBound(NormalizeSkill, skills, r);
    r
  }

  // ---------------------------------------------------------------- rounding

  /** Round half to even of an exact real, to an integer. */
  function RoundHalfEven(y: real): (n: int)
    ensures y - 0.5 <= n as real <= y + 0.5
  {
    var f := y.Floor;
    var frac := y - f as real;
    if frac < 0.5 then f
    else if frac > 0.5 then f + 1
    else if f % 2 == 0 then f
    else f + 1
  }

  lemma RoundHalfEvenMonotone(y: real, z: real)
    requires y <= z
    ensures RoundHalfEven(y) <= RoundHalfEven(z)
  {
    var f, g := y.Floor, z.Floor;
    assert f <= g;
    if f < g {
      assert RoundHalfEven(y) <= f + 1 <= g <= RoundHalfEven(z);
    }
  }

  /** `round(x, 1)` on an exact real: a multiple of 0.1 within 0.05 of `x`. */
  function Round1(x: real): (r: real)
    ensures x - 0.05 <= r <= x + 0.05
    ensures (r * 10.0).Floor as real == r * 10.0
    ensures 0.0 <= x <= 100.0 ==> 0.0 <= r <= 100.0
  {
    RoundHalfEven(x * 10.0) as real / 10.0
  }

  /** `round(x, 3)` on an exact real: a multiple of 0.001 within 0.0005 of `x`. */
  function Round3(x: real): (r: real)
    ensures x - 0.0005 <= r <= x + 0.0005
    ensures (r * 1000.0).Floor as real == r * 1000.0
    ensures 0.0 <= x <= 1.0 ==> 0.0 <= r <= 1.0
  {
    RoundHalfEven(x * 1000.0) as real / 1000.0
  }

  lemma RoundZero()
    ensures Round1(0.0) == 0.0 && Round3(0.0) == 0.0
  {
    assert RoundHalfEven(0.0) == 0;
  }

  lemma Round1Monotone(x: real, y: real)
    requires x <= y
    ensures Round1(x) <= Round1(y)
  {
    RoundHalfEvenMonotone(x * 10.0, y * 10.0);
  }

  // ---------------------------------------------------------------- score_role

  /** The score before rounding: `(0.7 * ratio + 0.3 * (m / (m + 3))) * 100`. It lies in
      [0, 100] when the matches are no more than the role's skills, and is 0 without
      matches. */
  function RawScore(matchCount: nat, roleCount: nat): (r: real)
    requires roleCount >= 1
    ensures matchCount <= roleCount ==> 0.0 <= r <= 100.0
    ensures matchCount == 0 ==> r == 0.0
  {
    var m := matchCount as real;
    FractionBounds(m, roleCount as real);
    FractionBounds(m, m + 3.0);
    (0.7 * (m / roleCount as real) + 0.3 * (m / (m + 3.0))) * 100.0
  }

  /** A non-negative fraction is at most 1 when its numerator is at most its denominator. */
  lemma FractionBounds(n: real, d: real)
    requires 0.0 <= n && 0.0 < d
    ensures 0.0 <= n / d
    ensures n <= d ==> n / d <= 1.0
  {
    assert (n / d) * d == n;
  }

  lemma RatioBounds(m: nat, rc: nat)
    requires 1 <= rc && m <= rc
    ensures 0.0 <= m as real / rc as real <= 1.0
  {
    var ratio := m as real / rc as real;
    assert ratio * rc as real == m as real;
  }

  /** The score grows with the number of matches when the role is fixed. */
  lemma RawScoreMonotone(m: nat, m': nat, rc: nat)
    requires 1 <= rc && m <= m'
    ensures RawScore(m, rc) <= RawScore(m', rc)
  {
    var a, b := m as real, m' as real;
    DivMonotone(a, b, rc as real);
    SaturationMonotone(a, b);
  }

  lemma DivMonotone(a: real, b: real, d: real)
    requires a <= b && 0.0 < d
    ensures a / d <= b / d
  {
    assert (b / d - a / d) * d == b - a;
  }

  /** `x / (x + 3)` does not decrease as `x` grows. */
  lemma SaturationMonotone(a: real, b: real)
    requires 0.0 <= a <= b
    ensures a / (a + 3.0) <= b / (b + 3.0)
  {
    var u, v := a / (a + 3.0), b / (b + 3.0);
    var p := (a + 3.0) * (b + 3.0);
    assert u * (a + 3.0) == a && v * (b + 3.0) == b;
    assert v * p == b * (a + 3.0);
    assert u * p == a * (b + 3.0);
    assert (v - u) * p == 3.0 * (b - a);
  }

  datatype RoleScore = RoleScore(
    matchedSkills: seq<string>,
    matchCount: nat,
    roleSkillCount: nat,
    matchRatio: real,
    score: real)

  /** The part of `score_role` after normalization, on the two skill sets. */
  function ScoreSets(roleSet: set<string>, userSet: set<string>): (s: RoleScore)
    ensures s.matchCount == |roleSet * userSet|
    ensures StrictlySorted(s.matchedSkills) && |s.matchedSkills| == s.matchCount
    ensures forall x :: x in s.matchedSkills <==> x in roleSet * userSet
    ensures s.roleSkillCount >= 1 && s.matchCount <= s.roleSkillCount
    ensures s.roleSkillCount == if roleSet == {} then 1 else |roleSet|
    ensures 0.0 <= s.matchRatio <= 1.0
    ensures 0.0 <= s.score <= 100.0
    ensures s.matchRatio == Round3(s.matchCount as real / s.roleSkillCount as real)
    ensures s.score == Round1(RawScore(s.matchCount, s.roleSkillCount))
    ensures s.matchCount == 0 ==> s.matchRatio == 0.0 && s.score == 0.0
  {
    var matched := roleSet * userSet;
    var matchCount := |matched|;
    var roleCount := if roleSet != {} then |roleSet| else 1;
    SubsetCardinality(matched, roleSet);
    ScoreFigures(matchCount, roleCount);
    RoleScore(SortedSet(matched), matchCount, roleCount,
      Round3(matchCount as real / roleCount as real), Round1(RawScore(matchCount, roleCount)))
  }

  /** The rounded ratio and score of `m` matches out of `rc` role skills. */
  lemma ScoreFigures(m: nat, rc: nat)
    requires 1 <= rc && m <= rc
    ensures 0.0 <= Round3(m as real / rc as real) <= 1.0
    ensures 0.0 <= Round1(RawScore(m, rc)) <= 100.0
    ensures m == 0 ==> Round3(m as real / rc as real) == 0.0 && Round1(RawScore(m, rc)) == 0.0
  {
    RatioBounds(m, rc);
    RoundZero();
  }

  /** `score_role`: compares the normalized skill sets of a role and a user. The facts are
      those of `ScoreSets`, stated on the raw lists. */
  function ScoreRole(roleSkills: seq<string>, userSkills: seq<string>): (s: RoleScore)
    ensures s.matchCount == |SkillSet(roleSkills) * SkillSet(userSkills)|
    ensures StrictlySorted(s.matchedSkills) && |s.matchedSkills| == s.matchCount
    ensures forall x :: x in s.matchedSkills <==> x in SkillSet(roleSkills) * SkillSet(userSkills)
    ensures s.roleSkillCount >= 1 && s.matchCount <= s.roleSkillCount
    ensures s.roleSkillCount == if SkillSet(roleSkills) == {} then 1 else |SkillSet(roleSkills)|
    ensures 0.0 <= s.matchRatio <= 1.0
    ensures 0.0 <= s.score <= 100.0
    ensures s.matchRatio == Round3(s.matchCount as real / s.roleSkillCount as real)
    ensures s.score == Round1(RawScore(s.matchCount, s.roleSkillCount))
    ensures s.matchCount == 0 ==> s.matchRatio == 0.0 && s.score == 0.0
  {
    ScoreSets(SkillSet(roleSkills), SkillSet(userSkills))
  }

  /** The match count depends only on the two skill sets, not on which is the role. */
  lemma MatchCountSymmetric(a: seq<string>, b: seq<string>)
    ensures ScoreRole(a, b).matchCount == ScoreRole(b, a).matchCount
  {
    assert SkillSet(a) * SkillSet(b) == SkillSet(b) * SkillSet(a);
  }

  lemma MatchCountBounds(roleSkills: seq<string>, userSkills: seq<string>)
    ensures ScoreRole(roleSkills, userSkills).matchCount <= |SkillSet(roleSkills)|
    ensures ScoreRole(roleSkills, userSkills).matchCount <= |SkillSet(userSkills)|
  {
    var r, u := SkillSet(roleSkills), SkillSet(userSkills);
    SubsetCardinality(r * u, r);
    SubsetCardinality(r * u, u);
  }

  /** Adding user skills never lowers the match count or the score of a role. */
  lemma ScoreRoleMonotone(roleSkills: seq<string>, userSkills: seq<string>, more: seq<string>)
    requires forall s :: s in userSkills ==> s in more
    ensures ScoreRole(roleSkills, userSkills).matchCount <= ScoreRole(roleSkills, more).matchCount
    ensures ScoreRole(roleSkills, userSkills).score <= ScoreRole(roleSkills, more).score
  {
    var r := SkillSet(roleSkills);
    assert SkillSet(userSkills) <= SkillSet(more);
    SubsetCardinality(r * SkillSet(userSkills), r * SkillSet(more));
    var s, s' := ScoreRole(roleSkills, userSkills), ScoreRole(roleSkills, more);
    RawScoreMonotone(s.matchCount, s'.matchCount, s.roleSkillCount);
    Round1Monotone(RawScore(s.matchCount, s.roleSkillCount), RawScore(s'.matchCount, s.roleSkillCount));
  }

  /** A trimmed, lower-case label is its own normal form. */
  lemma NormalizeSkillFixed(s: string)
    requires IsStripped(s) && NoUpper(s)
    ensures NormalizeSkill(s) == s
  {
    LowerNoUpper(s);
    StripStripped(s);
  }

  /** Two of three role skills matched, as with a role needing python, sql and docker
      and a user knowing python and sql: ratio 0.667 and score 58.7, the matched skills
      in sorted order. */
  lemma ScoreTwoOfThree(a: string, b: string, c: string)
    requires IsStripped(a) && NoUpper(a) && IsStripped(b) && NoUpper(b) && IsStripped(c) && NoUpper(c)
    requires Less(a, b) && c != a && c != b
    ensures ScoreRole([a, b, c], [a, b]) == RoleScore([a, b], 2, 3, 0.667, 58.7)
  {
    var role, user := [a, b, c], [a, b];
    SkillSetOfNormal(role);
    SkillSetOfNormal(user);
    ElementsOfThree(a, b, c);
    assert a != b by {
      LessIrreflexive(a);
    }
    ScoreSetsTwoOfThree(SkillSet(role), SkillSet(user), a, b, c);
  }

  lemma ElementsOfThree(a: string, b: string, c: string)
    ensures (set s | s in [a, b, c]) == {a, b, c}
    ensures (set s | s in [a, b]) == {a, b}
  {
  }

  /** The skill set of already normal labels is the set of the labels. */
  lemma SkillSetOfNormal(skills: seq<string>)
    requires forall s :: s in skills ==> IsStripped(s) && NoUpper(s)
    ensures SkillSet(skills) == set s | s in skills
  {
    forall x ensures x in SkillSet(skills) <==> x in skills {
      if x in skills {
        NormalizeSkillFixed(x);
      }
      if x in SkillSet(skills) {
        var s :| s in skills && x == NormalizeSkill(s);
        NormalizeSkillFixed(s);
      }
    }
  }

  lemma ScoreSetsTwoOfThree(roleSet: set<string>, userSet: set<string>, a: string, b: string, c: string)
    requires roleSet == {a, b, c} && userSet == {a, b}
    requires Less(a, b) && a != b && c != a && c != b
    ensures ScoreSets(roleSet, userSet) == RoleScore([a, b], 2, 3, 0.667, 58.7)
  {
    var matched := roleSet * userSet;
    assert matched == {a, b};
    assert |matched| == 2 && |roleSet| == 3;
    RoundTwoOfThree();
    SortedPair(matched, a, b);
  }

  /** The arithmetic of two matches out of three. */
  lemma RoundTwoOfThree()
    ensures Round3(2.0 / 3.0) == 0.667
    ensures Round1(RawScore(2, 3)) == 58.7
  {
    assert RoundHalfEven(2.0 / 3.0 * 1000.0) == 667;
    assert RawScore(2, 3) == 4400.0 / 75.0;
    assert RoundHalfEven(4400.0 / 75.0 * 10.0) == 587;
  }

  /** `sorted` of a two-element set. */
  lemma SortedPair(s: set<string>, a: string, b: string)
    requires s == {a, b} && Less(a, b)
    ensures SortedSet(s) == [a, b]
  {
    var m := SortedSet(s);
    LessIrreflexive(a);
    LessAsymmetric(a, b);
    assert |m| == 2 && m[0] in s && m[1] in s;
    assert Less(m[0], m[1]);
    LessIrreflexive(m[0]);
  }

  /** A role without skills is floored to one required skill and scores 0. */
  lemma ScoreRoleNoRoleSkills(userSkills: seq<string>)
    ensures var s := ScoreRole([], userSkills);
      s.matchCount == 0 && s.roleSkillCount == 1 && s.score == 0.0
  {
    assert SkillSet([]) == {};
  }

  // ---------------------------------------------------------------- catalog records

  /** A field value of a catalog record: a string or a list of strings. */
  datatype Value = Str(s: string) | List(items: seq<string>)

  /** A catalog record: field name to value. */
  type Record = map<string, Value>

  /** Python truthiness of a field value. */
  predicate Truthy(v: Value) {
    match v
    case Str(s) => s != []
    case List(xs) => xs != []
  }

  /** `r.get(key)` is truthy. */
  predicate HasTruthy(r: Record, key: string) {
    key in r && Truthy(r[key])
  }

  /** `r.get(key, default)`. */
  function Get(r: Record, key: string, default: Value): Value {
    if key in r then r[key] else default
  }

  /** `keys[i]` is the first of `keys` whose field in `r` is truthy: where an `or` chain
      of `r.get(...)` stops. */
  predicate FirstTruthyAt(r: Record, keys: seq<string>, i: int) {
    0 <= i < |keys| && HasTruthy(r, keys[i]) && forall j :: 0 <= j < i ==> !HasTruthy(r, keys[j])
  }

  /** In a chain of three keys, the stopping point is the first truthy one. */
  lemma FirstTruthyOfThree(r: Record, keys: seq<string>)
    requires |keys| == 3
    ensures forall i :: FirstTruthyAt(r, keys, i) ==>
      i == if HasTruthy(r, keys[0]) then 0 else if HasTruthy(r, keys[1]) then 1 else 2
  {
    forall i | FirstTruthyAt(r, keys, i)
      ensures i == if HasTruthy(r, keys[0]) then 0 else if HasTruthy(r, keys[1]) then 1 else 2
    {
      if 1 <= i {
        assert !HasTruthy(r, keys[0]);
      }
      if 2 <= i {
        assert !HasTruthy(r, keys[1]);
      }
    }
  }

  /** The fields tried, in order, for a record's skills. */
  const SkillKeys: seq<string> := ["skills", "required_skills", "required_skills_list"]

  /** The fields tried, in order, for a record's title. */
  const TitleKeys: seq<string> := ["role", "title", "name"]

  /** The skills field of a record: the first truthy of `skills`, `required_skills` and
      `required_skills_list`, or else `r.get("required_skills", [])`. */
  function SkillsField(r: Record): (v: Value)
    ensures Truthy(v) <==> HasTruthy(r, "skills") || HasTruthy(r, "required_skills") || HasTruthy(r, "required_skills_list")
    ensures Truthy(v) ==> v in r.Values
    ensures forall i :: FirstTruthyAt(r, SkillKeys, i) ==> v == r[SkillKeys[i]]
    ensures !Truthy(v) ==> v == Get(r, "required_skills", List([]))
  {
    FirstTruthyOfThree(r, SkillKeys);
    if HasTruthy(r, "skills") then r["skills"]
    else if HasTruthy(r, "required_skills") then r["required_skills"]
    else if HasTruthy(r, "required_skills_list") then r["required_skills_list"]
    else Get(r, "required_skills", List([]))
  }

  /** The role's skills as a list: a string field is split on `,`, its pieces stripped
      and the empty ones dropped. */
  function RoleSkills(r: Record): (skills: seq<string>)
    ensures SkillsField(r).List? ==> skills == SkillsField(r).items
    ensures SkillsField(r).Str? ==> forall x :: x in skills ==> x != [] && IsStripped(x)
    ensures SkillsField(r).Str? ==> forall x :: x in skills <==>
      x != [] && exists p :: p in SplitOn(SkillsField(r).s, ',') && x == Strip(p)
  {
    match SkillsField(r)
    case Str(s) =>
      StripNonEmptyMembers(SplitOn(s, ','));
      StripNonEmpty(SplitOn(s, ','))
    case List(xs) => xs
  }

  /** The title: the first truthy of `role`, `title` and `name`, or "Unknown Role". It is
      never empty. */
  function Title(r: Record): (t: Value)
    ensures Truthy(t)
    ensures t == Str("Unknown Role") || t in r.Values
    ensures !HasTruthy(r, "role") && !HasTruthy(r, "title") && !HasTruthy(r, "name") ==> t == Str("Unknown Role")
    ensures forall i :: FirstTruthyAt(r, TitleKeys, i) ==> t == r[TitleKeys[i]]
  {
    FirstTruthyOfThree(r, TitleKeys);
    if HasTruthy(r, "role") then r["role"]
    else if HasTruthy(r, "title") then r["title"]
    else if HasTruthy(r, "name") then r["name"]
    else Str("Unknown Role")
  }

  /** A record none of whose three skills fields holds a truthy value has no skills,
      so it matches nothing and scores 0. */
  lemma DegenerateRecordScoresZero(r: Record, userSkills: seq<string>)
    requires !HasTruthy(r, "skills") && !HasTruthy(r, "required_skills") && !HasTruthy(r, "required_skills_list")
    ensures RoleSkills(r) == []
    ensures ScoreRole(RoleSkills(r), userSkills).score == 0.0
  {
    var f := SkillsField(r);
    assert f == Get(r, "required_skills", List([]));
    assert f == Str("") || f == List([]);
    if f.Str? {
      assert SplitOn("", ',') == [""];
      assert Strip("") == "";
      assert StripNonEmpty([""]) == [];
    }
    var s := ScoreRole([], userSkills);
    assert SkillSet([]) == {};
    assert s.matchCount == |{} * SkillSet(userSkills)|;
    assert {} * SkillSet(userSkills) == {};
  }

  /** A string skills field yields stripped, non-empty skills that, joined back with
      commas, cover no more than the pieces of the field. */
  lemma StringSkillsFieldClean(r: Record)
    requires SkillsField(r).Str?
    ensures forall x :: x in RoleSkills(r) ==> x != [] && IsStripped(x)
    ensures |RoleSkills(r)| <= |SplitOn(SkillsField(r).s, ',')|
  {
  }

  // ---------------------------------------------------------------- recommendations

  /** One entry of the output of `recommend_roles`. */
  datatype Recommendation = Recommendation(
    title: Value,
    description: Value,
    requiredSkills: seq<string>,
    matchedSkills: seq<string>,
    matchCount: nat,
    roleSkillCount: nat,
    matchRatio: real,
    score: real,
    recommendedCourses: Value)

  /** The dict appended to `scored` for a record, its skills and their score: its sort key
      is the score's, and its title is never empty. */
  function MakeEntry(r: Record, roleSkills: seq<string>, s: RoleScore): (e: Recommendation)
    ensures KeyOf(e) == SortKey(s.score, s.matchCount, s.matchRatio)
    ensures Truthy(e.title) && e.requiredSkills == roleSkills && e.matchedSkills == s.matchedSkills
  {
    Recommendation(Title(r), Get(r, "description", Str("")), roleSkills, s.matchedSkills,
      s.matchCount, s.roleSkillCount, s.matchRatio, s.score, Get(r, "recommended_courses", List([])))
  }

  /** The entry built for one record. */
  function Entry(r: Record, userSkills: seq<string>): Recommendation {
    MakeEntry(r, RoleSkills(r), ScoreRole(RoleSkills(r), userSkills))
  }

  /** `Entry` with the user's skills fixed, as a function on records. */
  function EntryFn(userSkills: seq<string>): Record -> Recommendation {
    r => Entry(r, userSkills)
  }

  /** The list `scored`: one entry per record, in catalog order. */
  function Scored(roles: seq<Record>, userSkills: seq<string>): (r: seq<Recommendation>)
    ensures |r| == |roles|
    ensures forall i :: 0 <= i < |roles| ==> r[i] == Entry(roles[i], userSkills)
  {
    MapSeq(EntryFn(userSkills), roles)
  }

  lemma ScoredSnoc(roles: seq<Record>, i: nat, userSkills: seq<string>)
    requires i < |roles|
    ensures Scored(roles[..i + 1], userSkills) == Scored(roles[..i], userSkills) + [Entry(roles[i], userSkills)]
  {
    MapSeqSnoc(EntryFn(userSkills), roles, i);
  }

  /** `[r for r in scored if r["score"] >= min_score]`. The order within each key is
      kept (`AtLeastWithKey`). */
  function AtLeast(xs: seq<Recommendation>, minScore: real): (r: seq<Recommendation>)
    ensures forall e :: e in r ==> e in xs && e.score >= minScore
    ensures forall e :: e in xs && e.score >= minScore ==> e in r
    ensures |r| <= |xs|
  {
    if xs == [] then []
    else
      var p := AtLeast(xs[..|xs| - 1], minScore);
      var x := xs[|xs| - 1];
      assert forall e :: e in xs <==> e in xs[..|xs| - 1] || e == x;
      if x.score >= minScore then p + [x] else p
  }

  // ---------------------------------------------------------------- stable sort

  /** The sort key `(score, match_count, match_ratio)`. */
  datatype SortKey = SortKey(score: real, matchCount: nat, matchRatio: real)

  function KeyOf(e: Recommendation): SortKey {
    SortKey(e.score, e.matchCount, e.matchRatio)
  }

  /** Python's tuple order on sort keys: a strict total order. */
  predicate KeyLess(a: SortKey, b: SortKey) {
    a.score < b.score
    || (a.score == b.score && (a.matchCount < b.matchCount
      || (a.matchCount == b.matchCount && a.matchRatio < b.matchRatio)))
  }

  /** `KeyLess` is a strict total order: asymmetric, transitive, and relating any two
      different keys one way or the other. */
  lemma KeyLessOrder(a: SortKey, b: SortKey, c: SortKey)
    ensures KeyLess(a, b) ==> !KeyLess(b, a)
    ensures KeyLess(a, b) && KeyLess(b, c) ==> KeyLess(a, c)
    ensures a != b ==> KeyLess(a, b) || KeyLess(b, a)
  {
  }

  /** Non-increasing in the sort key. */
  predicate SortedDesc(xs: seq<Recommendation>) {
    forall i, j :: 0 <= i < j < |xs| ==> !KeyLess(KeyOf(xs[i]), KeyOf(xs[j]))
  }

  /** The entries of `xs` whose key is `k`, in their order in `xs`. */
  function WithKey(xs: seq<Recommendation>, k: SortKey): seq<Recommendation> {
    if xs == [] then []
    else (if KeyOf(xs[0]) == k then [xs[0]] else []) + WithKey(xs[1..], k)
  }

  /** Filtering by score keeps, for every key scoring at least `min_score`, all the
      entries with that key in their order, and none for a lower key. */
  lemma {:induction false} AtLeastWithKey(xs: seq<Recommendation>, minScore: real, k: SortKey)
    ensures WithKey(AtLeast(xs, minScore), k) == if k.score >= minScore then WithKey(xs, k) else []
  {
    if xs != [] {
      var front, x := xs[..|xs| - 1], xs[|xs| - 1];
      AtLeastWithKey(front, minScore, k);
      assert xs == front + [x];
      WithKeyAppend(front, [x], k);
      WithKeySingle(x, k);
      var kept := if x.score >= minScore then [x] else [];
      assert AtLeast(xs, minScore) == AtLeast(front, minScore) + kept;
      WithKeyAppend(AtLeast(front, minScore), kept, k);
      if kept == [] {
        assert WithKey(kept, k) == [];
      } else {
        WithKeySingle(x, k);
      }
    }
  }

  /** Inserts `x` after every entry whose key is at least its own. */
  function Insert(ys: seq<Recommendation>, x: Recommendation): (r: seq<Recommendation>)
    ensures multiset(r) == multiset(ys) + multiset{x}
  {
    if ys == [] then [x]
    else if KeyLess(KeyOf(ys[0]), KeyOf(x)) then [x] + ys
    else
      var rest := Insert(ys[1..], x);
      assert ys == [ys[0]] + ys[1..];
      [ys[0]] + rest
  }

  /** `xs.sort(key=..., reverse=True)`, as a stable insertion sort. */
  function SortDesc(xs: seq<Recommendation>): (r: seq<Recommendation>)
    ensures multiset(r) == multiset(xs)
  {
    if xs == [] then []
    else
      var front := xs[..|xs| - 1];
      assert xs == front + [xs[|xs| - 1]];
      Insert(SortDesc(front), xs[|xs| - 1])
  }

  lemma SortedCons(a: Recommendation, t: seq<Recommendation>)
    requires SortedDesc(t)
    requires forall j :: 0 <= j < |t| ==> !KeyLess(KeyOf(a), KeyOf(t[j]))
    ensures SortedDesc([a] + t)
  {
    var r := [a] + t;
    forall i, j | 0 <= i < j < |r| ensures !KeyLess(KeyOf(r[i]), KeyOf(r[j])) {
      assert r[j] == t[j - 1];
      if 0 < i { assert r[i] == t[i - 1]; }
    }
  }

  /** Inserting into a sorted list keeps it sorted. */
  lemma {:induction false} InsertSorted(ys: seq<Recommendation>, x: Recommendation)
    requires SortedDesc(ys)
    ensures SortedDesc(Insert(ys, x))
  {
    if ys == [] {
    } else if KeyLess(KeyOf(ys[0]), KeyOf(x)) {
      SortedCons(x, ys);
    } else {
      var t := Insert(ys[1..], x);
      InsertSorted(ys[1..], x);
      forall j | 0 <= j < |t| ensures !KeyLess(KeyOf(ys[0]), KeyOf(t[j])) {
        assert t[j] in multiset(t);
        if t[j] != x {
          assert t[j] in multiset(ys[1..]);
          var m :| 0 <= m < |ys[1..]| && ys[1..][m] == t[j];
          assert ys[m + 1] == t[j];
        }
      }
      SortedCons(ys[0], t);
    }
  }

  lemma {:induction false} WithKeyAppend(a: seq<Recommendation>, b: seq<Recommendation>, k: SortKey)
    ensures WithKey(a + b, k) == WithKey(a, k) + WithKey(b, k)
  {
    if a != [] {
      assert (a + b)[1..] == a[1..] + b;
      WithKeyAppend(a[1..], b, k);
    } else {
      assert a + b == b;
    }
  }

  lemma {:induction false} WithKeyNone(xs: seq<Recommendation>, k: SortKey)
    requires forall j :: 0 <= j < |xs| ==> KeyLess(KeyOf(xs[j]), k)
    ensures WithKey(xs, k) == []
  {
    if xs != [] { WithKeyNone(xs[1..], k); }
  }

  lemma WithKeySingle(x: Recommendation, k: SortKey)
    ensures WithKey([x], k) == if KeyOf(x) == k then [x] else []
  {
    assert [x][1..] == [];
  }

  /** Inserting adds exactly `x`, after every entry that has the same key. */
  lemma {:induction false} InsertWithKey(ys: seq<Recommendation>, x: Recommendation, k: SortKey)
    requires SortedDesc(ys)
    ensures WithKey(Insert(ys, x), k) == WithKey(ys, k) + WithKey([x], k)
  {
    if ys == [] {
      WithKeySingle(x, k);
    } else if KeyLess(KeyOf(ys[0]), KeyOf(x)) {
      InsertFrontWithKey(ys, x, k);
    } else {
      SortedTail(ys);
      InsertWithKey(ys[1..], x, k);
      InsertLaterWithKey(ys, x, k);
    }
  }

  /** When `x` goes after the head, the head is kept in front of the insertion into the
      tail. */
  lemma {:induction false} InsertLaterWithKey(ys: seq<Recommendation>, x: Recommendation, k: SortKey)
    requires ys != [] && !KeyLess(KeyOf(ys[0]), KeyOf(x))
    requires WithKey(Insert(ys[1..], x), k) == WithKey(ys[1..], k) + WithKey([x], k)
    ensures WithKey(Insert(ys, x), k) == WithKey(ys, k) + WithKey([x], k)
  {
    var head, tail := [ys[0]], ys[1..];
    var a, b, c := WithKey(head, k), WithKey(tail, k), WithKey([x], k);
    assert WithKey(Insert(ys, x), k) == a + (b + c) by {
      assert Insert(ys, x) == head + Insert(tail, x);
      WithKeyAppend(head, Insert(tail, x), k);
    }
    assert WithKey(ys, k) == a + b by {
      assert ys == head + tail;
      WithKeyAppend(head, tail, k);
    }
    AppendAssociative(a, b, c);
  }

  /** When `x` goes in front, every entry of the sorted list has a smaller key, so none
      has the key of `x`. */
  lemma {:induction false} InsertFrontWithKey(ys: seq<Recommendation>, x: Recommendation, k: SortKey)
    requires SortedDesc(ys) && ys != [] && KeyLess(KeyOf(ys[0]), KeyOf(x))
    ensures WithKey([x] + ys, k) == WithKey(ys, k) + WithKey([x], k)
  {
    WithKeySingle(x, k);
    if KeyOf(x) == k {
      forall j | 0 <= j < |ys| ensures KeyLess(KeyOf(ys[j]), k) {
        if j > 0 { assert !KeyLess(KeyOf(ys[0]), KeyOf(ys[j])); }
      }
      WithKeyNone(ys, k);
    }
    WithKeyAppend([x], ys, k);
  }

  /** `SortDesc` is a stable sort in non-increasing key order: sorted, a permutation,
      and entries with equal keys keep their relative order. */
  lemma {:induction false} SortDescCorrect(xs: seq<Recommendation>)
    ensures SortedDesc(SortDesc(xs))
    ensures forall k :: WithKey(SortDesc(xs), k) == WithKey(xs, k)
  {
    if xs != [] {
      var p, x := xs[..|xs| - 1], xs[|xs| - 1];
      SortDescCorrect(p);
      InsertSorted(SortDesc(p), x);
      assert xs == p + [x];
      forall k ensures WithKey(SortDesc(xs), k) == WithKey(xs, k) {
        InsertWithKey(SortDesc(p), x, k);
        WithKeyAppend(p, [x], k);
      }
    }
  }

  lemma {:induction false} WithKeyMember(xs: seq<Recommendation>, e: Recommendation)
    ensures e in xs <==> e in WithKey(xs, KeyOf(e))
  {
    if xs != [] {
      WithKeyMember(xs[1..], e);
      assert xs == [xs[0]] + xs[1..];
    }
  }

  lemma SortedTail(xs: seq<Recommendation>)
    requires SortedDesc(xs) && xs != []
    ensures SortedDesc(xs[1..])
  {
    forall i, j | 0 <= i < j < |xs| - 1 ensures !KeyLess(KeyOf(xs[1..][i]), KeyOf(xs[1..][j])) {
      assert xs[1..][i] == xs[i + 1] && xs[1..][j] == xs[j + 1];
    }
  }

  /** A member of a sorted list has a key no greater than that of its head. */
  lemma BelowHead(ys: seq<Recommendation>, e: Recommendation)
    requires SortedDesc(ys) && e in ys
    ensures !KeyLess(KeyOf(ys[0]), KeyOf(e))
  {
    var i :| 0 <= i < |ys| && ys[i] == e;
    if 0 < i {}
  }

  /** Two sorted lists with the same entries per key start with the same entry. */
  lemma {:induction false} SameHead(xs: seq<Recommendation>, ys: seq<Recommendation>)
    requires SortedDesc(xs) && SortedDesc(ys) && xs != [] && ys != []
    requires WithKey(xs, KeyOf(xs[0])) == WithKey(ys, KeyOf(xs[0]))
    requires WithKey(xs, KeyOf(ys[0])) == WithKey(ys, KeyOf(ys[0]))
    ensures xs[0] == ys[0]
  {
    var x, y := xs[0], ys[0];
    var k := KeyOf(x);
    assert KeyOf(y) == k by {
      assert y in xs by {
        WithKeyMember(xs, y);
        WithKeyMember(ys, y);
      }
      assert x in ys by {
        WithKeyMember(xs, x);
        WithKeyMember(ys, x);
      }
      BelowHead(ys, x);
      BelowHead(xs, y);
      KeyLessOrder(KeyOf(x), KeyOf(y), k);
    }
    assert WithKey(xs, k)[0] == x;
    assert WithKey(ys, k)[0] == y;
  }

  /** Removing the same first entry keeps the entries per key equal. */
  lemma SameTailKeys(xs: seq<Recommendation>, ys: seq<Recommendation>, k: SortKey)
    requires xs != [] && ys != [] && xs[0] == ys[0]
    requires WithKey(xs, k) == WithKey(ys, k)
    ensures WithKey(xs[1..], k) == WithKey(ys[1..], k)
  {
    var h := if KeyOf(xs[0]) == k then [xs[0]] else [];
    var a, b := WithKey(xs[1..], k), WithKey(ys[1..], k);
    assert WithKey(xs, k) == h + a;
    assert WithKey(ys, k) == h + b;
    assert a == (h + a)[|h|..] && b == (h + b)[|h|..];
  }

  /** Any two stable sorts of the same list agree: a sorted list that keeps, for every
      key, the entries with that key in the same order as the sorted list `ys` is `ys`. */
  lemma {:induction false} StableSortUnique(xs: seq<Recommendation>, ys: seq<Recommendation>)
    requires SortedDesc(xs) && SortedDesc(ys)
    requires forall k :: WithKey(xs, k) == WithKey(ys, k)
    ensures xs == ys
    decreases |xs|
  {
    if xs == [] || ys == [] {
      if xs != [] {
        WithKeyMember(xs, xs[0]);
        WithKeyMember(ys, xs[0]);
      } else if ys != [] {
        WithKeyMember(xs, ys[0]);
        WithKeyMember(ys, ys[0]);
      }
    } else {
      SameHead(xs, ys);
      forall k ensures WithKey(xs[1..], k) == WithKey(ys[1..], k) {
        SameTailKeys(xs, ys, k);
      }
      SortedTail(xs);
      SortedTail(ys);
      StableSortUnique(xs[1..], ys[1..]);
      assert xs == [xs[0]] + xs[1..] && ys == [ys[0]] + ys[1..];
    }
  }

  // ---------------------------------------------------------------- recommend_roles

  /** What `recommend_roles` returns, as one expression: nothing for no skills, at most
      one entry per record, and at most `top_k` of them. */
  function Recommend(userSkills: seq<string>, roles: seq<Record>, topK: int, minScore: real): (r: seq<Recommendation>)
    ensures userSkills == [] ==> r == []
    ensures |r| <= |roles|
    ensures 0 <= topK ==> |r| <= topK
  {
    var sorted := SortDesc(AtLeast(Scored(roles, userSkills), minScore));
    assert |sorted| == |multiset(sorted)|;
    if userSkills == [] then []
    else SlicePrefix(sorted, topK)
  }

  /** The output is a prefix of the filtered list sorted stably by descending key: at most
      `top_k` entries (for `top_k >= 0`), each scoring at least `min_score`, each the entry
      of some catalog record, non-increasing in key, equal keys in catalog order. */
  lemma {:induction false} RecommendCorrect(userSkills: seq<string>, roles: seq<Record>, topK: int, minScore: real)
    requires userSkills != []
    ensures var full := SortDesc(AtLeast(Scored(roles, userSkills), minScore));
      var r := Recommend(userSkills, roles, topK, minScore);
      && r <= full
      && (0 <= topK ==> |r| <= topK)
      && |r| == (if 0 <= topK then (if topK < |full| then topK else |full|)
                 else if |full| + topK < 0 then 0 else |full| + topK)
      && (forall e :: e in r ==> e.score >= minScore)
      && (forall e :: e in r ==> exists i :: 0 <= i < |roles| && e == Entry(roles[i], userSkills))
      && SortedDesc(r)
      && (forall k :: WithKey(full, k) == WithKey(AtLeast(Scored(roles, userSkills), minScore), k))
      && (forall k: SortKey :: k.score >= minScore ==> WithKey(full, k) == WithKey(Scored(roles, userSkills), k))
      && (forall k: SortKey :: k.score < minScore ==> WithKey(full, k) == [])
  {
    var full := SortDesc(AtLeast(Scored(roles, userSkills), minScore));
    SortedFilterKeys(Scored(roles, userSkills), minScore);
    SortedDescPrefix(full, Recommend(userSkills, roles, topK, minScore));
    RecommendMembers(userSkills, roles, topK, minScore);
  }

  /** Filtering then sorting leaves a non-increasing list that holds, for every key
      scoring at least `min_score`, the entries with that key in their original order. */
  lemma {:induction false} SortedFilterKeys(xs: seq<Recommendation>, minScore: real)
    ensures var full := SortDesc(AtLeast(xs, minScore));
      && SortedDesc(full)
      && (forall k :: WithKey(full, k) == WithKey(AtLeast(xs, minScore), k))
      && (forall k: SortKey :: k.score >= minScore ==> WithKey(full, k) == WithKey(xs, k))
      && (forall k: SortKey :: k.score < minScore ==> WithKey(full, k) == [])
  {
    SortDescCorrect(AtLeast(xs, minScore));
    forall k {
      AtLeastWithKey(xs, minScore, k);
    }
  }

  lemma SortedDescPrefix(full: seq<Recommendation>, r: seq<Recommendation>)
    requires SortedDesc(full) && r <= full
    ensures SortedDesc(r)
  {
    forall i, j | 0 <= i < j < |r| ensures !KeyLess(KeyOf(r[i]), KeyOf(r[j])) {
      assert r[i] == full[i] && r[j] == full[j];
    }
  }

  /** Every recommended entry is the entry of some catalog record and scores at least
      `min_score`. */
  lemma {:induction false} RecommendMembers(userSkills: seq<string>, roles: seq<Record>, topK: int, minScore: real)
    requires userSkills != []
    ensures forall e :: e in Recommend(userSkills, roles, topK, minScore) ==>
      e.score >= minScore && exists i :: 0 <= i < |roles| && e == Entry(roles[i], userSkills)
  {
    var sc := Scored(roles, userSkills);
    var r := Recommend(userSkills, roles, topK, minScore);
    assert r <= SortDesc(AtLeast(sc, minScore));
    SortedKeptMembers(sc, r, minScore);
    forall e | e in r ensures exists i :: 0 <= i < |roles| && e == Entry(roles[i], userSkills) {
      ScoredMember(roles, userSkills, e);
    }
  }

  lemma ScoredMember(roles: seq<Record>, userSkills: seq<string>, e: Recommendation)
    requires e in Scored(roles, userSkills)
    ensures exists i :: 0 <= i < |roles| && e == Entry(roles[i], userSkills)
  {
    var sc := Scored(roles, userSkills);
    var i :| 0 <= i < |sc| && sc[i] == e;
  }

  lemma SortedKeptMembers(xs: seq<Recommendation>, r: seq<Recommendation>, minScore: real)
    requires r <= SortDesc(AtLeast(xs, minScore))
    ensures forall e :: e in r ==> e in xs && e.score >= minScore
  {
    var full := SortDesc(AtLeast(xs, minScore));
    forall e | e in r ensures e in AtLeast(xs, minScore) {
      assert e in multiset(full);
    }
  }

  /** An empty catalog gives no recommendations. */
  lemma RecommendEmptyCatalog(userSkills: seq<string>, topK: int, minScore: real)
    ensures Recommend(userSkills, [], topK, minScore) == []
  {
    assert Scored([], userSkills) == [];
  }

  /** `recommend_roles` with the catalog passed in. */
  method RecommendRoles(userSkills: seq<string>, roles: seq<Record>, topK: int, minScore: real)
    returns (recs: seq<Recommendation>)
    ensures recs == Recommend(userSkills, roles, topK, minScore)
    ensures userSkills == [] || roles == [] ==> recs == []
    ensures 0 <= topK ==> |recs| <= topK
    ensures forall e :: e in recs ==> e.score >= minScore
    ensures SortedDesc(recs)
  {
    if userSkills == [] {
      return [];
    }
    var scored: seq<Recommendation> := [];
    for i := 0 to |roles|
      invariant scored == Scored(roles[..i], userSkills)
    {
      var r := roles[i];
      var roleSkills := RoleSkills(r);
      var s := ScoreRole(roleSkills, userSkills);
      scored := scored + [MakeEntry(r, roleSkills, s)];
      ScoredSnoc(roles, i, userSkills);
    }
    assert roles[..|roles|] == roles;
    var filtered := AtLeast(scored, minScore);
    filtered := SortDesc(filtered);
    recs := SlicePrefix(filtered, topK);
    RecommendCorrect(userSkills, roles, topK, minScore);
    if roles == [] {
      RecommendEmptyCatalog(userSkills, topK, minScore);
    }
  }

  /** The default `top_k` of `recommend_roles`. */
  const DefaultTopK: int := 5

  /** The default `min_score` of `recommend_roles`. */
  const DefaultMinScore: real := 15.0

  /** `recommend_roles(user_skills)`: the defaults give at most five entries, each scoring
      at least 15, best first. */
  method RecommendRolesDefault(userSkills: seq<string>, roles: seq<Record>)
    returns (recs: seq<Recommendation>)
    ensures recs == Recommend(userSkills, roles, DefaultTopK, DefaultMinScore)
    ensures |recs| <= DefaultTopK && |recs| <= |roles|
    ensures forall e :: e in recs ==> e.score >= DefaultMinScore
    ensures SortedDesc(recs)
  {
    recs := RecommendRoles(userSkills, roles, DefaultTopK, DefaultMinScore);
  }
}
