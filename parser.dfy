/** Fact extraction from already-decoded resume text (resume_parser/parser.py): the
    education lines, the vocabulary scan for skills, the filter over a tagger's
    candidates, and the assembly of the parsed resume. */
module ResumeParser {
  import opened Wrappers
  import opened Seqs
  import opened Text
  import opened Email

  /** `FALLBACK_SKILLS`, in its order. */
  const FallbackSkills: seq<string> := [
    "python", "java", "c++", "c", "javascript", "html", "css", "react", "nodejs", "node",
    "sql", "postgresql", "mysql", "mongodb", "pandas", "numpy", "scikit-learn", "tensorflow",
    "pytorch", "keras", "docker", "kubernetes", "aws", "azure", "gcp", "git", "linux",
    "streamlit", "flask", "django", "nlp", "spaCy", "opencv", "matlab", "excel"]

  /** `EDU_KEYWORDS`. */
  const EduKeywords: seq<string> := [
    "btech", "bachelor", "master", "m.tech", "mtech", "b.sc", "msc", "diploma", "cgpa",
    "degree", "college", "university"]

  /** The longest prefix `raw_text` keeps. */
  const RawTextLimit: int := 4000

  /** The largest number of education lines returned. */
  const MaxEducation: nat := 6

  // ---------------------------------------------------------------- extract_education

  /** The trimmed, lower-cased line contains one of the education keywords. */
  predicate IsEduLine(line: string) {
    MentionsKeyword(Lower(Strip(line)))
  }

  /** Some entry of `EDU_KEYWORDS` is a substring of `low`. */
  predicate MentionsKeyword(low: string) {
    exists m :: 0 <= m < |EduKeywords| && HasKeyword(low, m)
  }

  /** `EDU_KEYWORDS[m] in low`. */
  predicate HasKeyword(low: string, m: int)
    requires 0 <= m < |EduKeywords|
  {
    Contains(low, EduKeywords[m])
  }

  /** `edu_lines` after the loop: each keyword line with its whitespace collapsed, in
      line order. */
  function EduLines(lines: seq<string>): (r: seq<string>)
    ensures |r| <= |lines|
    ensures forall k :: 0 <= k < |r| ==> IsCollapsed(r[k])
  {
    FilterMapIndices(IsEduLine, Collapse, lines);
    FilterMap(IsEduLine, Collapse, lines)
  }

  /** The `k`-th collected line is the `k`-th keyword line, collapsed: the lines keep
      their order and their repetitions. */
  lemma {:induction false} EduLinesOrder(lines: seq<string>)
    ensures var r, idx := EduLines(lines), PassingIndices(IsEduLine, lines);
      && |r| == |idx|
      && (forall k, l :: 0 <= k < l < |idx| ==> idx[k] < idx[l])
      && (forall i :: 0 <= i < |lines| ==> (i in idx <==> IsEduLine(lines[i])))
      && (forall k :: 0 <= k < |r| ==> idx[k] < |lines| && r[k] == Collapse(lines[idx[k]]))
  {
    FilterMapIndices(IsEduLine, Collapse, lines);
  }

  /** What `extract_education` returns: the first six distinct collected lines (all of
      them when there are fewer), without duplicates, each a collected line, in order of
      first occurrence among the collected lines. */
  function Education(text: string): (r: seq<string>)
    ensures var all := EduLines(SplitLines(text));
      && |r| <= MaxEducation && NoDup(r) && IsFirstDistinct(all, MaxEducation, r)
      && (forall x :: x in r ==> x in all)
      && (forall i, j :: 0 <= i < j < |r| ==>
            r[i] in all && r[j] in all && FirstIndex(all, r[i]) < FirstIndex(all, r[j]))
  {
    var all := EduLines(SplitLines(text));
    FirstDistinct(all, MaxEducation)
  }

  /** `extract_education`: scans the lines, keeps those that mention a keyword with their
      whitespace collapsed, then removes duplicates and keeps the first six. */
  method ExtractEducation(text: string) returns (edu: seq<string>)
    ensures edu == Education(text)
    ensures |edu| <= MaxEducation && NoDup(edu)
  {
    var eduLines: seq<string> := [];
    var lines := SplitLines(text);
    for i := 0 to |lines|
      invariant eduLines == EduLines(lines[..i])
    {
      var line := lines[i];
      var hit := FindKeyword(Lower(Strip(line)));
      if hit {
        eduLines := eduLines + [Collapse(line)];
      }
      EduLinesSnoc(lines, i);
    }
    assert lines[..|lines|] == lines;
    var unique := Dedup(eduLines);
    edu := SlicePrefix(unique, MaxEducation);
  }

  /** The inner loop of `extract_education`: tries the keywords in order and stops at the
      first one the line contains; `hit` says whether it stopped early. */
  method FindKeyword(low: string) returns (hit: bool)
    ensures hit <==> MentionsKeyword(low)
  {
    hit := false;
    var k := 0;
    while k < |EduKeywords|
      invariant 0 <= k <= |EduKeywords|
      invariant forall m :: 0 <= m < k ==> !HasKeyword(low, m)
    {
      if HasKeyword(low, k) {
        hit := true;
        break;
      }
      k := k + 1;
    }
  }

  lemma EduLinesSnoc(lines: seq<string>, i: nat)
    requires i < |lines|
    ensures EduLines(lines[..i + 1]) ==
      EduLines(lines[..i]) + if IsEduLine(lines[i]) then [Collapse(lines[i])] else []
  {
    FilterMapSnoc(IsEduLine, Collapse, lines, i);
  }

  /** The collected lines are exactly the collapsed keyword lines. */
  lemma EduLinesMembers(lines: seq<string>, x: string)
    ensures x in EduLines(lines) <==> exists l :: l in lines && IsEduLine(l) && x == Collapse(l)
  {
    FilterMapMembers(IsEduLine, Collapse, lines, x);
    if exists l :: l in lines && IsEduLine(l) && x == Collapse(l) {
      var l :| l in lines && IsEduLine(l) && x == Collapse(l);
      var i :| 0 <= i < |lines| && lines[i] == l;
    }
  }

  /** Every entry is a keyword line of the text with its whitespace collapsed: no
      leading, trailing or doubled spaces. */
  lemma EducationEntries(text: string, e: string)
    requires e in Education(text)
    ensures exists l :: l in SplitLines(text) && IsEduLine(l) && e == Collapse(l)
    ensures IsCollapsed(e)
  {
    var all := EduLines(SplitLines(text));
    assert e in Dedup(all);
    EduLinesMembers(SplitLines(text), e);
    var l :| l in SplitLines(text) && IsEduLine(l) && e == Collapse(l);
  }

  /** When there are at most six distinct collapsed keyword lines, none is missing. */
  lemma EducationComplete(text: string, l: string)
    requires |Dedup(EduLines(SplitLines(text)))| <= MaxEducation
    requires l in SplitLines(text) && IsEduLine(l)
    ensures Collapse(l) in Education(text)
  {
    EduLinesMembers(SplitLines(text), Collapse(l));
  }

  // ---------------------------------------------------------------- extract_skills_fallback

  /** `\w` over ASCII: `[A-Za-z0-9_]`. */
  predicate IsWordChar(c: char) {
    'A' <= c <= 'Z' || 'a' <= c <= 'z' || '0' <= c <= '9' || c == '_'
  }

  /** `\b` at position `i`: a word character on exactly one side. */
  predicate Boundary(t: string, i: int)
    requires 0 <= i <= |t|
  {
    (0 < i && IsWordChar(t[i - 1])) != (i < |t| && IsWordChar(t[i]))
  }

  /** `w` occurs at `i` with a word boundary on both sides. */
  ghost predicate WordAt(t: string, w: string, i: int) {
    OccursAt(t, w, i) && Boundary(t, i) && Boundary(t, i + |w|)
  }

  /** `re.search(rf"\b{re.escape(w)}\b", t)` from position `i` on. */
  predicate HasWordFrom(t: string, w: string, i: nat)
    requires i <= |t|
    ensures HasWordFrom(t, w, i) <==> exists k :: i <= k && WordAt(t, w, k)
    decreases |t| - i
  {
    if i + |w| > |t| then false
    else if w <= t[i..] && Boundary(t, i) && Boundary(t, i + |w|) then
      assert t[i..][..|w|] == t[i..i + |w|];
      assert WordAt(t, w, i);
      true
    else if i == |t| then false
    else
      assert !WordAt(t, w, i) by {
        if t[i..i + |w|] == w {
          assert w <= t[i..];
        }
      }
      HasWordFrom(t, w, i + 1)
  }

  /** `re.search(rf"\b{re.escape(w)}\b", t)` finds a match. */
  predicate HasWord(t: string, w: string) {
    HasWordFrom(t, w, 0)
  }

  /** `w` occurs somewhere in `t` as a whole word. */
  ghost predicate WholeWord(t: string, w: string) {
    exists k :: WordAt(t, w, k)
  }

  lemma HasWordIff(t: string, w: string)
    ensures HasWord(t, w) <==> WholeWord(t, w)
  {
    assert forall k :: WordAt(t, w, k) ==> 0 <= k;
  }

  /** `s` is one of the entries of `FALLBACK_SKILLS`. */
  predicate InVocabulary(s: string) {
    exists m :: 0 <= m < |FallbackSkills| && FallbackSkills[m] == s
  }

  /** The entries among the first `n` of the vocabulary found as whole words in `lowered`. */
  function FoundAmong(lowered: string, n: nat): (found: set<string>)
    requires n <= |FallbackSkills|
    ensures forall s :: s in found <==> exists m :: 0 <= m < n && FallbackSkills[m] == s && HasWord(lowered, s)
  {
    KeptAmong(w => HasWord(lowered, w), FallbackSkills, n)
  }

  /** The vocabulary entries that occur as whole words in `lowered`, in sorted order. */
  function WordsFound(lowered: string): (r: seq<string>)
    ensures StrictlySorted(r)
    ensures forall s :: s in r <==> InVocabulary(s) && WholeWord(lowered, s)
  {
    var found := FoundAmong(lowered, |FallbackSkills|);
    forall s ensures s in found <==> InVocabulary(s) && WholeWord(lowered, s) {
      HasWordIff(lowered, s);
    }
    SortedSet(found)
  }

  /** What `extract_skills_fallback` returns: the vocabulary entries that occur as whole
      words in the lower-cased text, in sorted order. */
  function SkillsFallback(text: string): (r: seq<string>)
    ensures StrictlySorted(r)
    ensures forall s :: s in r <==> InVocabulary(s) && WholeWord(Lower(text), s)
  {
    WordsFound(Lower(text))
  }

  /** `extract_skills_fallback`: lower-cases the text and scans it for the vocabulary. */
  method ExtractSkillsFallback(text: string) returns (skills: seq<string>)
    ensures skills == SkillsFallback(text)
  {
    skills := ScanVocabulary(Lower(text));
  }

  /** The loop of `extract_skills_fallback`: adds each vocabulary entry found as a whole
      word to `found`, then sorts. */
  method ScanVocabulary(lowered: string) returns (skills: seq<string>)
    ensures skills == WordsFound(lowered)
  {
    var found: set<string> := {};
    for k := 0 to |FallbackSkills|
      invariant found == FoundAmong(lowered, k)
    {
      var skill := FallbackSkills[k];
      if HasWord(lowered, skill) {
        found := found + {skill};
      }
      FoundAmongStep(lowered, k);
    }
    skills := SortedSet(found);
  }

  lemma FoundAmongStep(lowered: string, k: nat)
    requires k < |FallbackSkills|
    ensures FoundAmong(lowered, k + 1) ==
      FoundAmong(lowered, k) + if HasWord(lowered, FallbackSkills[k]) then {FallbackSkills[k]} else {}
  {
  }

  /** `"spaCy"` is never found: the text searched is lower-cased and the entry is not. */
  lemma SpacyNeverFound(text: string)
    ensures "spaCy" !in SkillsFallback(text)
  {
    NoUpperNoSpacy(Lower(text));
  }

  /** A text without capitals has no occurrence of `"spaCy"`. */
  lemma NoUpperNoSpacy(t: string)
    requires NoUpper(t)
    ensures !WholeWord(t, "spaCy")
  {
    forall k ensures !OccursAt(t, "spaCy", k) {
      if 0 <= k && k + 5 <= |t| {
        assert t[k..k + 5][3] == t[k + 3];
      }
    }
  }

  /** `c++` is found only where a word character follows it: after the final `+` the
      boundary `\b` needs a word character on the right. */
  lemma CPlusPlusNeedsWordAfter(t: string, k: int)
    requires WordAt(t, "c++", k)
    ensures k + 3 < |t| && IsWordChar(t[k + 3])
  {
    assert t[k..k + 3][2] == '+';
  }

  /** So a resume that ends in "C++" does not get `c++`. */
  lemma CPlusPlusAtEndNotFound()
    ensures "c++" !in SkillsFallback("C++")
  {
    forall k | WordAt(Lower("C++"), "c++", k) ensures false {
      CPlusPlusNeedsWordAfter(Lower("C++"), k);
    }
  }

  /** The result is a strictly sorted part of the vocabulary. */
  lemma SkillsFallbackInVocabulary(text: string)
    ensures StrictlySorted(SkillsFallback(text))
    ensures forall s :: s in SkillsFallback(text) ==> InVocabulary(s)
    ensures |SkillsFallback(text)| <= |FallbackSkills|
  {
    var r := SkillsFallback(text);
    var v := set s | s in FallbackSkills;
    var found := set x | x in r;
    assert found <= v;
    StrictlySortedNoDup(r);
    NoDupCardinality(r);
    SubsetCardinality(found, v);
    SetOfSeqCardinality(FallbackSkills);
  }

  lemma StrictlySortedNoDup(xs: seq<string>)
    requires StrictlySorted(xs)
    ensures NoDup(xs)
  {
    forall i, j | 0 <= i < j < |xs| ensures xs[i] != xs[j] {
      LessIrreflexive(xs[i]);
    }
  }

  // ---------------------------------------------------------------- the tagger's candidates

  /** Some vocabulary entry occurs in `s` as a substring. */
  predicate HasVocabularyTerm(s: string) {
    exists k :: 0 <= k < |FallbackSkills| && Contains(s, FallbackSkills[k])
  }

  /** `sorted({s for s in found if any(k in s for k in FALLBACK_SKILLS)})`. */
  function FilterCandidates(found: set<string>): (r: seq<string>)
    ensures StrictlySorted(r)
    ensures forall s :: s in r <==> s in found && HasVocabularyTerm(s)
  {
    SortedSet(set s | s in found && HasVocabularyTerm(s))
  }

  /** The entry `c` makes every candidate with the letter `c` in it pass the filter. */
  lemma LetterCPasses(s: string)
    requires 'c' in s
    ensures HasVocabularyTerm(s)
  {
    var i :| 0 <= i < |s| && s[i] == 'c';
    assert s[i..i + 1] == "c";
    assert OccursAt(s, "c", i);
    assert FallbackSkills[3] == "c";
  }

  // ---------------------------------------------------------------- parse_resume

  /** The tagging library: not loaded, raising when called, or giving its lower-cased
      entity and noun texts. */
  datatype Tagger = NoModel | Raises | Tags(candidates: set<string>)

  /** The dict `parse_resume` returns. */
  datatype Resume = Resume(skills: seq<string>, education: seq<string>, email: Option<string>, rawText: string)

  /** The tagger is loaded and at least one of its candidates contains a vocabulary
      entry, so the vocabulary filter of `extract_skills_spacy` keeps something. */
  predicate TaggerYields(tagger: Tagger) {
    tagger.Tags? && exists c :: c in tagger.candidates && HasVocabularyTerm(c)
  }

  /** The filter keeps something exactly when some candidate contains a vocabulary entry. */
  lemma TaggerYieldsIff(tagger: Tagger)
    ensures TaggerYields(tagger) <==> tagger.Tags? && FilterCandidates(tagger.candidates) != []
  {
    if tagger.Tags? {
      var r := FilterCandidates(tagger.candidates);
      if r != [] {
        assert r[0] in r;
      }
      if TaggerYields(tagger) {
        var c :| c in tagger.candidates && HasVocabularyTerm(c);
        assert c in r;
      }
    }
  }

  /** The skills chosen before cleanup: the tagger's candidates that contain a vocabulary
      entry when there is at least one; otherwise (no tagger, the tagger raises, or no
      candidate passes) the vocabulary entries found as whole words in the lower-cased
      text. Either way the list is strictly sorted. */
  function SelectedSkills(text: string, tagger: Tagger): (r: seq<string>)
    ensures StrictlySorted(r)
    ensures TaggerYields(tagger) ==>
      forall s :: s in r <==> s in tagger.candidates && HasVocabularyTerm(s)
    ensures !TaggerYields(tagger) ==>
      forall s :: s in r <==> InVocabulary(s) && WholeWord(Lower(text), s)
    ensures forall s :: s in r ==> HasVocabularyTerm(s)
  {
    TaggerYieldsIff(tagger);
    if tagger.Tags? && FilterCandidates(tagger.candidates) != [] then FilterCandidates(tagger.candidates)
    else
      VocabularyTerms(SkillsFallback(text));
      SkillsFallback(text)
  }

  /** A vocabulary entry contains itself. */
  lemma VocabularyTerms(xs: seq<string>)
    requires forall s :: s in xs ==> InVocabulary(s)
    ensures forall s :: s in xs ==> HasVocabularyTerm(s)
  {
    forall s | s in xs ensures HasVocabularyTerm(s) {
      var m :| 0 <= m < |FallbackSkills| && FallbackSkills[m] == s;
      assert OccursAt(s, FallbackSkills[m], 0);
    }
  }

  /** `parse_resume` from the decoded text on. */
  method ParseResume(text: string, tagger: Tagger) returns (r: Resume)
    ensures r.skills == Dedup(StripNonEmpty(SelectedSkills(text, tagger)))
    ensures r.education == Education(text)
    ensures r.email == ExtractEmail(text)
    ensures r.rawText <= text && |r.rawText| == if |text| < RawTextLimit then |text| else RawTextLimit
  {
    var email := ExtractEmail(text);
    var education := ExtractEducation(text);
    var skills := SelectSkills(text, tagger);
    skills := StripNonEmpty(skills);
    skills := Dedup(skills);
    r := Resume(skills, education, email, SlicePrefix(text, RawTextLimit));
  }

  /** The `try` block of `parse_resume` that picks the skills: the tagger's candidates
      when the tagger is loaded and yields some, the vocabulary scan otherwise, and the
      vocabulary scan again when the tagger raises. */
  method SelectSkills(text: string, tagger: Tagger) returns (skills: seq<string>)
    ensures skills == SelectedSkills(text, tagger)
  {
    skills := [];
    var raised := false;
    match tagger {
      case NoModel =>
      case Raises => raised := true;
      case Tags(candidates) => skills := FilterCandidates(candidates);
    }
    if raised || skills == [] {
      skills := ExtractSkillsFallback(text);
    }
  }

  /** The final skills, `Dedup(StripNonEmpty(sel))` for the selected skills `sel`, are
      stripped, non-empty and distinct; they are the non-empty stripped entries of `sel`,
      in order of first occurrence. */
  lemma ResumeSkillsClean(sel: seq<string>)
    ensures var skills := Dedup(StripNonEmpty(sel));
      && NoDup(skills)
      && (forall x :: x in skills ==> x != [] && IsStripped(x))
      && (forall x :: x in skills <==> x != [] && exists s :: s in sel && x == Strip(s))
      && (forall i, j :: 0 <= i < j < |skills| ==>
            FirstIndex(StripNonEmpty(sel), skills[i]) < FirstIndex(StripNonEmpty(sel), skills[j]))
  {
    DedupOrder(StripNonEmpty(sel));
    StripNonEmptyMembers(sel);
  }

  /** The final skills keep the order in which they first appear among the selected
      skills `sel` themselves: for `i < j`, some entry of `sel` stripping to the `i`-th
      skill comes before every entry of `sel` stripping to the `j`-th. */
  lemma ResumeSkillsOrder(sel: seq<string>, i: nat, j: nat)
    requires i < j < |Dedup(StripNonEmpty(sel))|
    ensures var skills := Dedup(StripNonEmpty(sel));
      exists a ::
        && 0 <= a < |sel| && Strip(sel[a]) == skills[i]
        && forall b :: 0 <= b < |sel| && Strip(sel[b]) == skills[j] ==> a < b
  {
    var skills := Dedup(StripNonEmpty(sel));
    assert StripNonEmpty(sel) == FilterMap(StripsNonEmpty, Strip, sel);
    DedupFilterMapOrder(StripsNonEmpty, Strip, sel, i, j);
    assert skills[j] in StripNonEmpty(sel);
    var a :| 0 <= a < |sel| && StripsNonEmpty(sel[a]) && Strip(sel[a]) == skills[i]
      && forall b :: 0 <= b < |sel| && StripsNonEmpty(sel[b]) && Strip(sel[b]) == skills[j] ==> a < b;
    assert Strip(sel[a]) == skills[i];
  }
}
