# Smart career agent: resume facts, role matching and the interest quiz

This project models, in Dafny, the sequential core of a small career-advice application.
A resume's decoded text is turned into facts: an e-mail address, education lines and
skills. Those skills are then matched against a catalog of job roles. Two role
recommenders exist:

- a scored, ranked one (`matcher.py`);
- a simpler interest-or-overlap filter (`recommender/engine.py`).

A four-question quiz picks the field the user named most often.

Modules:

- `Wrappers`: `Option` and `Result`.
- `Seqs`:
  - duplicate removal in first-seen order (`list(dict.fromkeys(xs))`);
  - first occurrence;
  - Python prefix slicing `xs[:k]`;
  - generic map and filter-map over lists, with their index and membership lemmas;
  - set-size lemmas.
- `Text`: Python string operations over ASCII:
  - `lower`, `strip`, `split()`, `split(sep)`, `splitlines`, `in` on strings;
  - `" ".join`;
  - the order of strings and `sorted` of a set of strings.
- `Matcher` (`matcher.py`):
  - `normalize_skill` and `score_role`;
  - round-half-even rounding;
  - catalog records and their field fallbacks;
  - the stable descending sort;
  - `recommend_roles` as a loop method.
- `Email` (`resume_parser/parser.py:33,69-71`): the e-mail pattern's match relation, and the regex search as a scan over start positions.
- `ResumeParser` (`resume_parser/parser.py`):
  - `extract_education` (nested loops with `break`);
  - `extract_skills_fallback` (a loop that fills a set);
  - the tagger-candidate filter of line 98;
  - `parse_resume` from the decoded text on.
- `Engine` (`recommender/engine.py`): `recommend_roles` as a loop method, with the catalog as a parameter.
- `Quiz` (`quiz/quiz_engine.py`): the question list and `evaluate_answers`.

Code that changes state step by step is written as methods with loops:

- `Matcher.RecommendRoles`
- `ResumeParser.ExtractEducation` and `ResumeParser.FindKeyword`
- `ResumeParser.ScanVocabulary`
- `Engine.RecommendRoles`

`ResumeParser.ExtractSkillsFallback`, `ResumeParser.SelectSkills`, `ResumeParser.ParseResume` and `Matcher.RecommendRolesDefault` are methods without loops that call these.

Each method is proved equal to a specification function. The properties are then proved about that function.

The inner keyword loop of `extract_education` and the scan loop of `extract_skills_fallback` are separate methods (`FindKeyword`, `ScanVocabulary`). This keeps each method's proof small. `FindKeyword` keeps the source's `break`. `ScanVocabulary` visits every vocabulary entry, as the source's loop does.

Outside effects are parameters:

- The job catalog is passed in.
- The text is already decoded.
- The NLP tagger is a `Tagger` value, which is one of:
  - not loaded;
  - raises;
  - yields a set of lower-cased candidate strings.

## Model

| member | source | states |
|---|---|---|
| Matcher.NormalizeSkill | matcher.py:7-8 | the normal form has no leading or trailing whitespace and no upper-case letter, and is no longer than the label |
| Matcher.NormalizeSkillIdempotent | matcher.py:7-8 | normalizing twice is normalizing once |
| Matcher.NormalizeSkillFixed | matcher.py:7-8 | a trimmed, lower-case label is its own normal form |
| Matcher.SkillSet | matcher.py:16-17 | the set comprehension holds only normal forms (trimmed, no upper-case letter) and has at most as many members as the list has entries |
| Matcher.RoundHalfEven | matcher.py:28 | the integer chosen is within one half of the real rounded |
| Matcher.RoundHalfEvenMonotone | matcher.py:28 | rounding never reverses the order of two reals |
| Matcher.Round1 | matcher.py:28 | `round(x, 1)` is a multiple of 0.1 within 0.05 of `x` and keeps [0, 100] inside [0, 100] |
| Matcher.Round3 | matcher.py:34 | `round(x, 3)` is a multiple of 0.001 within 0.0005 of `x` and keeps [0, 1] inside [0, 1] |
| Matcher.Round1Monotone | matcher.py:28 | `round(·, 1)` is non-decreasing |
| Matcher.RoundZero | matcher.py:28 | `round(0, 1)` and `round(0, 3)` are 0 |
| Matcher.FractionBounds | matcher.py:24-27 | a non-negative fraction is non-negative, and at most 1 when its numerator is at most its denominator |
| Matcher.RatioBounds | matcher.py:21-24 | with a floored role count, the match ratio lies in [0, 1] |
| Matcher.RawScore | matcher.py:27 | the unrounded score lies in [0, 100] when the matches are no more than the role count, and is 0 without matches |
| Matcher.ScoreFigures | matcher.py:24-34 | with `m <= role_count`, the rounded ratio lies in [0, 1] and the rounded score in [0, 100]; both are 0 for no matches |
| Matcher.RawScoreMonotone | matcher.py:27 | for a fixed role count, more matches never lower the unrounded score |
| Matcher.SaturationMonotone | matcher.py:27 | the term `m / (m + 3)` is non-decreasing in `m` |
| Matcher.ScoreSets | matcher.py:19-35 | from the two normalized sets: the match count is the size of their intersection; matched skills are strictly sorted and are exactly the common skills; the role count is the role set's size, floored at 1; the ratio is the count over the role count rounded to three decimals and the score is `RawScore` of the two counts rounded to one decimal; the ratio is in [0, 1]; the score is in [0, 100]; both are 0 when nothing matches |
| Matcher.ScoreRole | matcher.py:10-36 | the same facts stated on the raw skill lists through their normalized sets, including the ratio and the score computed from the two counts |
| Matcher.MatchCountSymmetric | matcher.py:16-20 | swapping role and user skills leaves the match count unchanged |
| Matcher.MatchCountBounds | matcher.py:16-20 | the match count is at most the number of distinct normalized role skills and of distinct normalized user skills |
| Matcher.ScoreRoleMonotone | matcher.py:16-28 | adding user skills never lowers the match count or the rounded score |
| Matcher.ScoreTwoOfThree | matcher.py:10-36 | `score_role` of three distinct normal-form role skills and a user holding two of them returns those two, sorted, with match count 2, role count 3, ratio 0.667 and score 58.7 |
| Matcher.ScoreRoleNoRoleSkills | matcher.py:21-28 | a role with no skills has role count 1, no matches and score 0 |
| Matcher.DegenerateRecordScoresZero | matcher.py:54-59 | a record none of whose three skills fields is truthy yields no role skills and scores 0 |
| Matcher.StringSkillsFieldClean | matcher.py:56-57 | a comma-separated skills string yields stripped, non-empty skills, no more than its comma pieces |
| Matcher.FirstTruthyOfThree | matcher.py:54 | in an `or` chain of three `get` calls, the field the chain stops at is the first truthy one in the chain's order |
| Matcher.SkillsField | matcher.py:54 | the `or` chain: the value is the field of the first truthy key among `skills`, `required_skills`, `required_skills_list`, in that order; when none is truthy it is `r.get("required_skills", [])`; it is truthy iff one of the three is |
| Matcher.RoleSkills | matcher.py:54-57 | a list field is used as it is; for a string field, a skill is in the result iff it is non-empty and the stripped form of a piece of the field split on `,` |
| Matcher.Title | matcher.py:62 | the `or` chain: the field of the first truthy key among `role`, `title`, `name`, in that order, and "Unknown Role" when none is truthy; never empty |
| Matcher.MakeEntry | matcher.py:61-71 | the appended entry carries the score's sort key, the record's skills, the matched skills and a truthy title |
| Matcher.Scored | matcher.py:52-71 | `scored` has one entry per record, in catalog order, each the entry built from that record |
| Matcher.AtLeast | matcher.py:74 | the filter keeps exactly the entries scoring at least `min_score`, and no more entries than it was given |
| Matcher.AtLeastWithKey | matcher.py:74 | for each sort key, the filter keeps every entry with that key, in order and with repetitions, when the key's score is at least `min_score`, and none otherwise |
| Matcher.KeyLessOrder | matcher.py:75 | the tuple order on `(score, match_count, match_ratio)` is asymmetric, transitive and total on distinct keys |
| Matcher.Insert | matcher.py:75 | insertion adds exactly the one entry, as a multiset |
| Matcher.SortDesc | matcher.py:75 | the sort is a permutation of its input |
| Matcher.InsertSorted | matcher.py:75 | inserting into a non-increasing list keeps it non-increasing |
| Matcher.InsertWithKey | matcher.py:75 | insertion places the new entry after every entry with the same key |
| Matcher.SortDescCorrect | matcher.py:75 | the sort is non-increasing in `(score, match_count, match_ratio)` and keeps, for every key, the entries with that key in their original order |
| Matcher.StableSortUnique | matcher.py:75 | two non-increasing lists that agree on the entries of every key are equal, so the stable sort is determined |
| Matcher.SortedFilterKeys | matcher.py:74-75 | filtering then sorting gives a non-increasing list that holds, for every key scoring at least `min_score`, exactly the input's entries with that key in input order, and nothing for a lower key |
| Matcher.WithKeyMember | matcher.py:75 | an entry is in a list iff it is among the entries with its own key |
| Matcher.RecommendCorrect | matcher.py:73-78 | the output is a prefix of the filtered list sorted stably by descending key. It has exactly `min(top_k, len(full))` entries for `top_k >= 0` and `max(0, len(full) + top_k)` for a negative `top_k`, as Python slicing gives, each scoring at least `min_score` and each the entry of a catalog record. It is non-increasing in key. For every key scoring at least `min_score`, the sorted list holds exactly the catalog's entries with that key, in catalog order; for a lower key it holds none |
| Matcher.RecommendMembers | matcher.py:52-78 | each returned entry is the entry of some catalog record and scores at least `min_score` |
| Matcher.RecommendEmptyCatalog | matcher.py:52-78 | an empty catalog gives an empty list |
| Matcher.Recommend | matcher.py:46-78 | empty for empty user skills; no more entries than the catalog has records, and at most `top_k` for `top_k >= 0` |
| Matcher.RecommendRoles | matcher.py:38-78 | the loop method returns `Recommend`: empty for empty user skills or catalog, otherwise the sorted, filtered, truncated entries that `RecommendCorrect` describes |
| Matcher.RecommendRolesDefault | matcher.py:38 | with the default `top_k=5` and `min_score=15`: `Recommend` with those values, at most five entries, each scoring at least 15, in descending order |
| Seqs.Dedup | resume_parser/parser.py:153 | `list(dict.fromkeys(xs))` has no duplicates and exactly the members of `xs` |
| Seqs.DedupOrder | resume_parser/parser.py:153 | `list(dict.fromkeys(xs))` lists the members in order of their first occurrence in `xs` |
| Seqs.FirstDistinct | resume_parser/parser.py:83 | `list(dict.fromkeys(xs))[:n]` is the prefix of length `min(n, distinct)` of the deduplicated list: no duplicates, members of `xs`, in order of first occurrence |
| Seqs.SlicePrefix | matcher.py:78 | `xs[:k]` is a prefix of `xs` of length `min(k, len(xs))` for `k >= 0` and `max(0, len(xs) + k)` for a negative `k` |
| Text.Lower | resume_parser/parser.py:76 | `lower()` keeps the length, leaves no upper-case letter and lower-cases each character |
| Text.LowerIdempotent | matcher.py:8 | lower-casing twice is lower-casing once |
| Text.Strip | matcher.py:8 | `strip()` returns a slice of the string with only whitespace cut from each end, with no leading or trailing whitespace left |
| Text.StripStripped | matcher.py:8 | a stripped string is unchanged by `strip()` |
| Text.StripNonEmpty | resume_parser/parser.py:152 | the comprehension keeps only non-empty stripped strings, no more than it was given |
| Text.StripNonEmptyOrder | resume_parser/parser.py:152 | the `k`-th kept string is the stripped entry at the `k`-th position whose stripped form is non-empty: order and repetitions are kept |
| Text.StripNonEmptyKeeps | resume_parser/parser.py:152 | every entry whose stripped form is non-empty appears stripped in the result |
| Text.StripNonEmptySource | resume_parser/parser.py:152 | every result is the stripped form of some entry |
| Text.StripNonEmptyMembers | resume_parser/parser.py:152 | a string is kept iff it is non-empty and the stripped form of some entry |
| Text.Words | resume_parser/parser.py:79 | `split()` gives non-empty pieces without whitespace |
| Text.WordsConcat | resume_parser/parser.py:79 | the pieces of `split()`, concatenated, are the string's non-whitespace characters in order |
| Text.StripNonSpace | resume_parser/parser.py:79 | `strip()` removes only whitespace characters |
| Text.Collapse | resume_parser/parser.py:79 | `" ".join(line.strip().split())` has no leading, trailing or doubled whitespace, keeps the line's non-whitespace characters in order, and equals `Squeeze`, a one-pass definition that drops leading and trailing whitespace and turns every inner run of whitespace into one space |
| Text.WordsSqueeze | resume_parser/parser.py:79 | joining the pieces of `split()` with single spaces gives the one-pass `Squeeze`; with `Words` giving non-empty pieces without whitespace, this fixes the pieces exactly |
| Text.SqueezeAfterStart | resume_parser/parser.py:79 | after some output, the one-pass collapse of the rest is one space followed by the rest's `split()` pieces joined by single spaces, or nothing when there are none |
| Text.WordsFirst | resume_parser/parser.py:79 | `split()` of a string with a non-blank character starts with its first maximal run of non-whitespace characters; a blank string gives no pieces |
| Text.SplitOn | matcher.py:57 | `split(",")` gives at least one piece, no piece holds the separator, and a trailing separator gives an empty last piece |
| Text.SplitOnJoin | matcher.py:57 | joining the pieces with the separator gives back the string |
| Text.JoinOnLast | matcher.py:57 | joining with the separator is the join of all but the last piece, the separator, then the last piece |
| Text.SplitLines | resume_parser/parser.py:75 | no line holds a line break; there are no lines iff the text is empty; the lines joined with breaks, plus a final break when the text ends in one, give back the text |
| Text.Contains | resume_parser/parser.py:78 | `kw in low` holds iff `kw` occurs at some position of `low` |
| Text.SortedSet | resume_parser/parser.py:107 | `sorted(set)` is strictly increasing and holds exactly the set's members |
| Email.LastTopLevel | resume_parser/parser.py:33 | finds the last dot in a range that is followed by two letters, or reports that there is none |
| Email.Shape | resume_parser/parser.py:33 | a match of the pattern is at least six characters long and lies inside the text |
| Email.MatchFrom | resume_parser/parser.py:33 | the match found from a start position ends at least six characters later and inside the text |
| Email.MatchFromSound | resume_parser/parser.py:33 | what the greedy matcher finds from a start position matches the pattern |
| Email.MatchFromLongest | resume_parser/parser.py:33 | every match from a start position is found there, and ends no later than the one found |
| Email.Search | resume_parser/parser.py:70 | `search` returns the first start position that has a match, or none when no position has one |
| Email.ExtractEmail | resume_parser/parser.py:69-71 | `None` iff no substring matches the pattern; otherwise the substring at the leftmost match start, and the longest match there |
| Email.ShapeParts | resume_parser/parser.py:33 | a match has exactly one `@`, only local characters before it, and a final dot followed by at least two letters |
| Email.EmailParts | resume_parser/parser.py:69-71 | the returned address has exactly one `@`, a local part from `[A-Za-z0-9._%+-]`, and ends in a dot and two or more letters |
| Email.NoAtNoEmail | resume_parser/parser.py:69-71 | a text without `@` has no address |
| ResumeParser.ExtractEducation | resume_parser/parser.py:73-83 | the nested-loop method returns `Education`: at most six distinct entries |
| ResumeParser.FindKeyword | resume_parser/parser.py:77-81 | the keyword loop stops early iff the lowered line contains some education keyword |
| ResumeParser.EduLines | resume_parser/parser.py:74-81 | no more collected lines than lines, each with its whitespace collapsed |
| ResumeParser.EduLinesOrder | resume_parser/parser.py:75-81 | the `k`-th collected line is the `k`-th keyword line, collapsed: line order and repetitions are kept |
| ResumeParser.EduLinesMembers | resume_parser/parser.py:74-81 | a string is collected iff it is the collapsed form of a line whose trimmed, lower-cased form contains a keyword |
| ResumeParser.Education | resume_parser/parser.py:83 | exactly the first six distinct collected lines (all of them when fewer): a prefix of the deduplicated collected lines of length `min(distinct, 6)`, without duplicates, in order of first occurrence |
| ResumeParser.EducationEntries | resume_parser/parser.py:75-81 | each entry is a keyword line of the text with its whitespace collapsed |
| ResumeParser.EducationComplete | resume_parser/parser.py:83 | when there are at most six distinct collected lines, every keyword line is returned |
| ResumeParser.HasWordFrom | resume_parser/parser.py:105 | the search succeeds iff the word occurs from the position on with `\b` on both sides |
| ResumeParser.HasWordIff | resume_parser/parser.py:105 | the search succeeds iff the word occurs as a whole word somewhere |
| ResumeParser.FoundAmong | resume_parser/parser.py:101-106 | after `n` loop steps, `found` holds exactly the first `n` vocabulary entries that the search finds |
| ResumeParser.WordsFound | resume_parser/parser.py:101-107 | the result is strictly sorted and holds exactly the vocabulary entries that occur as whole words |
| ResumeParser.SkillsFallback | resume_parser/parser.py:100-107 | the same, for the lower-cased text |
| ResumeParser.ExtractSkillsFallback | resume_parser/parser.py:100-107 | the method returns `SkillsFallback`: the strictly sorted vocabulary entries found as whole words in the lower-cased text |
| ResumeParser.ScanVocabulary | resume_parser/parser.py:101-107 | the loop adds exactly the entries found and returns them sorted |
| ResumeParser.SpacyNeverFound | resume_parser/parser.py:100-107 | `"spaCy"`, the vocabulary entry on line 28, is never returned |
| ResumeParser.NoUpperNoSpacy | resume_parser/parser.py:102-105 | a text without capitals never contains `"spaCy"` |
| ResumeParser.CPlusPlusNeedsWordAfter | resume_parser/parser.py:105 | `c++` is found only where a word character follows it |
| ResumeParser.CPlusPlusAtEndNotFound | resume_parser/parser.py:105 | a resume reading "C++" does not yield `c++` |
| ResumeParser.SkillsFallbackInVocabulary | resume_parser/parser.py:100-107 | the scan returns a strictly sorted subset of the vocabulary, at most its size |
| ResumeParser.FilterCandidates | resume_parser/parser.py:98 | the result is strictly sorted, and a candidate is kept iff it contains some vocabulary entry |
| ResumeParser.LetterCPasses | resume_parser/parser.py:98 | because `c` is a vocabulary entry (line 25), any candidate containing the letter `c` passes the filter |
| ResumeParser.SelectedSkills | resume_parser/parser.py:141-149 | strictly sorted; when the tagger runs and some candidate contains a vocabulary entry, exactly the candidates that contain one; otherwise (no tagger, it raises, or no candidate passes) exactly the vocabulary entries found as whole words in the lower-cased text |
| ResumeParser.TaggerYieldsIff | resume_parser/parser.py:98 | the tagger yields a result exactly when it runs and its filtered candidate list is non-empty |
| ResumeParser.SelectSkills | resume_parser/parser.py:141-149 | the `try` block returns `SelectedSkills`: the tagger's filtered candidates when there are some, the vocabulary scan otherwise or when the tagger raises |
| ResumeParser.ParseResume | resume_parser/parser.py:133-159 | the skills are the stripped, non-empty, deduplicated tagger candidates, or the vocabulary scan when there is no tagger, it raises or nothing passes. Education and e-mail are the extractors' results. `raw_text` is the first `min(len, 4000)` characters |
| ResumeParser.ResumeSkillsClean | resume_parser/parser.py:152-153 | the final skills are distinct, stripped and non-empty. They are exactly the non-empty stripped selections, in order of first occurrence |
| ResumeParser.ResumeSkillsOrder | resume_parser/parser.py:152-153 | for `i < j`, some selected skill stripping to the `i`-th final skill comes before every selected skill stripping to the `j`-th |
| Engine.Recommendations | recommender/engine.py:10-18 | the result is no longer than the catalog |
| Engine.MatchCount | recommender/engine.py:12 | the overlap is at most the number of distinct required skills and of distinct user skills, so at most either list's length |
| Engine.Recommended | recommender/engine.py:13 | with fewer than two required skills, or fewer than two user skills, a role is recommended iff its title is the interest field |
| Engine.RecommendRoles | recommender/engine.py:8-19 | the loop method returns `Recommendations`, which `RecommendationsExact` describes |
| Engine.RecommendationsExact | recommender/engine.py:10-18 | the result lists, in catalog order, exactly the roles whose title is the interest field or with at least two shared skills. Each entry has the role's title and courses unchanged and its overlap count |
| Engine.MatchCountMonotone | recommender/engine.py:12 | more user skills never lower the overlap |
| Engine.RecommendationsMonotone | recommender/engine.py:12-13 | adding user skills never removes a role from the result |
| Engine.MatchCountCaseSensitive | recommender/engine.py:12 | skills differing only in case do not match |
| Quiz.QuizQuestions | quiz/quiz_engine.py:2-20 | four questions with pairwise distinct fields |
| Quiz.Occurrences | quiz/quiz_engine.py:24 | the count of an answer is zero iff it was never given, and at most the number of answers |
| Quiz.FirstMax | quiz/quiz_engine.py:24-25 | the chosen key is one of the keys and has the greatest count |
| Quiz.FirstMaxIsFirst | quiz/quiz_engine.py:24-25 | every key before the chosen one has a strictly smaller count |
| Quiz.EvaluateAnswers | quiz/quiz_engine.py:22-26 | an error iff there are no answers; otherwise an answer given, named at least as often as any other |
| Quiz.EvaluateAnswersFirstOfTies | quiz/quiz_engine.py:24-25 | among answers named as often as the result, the result appears first |
| Quiz.EvaluateAnswersUnanimous | quiz/quiz_engine.py:24-25 | when every answer is the same, that answer is returned |

## Left out

- PDF reading and the fallback that decodes bytes or files (resume_parser/parser.py:35-67,119-132) are not modelled. They are I/O. `ParseResume` starts from the decoded text, and `text or ""` is the identity on a string.
- Loading the spaCy model and tagging (resume_parser/parser.py:13-21,85-97) are not modelled. They call a foreign NLP library. The tagger is a `Tagger` parameter, and only the line-98 filter over its candidates is modelled.
- Catalog loading (`load_job_roles`, recommender/engine.py:4-6 and the call at matcher.py:50) is file and JSON I/O. The catalog is a parameter. The `json_path` argument has no counterpart.
- recommender/recommender.py, recommender/data_loader.py and app.py are not part of this model. They are TF-IDF numerics, CSV and URL I/O, and the UI. The `__main__` demo block of matcher.py is also left out.
- Matcher.Round1: Python rounds binary doubles. Here, round-half-even is applied to exact reals, so results that depend on how a decimal is stored in binary can differ. The score and ratio are computed on exact reals.
- Catalog field values are strings or lists of strings. JSON numbers, `null`, nested objects and non-string list items are not modelled. In the engine, roles are assumed well-formed: a missing key raises `KeyError` in the source, and that case is not modelled.
- String operations are ASCII only. `lower`, `strip`, `split` and `\b` ignore Unicode letters and whitespace. `splitlines` splits only on `'\n'`, so `'\r'` and other line breaks stay in the lines.
- Matcher.SortDesc: the in-place `list.sort` is modelled as a stable insertion sort on the list value. Aliasing of the list is not modelled. Any stable sort gives the same result (`StableSortUnique`).
- Email.ExtractEmail: the regex engine is replaced by a scan over start positions. It is proved equal to the leftmost start and the longest match there, which is what the backtracking engine returns for this pattern. Match positions (`m.start()`) are not returned because the source does not use them.
- ResumeParser.ParseResume: a tagger exception is modelled only as "raises before yielding candidates". An exception raised from inside the vocabulary scan is not modelled (that path reruns the same scan).
- Every vocabulary entry is already stripped and non-empty, so on the fallback path the cleanup at resume_parser/parser.py:152-153 leaves the scan unchanged. That identity is not proved. `ResumeSkillsClean` states what the cleanup does for any selection.
