/** The interest quiz of quiz/quiz_engine.py: a fixed list of yes/no questions, each tied
    to a field, and the choice of the field named most often among the answers. */
module Quiz {
  import opened Wrappers
  import opened Seqs

  /** One quiz entry: the question shown and the field a "yes" votes for. */
  datatype Question = Question(question: string, field: string)

  /** `get_quiz_questions`: four questions, one per field. */
  function QuizQuestions(): (qs: seq<Question>)
    ensures |qs| == 4
    ensures forall i, j :: 0 <= i < j < |qs| ==> qs[i].field != qs[j].field
  {
    [ Question("Do you enjoy working with numbers and data?", "Data Science"),
      Question("Do you like designing user interfaces?", "Frontend Development"),
      Question("Do you enjoy automating infrastructure and deployments?", "DevOps"),
      Question("Do you enjoy creating mobile applications?", "App Development") ]
  }

  /** Why `evaluate_answers` has no result: `most_common(1)` of an empty counter is an
      empty list, and indexing it raises. */
  datatype QuizError = NoAnswers

  /** `Counter(answers)[x]`: how many answers are `x`; zero exactly for an answer never
      given. */
  function Occurrences(answers: seq<string>, x: string): (r: nat)
    ensures r == 0 <==> x !in answers
    ensures r <= |answers|
  {
    assert |multiset(answers)| == |answers|;
    multiset(answers)[x]
  }

  /** The first of `keys` with the greatest `score`. */
  function FirstMax<T(==)>(keys: seq<T>, score: T -> nat): (b: T)
    requires keys != []
    ensures b in keys
    ensures forall k :: k in keys ==> score(k) <= score(b)
  {
    if |keys| == 1 then keys[0]
    else
      var rest := keys[1..];
      var b := FirstMax(rest, score);
      assert forall k :: k in keys ==> k == keys[0] || k in rest by {
        assert keys == [keys[0]] + rest;
      }
      if score(b) > score(keys[0]) then b else keys[0]
  }

  /** Every key before the chosen one scores strictly less: ties go to the first. */
  lemma {:induction false} FirstMaxIsFirst<T>(keys: seq<T>, score: T -> nat)
    requires keys != []
    ensures var b := FirstMax(keys, score);
      forall i :: 0 <= i < FirstIndex(keys, b) ==> score(keys[i]) < score(b)
  {
    var b := FirstMax(keys, score);
    if |keys| > 1 && b != keys[0] {
      var rest := keys[1..];
      FirstMaxIsFirst(rest, score);
      assert b == FirstMax(rest, score) && score(keys[0]) < score(b);
      var n := FirstIndex(rest, b);
      assert FirstIndex(keys, b) == 1 + n;
      forall i | 0 <= i < 1 + n ensures score(keys[i]) < score(b) {
        if i > 0 {
          assert keys[i] == rest[i - 1];
        }
      }
    }
  }

  /** `evaluate_answers`: `Counter(answers).most_common(1)[0][0]`. The counter lists the
      distinct answers in order of first appearance and `most_common` keeps that order
      among equal counts, so the result is the first-seen answer of greatest count. */
  function EvaluateAnswers(answers: seq<string>): (r: Result<string, QuizError>)
    ensures r.Failure? <==> answers == []
    ensures r.Success? ==> r.value in answers
    ensures r.Success? ==> forall x :: x in answers ==> Occurrences(answers, x) <= Occurrences(answers, r.value)
  {
    if answers == [] then Failure(NoAnswers)
    else Success(FirstMax(Dedup(answers), x => Occurrences(answers, x)))
  }

  /** Among the answers named as often as the result, the result appears first. */
  lemma EvaluateAnswersFirstOfTies(answers: seq<string>, x: string)
    requires EvaluateAnswers(answers).Success?
    requires x in answers && Occurrences(answers, x) == Occurrences(answers, EvaluateAnswers(answers).value)
    ensures FirstIndex(answers, EvaluateAnswers(answers).value) <= FirstIndex(answers, x)
  {
    var keys := Dedup(answers);
    var b := EvaluateAnswers(answers).value;
    var ib, ix := FirstIndex(keys, b), FirstIndex(keys, x);
    DedupOrder(answers);
    FirstMaxIsFirst(keys, x => Occurrences(answers, x));
    assert ib <= ix;
    if ib < ix {
      assert FirstIndex(answers, keys[ib]) < FirstIndex(answers, keys[ix]);
    }
  }

  /** A unanimous quiz recommends the one answer given. */
  lemma EvaluateAnswersUnanimous(answers: seq<string>, x: string)
    requires answers != [] && forall i :: 0 <= i < |answers| ==> answers[i] == x
    ensures EvaluateAnswers(answers) == Success(x)
  {
    var b := EvaluateAnswers(answers).value;
    assert answers[FirstIndex(answers, b)] == b;
  }
}
