/** `extract_email`: the first match of the pattern
    `[A-Za-z0-9._%+-]+@[A-Za-z0-9.-]+\.[A-Za-z]{2,}` in a text, as Python's `re.search`
    finds it. The pattern is modelled by its match relation (`Shape`), and the search by
    an explicit scan over start positions that follows the backtracking matcher's
    greedy choices. */
module Email {
  import opened Wrappers

  // ---------------------------------------------------------------- character classes

  predicate IsLetter(c: char) {
    'A' <= c <= 'Z' || 'a' <= c <= 'z'
  }

  predicate IsDigit(c: char) {
    '0' <= c <= '9'
  }

  /** `[A-Za-z0-9._%+-]`, the characters before the `@`. */
  predicate IsLocal(c: char) {
    IsLetter(c) || IsDigit(c) || c == '.' || c == '_' || c == '%' || c == '+' || c == '-'
  }

  /** `[A-Za-z0-9.-]`, the characters of the domain before the last dot. */
  predicate IsDomain(c: char) {
    IsLetter(c) || IsDigit(c) || c == '.' || c == '-'
  }

  predicate AllLocal(t: string, lo: int, hi: int)
    requires 0 <= lo <= hi <= |t|
  {
    forall i :: lo <= i < hi ==> IsLocal(t[i])
  }

  predicate AllDomain(t: string, lo: int, hi: int)
    requires 0 <= lo <= hi <= |t|
  {
    forall i :: lo <= i < hi ==> IsDomain(t[i])
  }

  predicate AllLetters(t: string, lo: int, hi: int)
    requires 0 <= lo <= hi <= |t|
  {
    forall i :: lo <= i < hi ==> IsLetter(t[i])
  }

  // ---------------------------------------------------------------- the pattern

  /** `t[a..q]` matches the pattern with its `@` at `p` and its last `.` at `j`:
      local characters in `[a, p)`, the `@`, domain characters in `(p, j)`, the dot,
      and two or more letters in `(j, q)`.
      A match is at least six characters long, as in `a@b.cd`. */
  ghost predicate Shape(t: string, a: int, p: int, j: int, q: int)
    ensures Shape(t, a, p, j, q) ==> 0 <= a && a + 6 <= q <= |t|
  {
    0 <= a < p && p + 1 < j && j + 3 <= q <= |t|
    && AllLocal(t, a, p) && t[p] == '@'
    && AllDomain(t, p + 1, j) && t[j] == '.'
    && AllLetters(t, j + 1, q)
  }

  // ---------------------------------------------------------------- maximal runs

  /** The end of the longest run of local characters starting at `i`. */
  function LocalRunEnd(t: string, i: nat): (r: nat)
    requires i <= |t|
    ensures i <= r <= |t| && AllLocal(t, i, r)
    ensures r < |t| ==> !IsLocal(t[r])
    decreases |t| - i
  {
    if i < |t| && IsLocal(t[i]) then LocalRunEnd(t, i + 1) else i
  }

  /** The end of the longest run of domain characters starting at `i`. */
  function DomainRunEnd(t: string, i: nat): (r: nat)
    requires i <= |t|
    ensures i <= r <= |t| && AllDomain(t, i, r)
    ensures r < |t| ==> !IsDomain(t[r])
    decreases |t| - i
  {
    if i < |t| && IsDomain(t[i]) then DomainRunEnd(t, i + 1) else i
  }

  /** The end of the longest run of letters starting at `i`. */
  function LetterRunEnd(t: string, i: nat): (r: nat)
    requires i <= |t|
    ensures i <= r <= |t| && AllLetters(t, i, r)
    ensures r < |t| ==> !IsLetter(t[r])
    decreases |t| - i
  {
    if i < |t| && IsLetter(t[i]) then LetterRunEnd(t, i + 1) else i
  }

  /** A dot at `j` followed by at least two letters. */
  predicate TopLevelAt(t: string, j: int) {
    0 <= j && j + 2 < |t| && t[j] == '.' && IsLetter(t[j + 1]) && IsLetter(t[j + 2])
  }

  /** The largest `j` in `[lo, hi]` with `TopLevelAt(t, j)`, scanning down from `hi`: the
      dot the greedy domain part backs off to. */
  function LastTopLevel(t: string, lo: int, hi: int): (r: Option<int>)
    ensures r.Some? ==> lo <= r.value <= hi && TopLevelAt(t, r.value)
    ensures r.Some? ==> forall j :: r.value < j <= hi ==> !TopLevelAt(t, j)
    ensures r.None? ==> forall j :: lo <= j <= hi ==> !TopLevelAt(t, j)
    decreases hi - lo + 1
  {
    if hi < lo then None
    else if TopLevelAt(t, hi) then Some(hi)
    else LastTopLevel(t, lo, hi - 1)
  }

  // ---------------------------------------------------------------- matching at one start

  /** The end of the match the backtracking matcher finds when it starts at `a`, if any.
      The local part cannot contain `@`, so it is the whole local run from `a`; the
      domain part backs off from the end of its run to the last dot followed by two
      letters; the letters then run as far as they go. */
  function MatchFrom(t: string, a: nat): (r: Option<nat>)
    requires a <= |t|
    ensures r.Some? ==> a + 6 <= r.value <= |t|
  {
    var p := LocalRunEnd(t, a);
    if p == a || p == |t| || t[p] != '@' then None
    else
      var e := DomainRunEnd(t, p + 1);
      match LastTopLevel(t, p + 2, e - 1)
      case None => None
      case Some(j) => Some(LetterRunEnd(t, j + 1))
  }

  /** A local part that ends at an `@` ends where the local run from its start ends. */
  lemma LocalPartIsRun(t: string, a: nat, p: int)
    requires a < p < |t| && AllLocal(t, a, p) && t[p] == '@'
    ensures LocalRunEnd(t, a) == p
  {
    var r := LocalRunEnd(t, a);
    assert r >= p by {
      assert forall i :: a <= i < p ==> IsLocal(t[i]);
    }
  }

  /** What `MatchFrom` finds is a match. */
  lemma MatchFromSound(t: string, a: nat)
    requires a <= |t| && MatchFrom(t, a).Some?
    ensures exists p, j :: Shape(t, a, p, j, MatchFrom(t, a).value)
  {
    var p := LocalRunEnd(t, a);
    var e := DomainRunEnd(t, p + 1);
    var j := LastTopLevel(t, p + 2, e - 1).value;
    var q := LetterRunEnd(t, j + 1);
    assert AllDomain(t, p + 1, j);
    assert IsLetter(t[j + 1]) && IsLetter(t[j + 2]);
    assert q >= j + 3;
    assert Shape(t, a, p, j, q);
  }

  /** Every match that starts at `a` is found by `MatchFrom` and ends no later. */
  lemma MatchFromLongest(t: string, a: nat, p: int, j: int, q: int)
    requires a <= |t| && Shape(t, a, p, j, q)
    ensures MatchFrom(t, a).Some? && q <= MatchFrom(t, a).value
  {
    LocalPartIsRun(t, a, p);
    var e := DomainRunEnd(t, p + 1);
    assert e > j;
    assert TopLevelAt(t, j);
    var j' := LastTopLevel(t, p + 2, e - 1).value;
    assert j <= j';
    var q' := LetterRunEnd(t, j' + 1);
    if j < j' {
      assert q <= j' by {
        assert !IsLetter(t[j']);
      }
    }
  }

  // ---------------------------------------------------------------- the search

  /** `re.search` from position `a` on: the first start that yields a match. */
  function Search(t: string, a: nat): (r: Option<(nat, nat)>)
    requires a <= |t|
    ensures r.Some? ==> a <= r.value.0 <= |t| && MatchFrom(t, r.value.0) == Some(r.value.1)
    ensures r.Some? ==> forall b :: a <= b < r.value.0 ==> MatchFrom(t, b).None?
    ensures r.None? ==> forall b :: a <= b <= |t| ==> MatchFrom(t, b).None?
    decreases |t| - a
  {
    match MatchFrom(t, a)
    case Some(q) => Some((a, q))
    case None => if a == |t| then None else Search(t, a + 1)
  }

  /** `extract_email`: the leftmost match, and at that start the longest one. */
  function ExtractEmail(t: string): (r: Option<string>)
    ensures r.None? <==> forall a, p, j, q :: !Shape(t, a, p, j, q)
    ensures r.Some? ==> exists a, q ::
      && 0 <= a <= q <= |t| && r.value == t[a..q]
      && (exists p, j :: Shape(t, a, p, j, q))
      && (forall a', p', j', q' :: Shape(t, a', p', j', q') ==> a < a' || (a == a' && q' <= q))
  {
    match Search(t, 0)
    case None =>
      assert forall a, p, j, q :: !Shape(t, a, p, j, q) by {
        forall a, p, j, q | Shape(t, a, p, j, q) ensures false {
          MatchFromLongest(t, a, p, j, q);
        }
      }
      None
    case Some((a, q)) =>
      MatchFromSound(t, a);
      assert forall a', p', j', q' :: Shape(t, a', p', j', q') ==> a < a' || (a == a' && q' <= q) by {
        forall a', p', j', q' | Shape(t, a', p', j', q') ensures a < a' || (a == a' && q' <= q) {
          MatchFromLongest(t, a', p', j', q');
        }
      }
      Some(t[a..q])
  }

  // ---------------------------------------------------------------- properties

  /** A match has exactly one `@`; before it only local characters, and it ends in a dot
      followed by two or more letters. */
  lemma ShapeParts(t: string, a: int, p: int, j: int, q: int)
    requires Shape(t, a, p, j, q)
    ensures var v := t[a..q];
      && v[p - a] == '@'
      && (forall i :: 0 <= i < |v| && i != p - a ==> v[i] != '@')
      && (forall i :: 0 <= i < p - a ==> IsLocal(v[i]))
      && v[j - a] == '.' && j - a + 3 <= |v|
      && (forall i :: j - a < i < |v| ==> IsLetter(v[i]))
  {
    var v := t[a..q];
    forall i | 0 <= i < |v| && i != p - a ensures v[i] != '@' {
      assert v[i] == t[a + i];
      if i < p - a {
        assert IsLocal(t[a + i]);
      } else if a + i < j {
        assert IsDomain(t[a + i]);
      } else if a + i > j {
        assert IsLetter(t[a + i]);
      }
    }
  }

  /** The returned address has exactly one `@`, a local part drawn from the local
      characters, and a final dot followed by two or more letters. */
  lemma EmailParts(t: string)
    requires ExtractEmail(t).Some?
    ensures var v := ExtractEmail(t).value;
      exists k, d :: 0 < k < d && d + 3 <= |v|
        && v[k] == '@' && (forall i :: 0 <= i < |v| && i != k ==> v[i] != '@')
        && (forall i :: 0 <= i < k ==> IsLocal(v[i]))
        && v[d] == '.' && (forall i :: d < i < |v| ==> IsLetter(v[i]))
  {
    var v := ExtractEmail(t).value;
    var a, q :| 0 <= a <= q <= |t| && v == t[a..q] && exists p, j :: Shape(t, a, p, j, q);
    var p, j :| Shape(t, a, p, j, q);
    ShapeParts(t, a, p, j, q);
    assert 0 < p - a < j - a;
  }

  /** A text without `@` has no address. */
  lemma NoAtNoEmail(t: string)
    requires forall i :: 0 <= i < |t| ==> t[i] != '@'
    ensures ExtractEmail(t) == None
  {
  }
}
