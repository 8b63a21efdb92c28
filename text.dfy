/** The ASCII string operations the source relies on: `str.lower`, `str.strip`,
    `str.split()`, `str.split(sep)`, `" ".join`, `str.splitlines`, the `in`
    substring test, string ordering and `sorted` over a set of strings. */
module Text {
  import opened Seqs

  // ---------------------------------------------------------------- characters

  /** The ASCII characters for which Python's `str.isspace()` holds. */
  predicate IsSpace(c: char) {
    c == ' ' || 9 <= c as int <= 13 || 28 <= c as int <= 31
  }

  predicate IsUpper(c: char) {
    'A' <= c <= 'Z'
  }

  function LowerChar(c: char): (d: char)
    ensures !IsUpper(d)
    ensures IsSpace(d) == IsSpace(c)
    ensures !IsUpper(c) ==> d == c
  {
    if IsUpper(c) then (c as int + 32) as char else c
  }

  predicate NoUpper(s: string) {
    forall i :: 0 <= i < |s| ==> !IsUpper(s[i])
  }

  predicate NoSpace(s: string) {
    forall i :: 0 <= i < |s| ==> !IsSpace(s[i])
  }

  /** `s.lower()` on ASCII: every upper-case letter is mapped to its lower-case form. */
  function Lower(s: string): (r: string)
    ensures |r| == |s| && NoUpper(r)
    ensures forall i :: 0 <= i < |s| ==> r[i] == LowerChar(s[i])
  {
    if s == [] then [] else [LowerChar(s[0])] + Lower(s[1..])
  }

  /** Lower-casing a string without capitals changes nothing. */
  lemma LowerNoUpper(s: string)
    requires NoUpper(s)
    ensures Lower(s) == s
  {
    assert forall i :: 0 <= i < |s| ==> Lower(s)[i] == s[i];
  }

  lemma LowerIdempotent(s: string)
    ensures Lower(Lower(s)) == Lower(s)
  {
    assert forall i :: 0 <= i < |s| ==> Lower(Lower(s))[i] == Lower(s)[i];
  }

  // ---------------------------------------------------------------- strip

  predicate IsStripped(s: string) {
    s == [] || (!IsSpace(s[0]) && !IsSpace(s[|s| - 1]))
  }

  function TrimStart(s: string): (r: string)
    ensures |r| <= |s| && r == s[|s| - |r|..]
    ensures forall i :: 0 <= i < |s| - |r| ==> IsSpace(s[i])
    ensures r != [] ==> !IsSpace(r[0])
  {
    if s != [] && IsSpace(s[0]) then TrimStart(s[1..]) else s
  }

  function TrimEnd(s: string): (r: string)
    ensures |r| <= |s| && r == s[..|r|]
    ensures forall i :: |r| <= i < |s| ==> IsSpace(s[i])
    ensures r != [] ==> !IsSpace(r[|r| - 1])
  {
    if s != [] && IsSpace(s[|s| - 1]) then TrimEnd(s[..|s| - 1]) else s
  }

  /** `s.strip()`: `s` without its leading and trailing whitespace. */
  function Strip(s: string): (r: string)
    ensures IsStripped(r)
    ensures |r| <= |s|
    ensures exists i, j ::
      && 0 <= i <= j <= |s| && r == s[i..j]
      && (forall k :: 0 <= k < i ==> IsSpace(s[k]))
      && (forall k :: j <= k < |s| ==> IsSpace(s[k]))
  {
    TrimBoth(s);
    TrimEnd(TrimStart(s))
  }

  /** Trimming the front, then the back, leaves a middle slice with only whitespace cut. */
  lemma {:induction false} TrimBoth(s: string)
    ensures var r := TrimEnd(TrimStart(s));
      var i := |s| - |TrimStart(s)|;
      && 0 <= i <= i + |r| <= |s| && r == s[i..i + |r|]
      && (forall k :: 0 <= k < i ==> IsSpace(s[k]))
      && (forall k :: i + |r| <= k < |s| ==> IsSpace(s[k]))
  {
    var t := TrimStart(s);
    InnerSlice(s, |s| - |t|, t, TrimEnd(t));
  }

  /** A front part `r` of a suffix `t` of `s`, followed only by whitespace in `t`, is a
      slice of `s` followed only by whitespace in `s`. */
  lemma InnerSlice(s: string, i: nat, t: string, r: string)
    requires i <= |s| && t == s[i..] && |r| <= |t| && r == t[..|r|]
    requires forall k :: |r| <= k < |t| ==> IsSpace(t[k])
    ensures i + |r| <= |s| && r == s[i..i + |r|]
    ensures forall k :: i + |r| <= k < |s| ==> IsSpace(s[k])
  {
    forall k | i + |r| <= k < |s| ensures IsSpace(s[k]) {
      assert s[k] == t[k - i];
    }
  }

  lemma StripStripped(s: string)
    requires IsStripped(s)
    ensures Strip(s) == s
  {
  }

  lemma LowerKeepsStripped(s: string)
    requires IsStripped(s)
    ensures IsStripped(Lower(s))
  {
  }

  /** `p.strip()` is not empty. */
  predicate StripsNonEmpty(p: string) {
    Strip(p) != []
  }

  /** `[p.strip() for p in parts if p.strip()]`. */
  function StripNonEmpty(parts: seq<string>): (r: seq<string>)
    ensures forall x :: x in r ==> x != [] && IsStripped(x)
    ensures |r| <= |parts|
  {
    FilterMapIndices(StripsNonEmpty, Strip, parts);
    FilterMap(StripsNonEmpty, Strip, parts)
  }

  /** The kept pieces are the stripped non-blank pieces, in their order and with their
      repetitions: the `k`-th kept piece is the piece at the `k`-th non-blank position. */
  lemma StripNonEmptyOrder(parts: seq<string>)
    ensures var r, idx := StripNonEmpty(parts), PassingIndices(StripsNonEmpty, parts);
      && |r| == |idx|
      && (forall k, l :: 0 <= k < l < |idx| ==> idx[k] < idx[l])
      && (forall i :: 0 <= i < |parts| ==> (i in idx <==> Strip(parts[i]) != []))
      && (forall k :: 0 <= k < |r| ==> idx[k] < |parts| && r[k] == Strip(parts[idx[k]]))
  {
    FilterMapIndices(StripsNonEmpty, Strip, parts);
  }

  /** Every piece that is non-empty once stripped is kept. */
  lemma StripNonEmptyKeeps(parts: seq<string>, i: nat)
    requires i < |parts| && Strip(parts[i]) != []
    ensures Strip(parts[i]) in StripNonEmpty(parts)
  {
    FilterMapMembers(StripsNonEmpty, Strip, parts, Strip(parts[i]));
  }

  /** Every kept piece is some piece, stripped. */
  lemma StripNonEmptySource(parts: seq<string>, x: string)
    requires x in StripNonEmpty(parts)
    ensures exists i :: 0 <= i < |parts| && x == Strip(parts[i])
  {
    FilterMapMembers(StripsNonEmpty, Strip, parts, x);
  }

  /** The kept pieces are exactly the non-empty stripped forms of the pieces. */
  lemma {:induction false} StripNonEmptyMembers(parts: seq<string>)
    ensures forall x :: x in StripNonEmpty(parts) <==> x != [] && exists p :: p in parts && x == Strip(p)
  {
    forall x ensures x in StripNonEmpty(parts) <==> x != [] && exists p :: p in parts && x == Strip(p) {
      if x in StripNonEmpty(parts) {
        StripNonEmptySource(parts, x);
      }
      if x != [] && exists p :: p in parts && x == Strip(p) {
        var p :| p in parts && x == Strip(p);
        var i :| 0 <= i < |parts| && parts[i] == p;
        StripNonEmptyKeeps(parts, i);
      }
    }
  }

  // ---------------------------------------------------------------- split, join

  /** Length of the leading run of non-whitespace characters. */
  function WordLen(s: string): (n: nat)
    ensures n <= |s|
    ensures forall i :: 0 <= i < n ==> !IsSpace(s[i])
    ensures n < |s| ==> IsSpace(s[n])
  {
    if s == [] || IsSpace(s[0]) then 0 else 1 + WordLen(s[1..])
  }

  /** `s.split()`: the maximal runs of non-whitespace characters. */
  function Words(s: string): (ws: seq<string>)
    ensures forall i :: 0 <= i < |ws| ==> ws[i] != [] && NoSpace(ws[i])
    decreases |s|
  {
    var t := TrimStart(s);
    if t == [] then []
    else
      var n := WordLen(t);
      var w, rest := t[..n], Words(t[n..]);
      ConsWord(w, rest);
      [w] + rest
  }

  lemma ConsWord(w: string, rest: seq<string>)
    requires w != [] && NoSpace(w)
    requires forall i :: 0 <= i < |rest| ==> rest[i] != [] && NoSpace(rest[i])
    ensures forall i :: 0 <= i < |[w] + rest| ==> ([w] + rest)[i] != [] && NoSpace(([w] + rest)[i])
  {
    var ws := [w] + rest;
    forall i | 0 <= i < |ws| ensures ws[i] != [] && NoSpace(ws[i]) {
      if i > 0 {
        assert ws[i] == rest[i - 1];
      }
    }
  }

  /** The characters of `s` that are not whitespace, in order. */
  function NonSpaceChars(s: string): string {
    if s == [] then [] else (if IsSpace(s[0]) then [] else [s[0]]) + NonSpaceChars(s[1..])
  }

  /** `"".join(ws)`. */
  function Concat(ws: seq<string>): string {
    if ws == [] then [] else ws[0] + Concat(ws[1..])
  }

  lemma {:induction false} NonSpaceCharsAppend(a: string, b: string)
    ensures NonSpaceChars(a + b) == NonSpaceChars(a) + NonSpaceChars(b)
  {
    if a == [] {
      assert a + b == b;
    } else {
      assert (a + b)[1..] == a[1..] + b;
      NonSpaceCharsAppend(a[1..], b);
    }
  }

  lemma {:induction false} NonSpaceCharsOfWord(s: string)
    requires NoSpace(s)
    ensures NonSpaceChars(s) == s
  {
    if s != [] {
      NonSpaceCharsOfWord(s[1..]);
    }
  }

  lemma {:induction false} NonSpaceCharsOfBlank(s: string)
    requires forall k :: 0 <= k < |s| ==> IsSpace(s[k])
    ensures NonSpaceChars(s) == []
  {
    if s != [] {
      NonSpaceCharsOfBlank(s[1..]);
    }
  }

  /** Leading whitespace holds no visible characters. */
  lemma TrimStartNonSpace(s: string)
    ensures NonSpaceChars(TrimStart(s)) == NonSpaceChars(s)
  {
    var t := TrimStart(s);
    var blank := s[..|s| - |t|];
    assert s == blank + t;
    NonSpaceCharsOfBlank(blank);
    NonSpaceCharsAppend(blank, t);
  }

  /** The words, put back together, are the string without its whitespace: `split()`
      loses nothing but whitespace and keeps the order. */
  lemma {:induction false} WordsConcat(s: string)
    ensures Concat(Words(s)) == NonSpaceChars(s)
    decreases |s|
  {
    var t := TrimStart(s);
    TrimStartNonSpace(s);
    if t != [] {
      var n := WordLen(t);
      var w, rest := t[..n], t[n..];
      assert t == w + rest by {
        assert t == t[..n] + t[n..];
      }
      WordsConcat(rest);
      assert Words(s) == [w] + Words(rest);
      assert Concat([w] + Words(rest)) == w + Concat(Words(rest));
      NonSpaceCharsAppend(w, rest);
      NonSpaceCharsOfWord(w);
    }
  }

  /** `" ".join(ws)`. */
  function JoinSpace(ws: seq<string>): string {
    if ws == [] then ""
    else if |ws| == 1 then ws[0]
    else ws[0] + " " + JoinSpace(ws[1..])
  }

  /** A string whose only whitespace is single spaces between non-blank characters. */
  predicate IsCollapsed(s: string) {
    forall i :: 0 <= i < |s| && IsSpace(s[i]) ==>
      s[i] == ' ' && 0 < i < |s| - 1 && !IsSpace(s[i + 1])
  }

  /** `" ".join(ws)` of words keeps exactly their characters. */
  lemma {:induction false} JoinSpaceNonSpace(ws: seq<string>)
    requires forall i :: 0 <= i < |ws| ==> NoSpace(ws[i])
    ensures NonSpaceChars(JoinSpace(ws)) == Concat(ws)
  {
    if |ws| == 1 {
      NonSpaceCharsOfWord(ws[0]);
      assert Concat(ws) == ws[0] + Concat([]);
    } else if |ws| > 1 {
      JoinSpaceNonSpace(ws[1..]);
      NonSpaceCharsOfWord(ws[0]);
      NonSpaceCharsAppend(ws[0] + " ", JoinSpace(ws[1..]));
      NonSpaceCharsAppend(ws[0], " ");
      assert NonSpaceChars(" ") == [];
    }
  }

  lemma {:induction false} JoinSpaceCollapsed(ws: seq<string>)
    requires forall i :: 0 <= i < |ws| ==> ws[i] != [] && NoSpace(ws[i])
    ensures IsCollapsed(JoinSpace(ws))
    ensures ws != [] ==> JoinSpace(ws) != [] && JoinSpace(ws)[0] == ws[0][0]
  {
    if |ws| > 1 {
      var rest := JoinSpace(ws[1..]);
      JoinSpaceCollapsed(ws[1..]);
      var s := ws[0] + " " + rest;
      assert JoinSpace(ws) == s;
      forall i | 0 <= i < |s| && IsSpace(s[i])
        ensures s[i] == ' ' && 0 < i < |s| - 1 && !IsSpace(s[i + 1])
      {
        if i > |ws[0]| {
          assert s[i] == rest[i - |ws[0]| - 1];
        }
      }
    }
  }

  /** Trailing whitespace holds no visible characters. */
  lemma TrimEndNonSpace(s: string)
    ensures NonSpaceChars(TrimEnd(s)) == NonSpaceChars(s)
  {
    var t := TrimEnd(s);
    var blank := s[|t|..];
    assert s == t + blank;
    NonSpaceCharsOfBlank(blank);
    NonSpaceCharsAppend(t, blank);
  }

  /** Stripping removes only whitespace. */
  lemma StripNonSpace(s: string)
    ensures NonSpaceChars(Strip(s)) == NonSpaceChars(s)
  {
    TrimStartNonSpace(s);
    TrimEndNonSpace(TrimStart(s));
  }

  /** `" ".join(s.strip().split())`: the non-whitespace characters of `s`, in order, with
      single spaces between the words and none at the ends. */
  function Collapse(s: string): (r: string)
    ensures IsCollapsed(r)
    ensures NonSpaceChars(r) == NonSpaceChars(s)
    ensures r == Squeeze(s)
  {
    var ws := Words(Strip(s));
    JoinSpaceCollapsed(ws);
    JoinSpaceNonSpace(ws);
    WordsConcat(Strip(s));
    StripNonSpace(s);
    CollapseSqueeze(s);
    JoinSpace(ws)
  }

  /** A reference for whitespace collapsing, in one pass over `s`: a run of whitespace
      becomes a pending gap (only once something has been written), and a pending gap
      is written as one `' '` just before the next visible character. */
  function SqueezeFrom(s: string, started: bool, gap: bool): string
    decreases |s|
  {
    if s == [] then ""
    else if IsSpace(s[0]) then SqueezeFrom(s[1..], started, started)
    else (if gap then " " else "") + [s[0]] + SqueezeFrom(s[1..], true, false)
  }

  function Squeeze(s: string): string {
    SqueezeFrom(s, false, false)
  }

  /** A word is copied as it is, after the pending gap if there is one. */
  lemma {:induction false} SqueezeWord(w: string, rest: string, started: bool, gap: bool)
    requires w != [] && NoSpace(w)
    ensures SqueezeFrom(w + rest, started, gap) == (if gap then " " else "") + w + SqueezeFrom(rest, true, false)
    decreases |w|
  {
    assert (w + rest)[0] == w[0] && (w + rest)[1..] == w[1..] + rest;
    if |w| > 1 {
      SqueezeWord(w[1..], rest, true, false);
      assert w == [w[0]] + w[1..];
    }
  }

  /** A leading run of whitespace is skipped, leaving a gap exactly when something was
      already written. */
  lemma {:induction false} SqueezeSpaces(s: string, started: bool, gap: bool)
    requires s != [] && IsSpace(s[0])
    ensures SqueezeFrom(s, started, gap) == SqueezeFrom(TrimStart(s), started, started)
    decreases |s|
  {
    if s[1..] != [] && IsSpace(s[1..][0]) {
      SqueezeSpaces(s[1..], started, started);
    }
  }

  /** Whitespace alone writes nothing. */
  lemma {:induction false} SqueezeBlank(blank: string, started: bool, gap: bool)
    requires forall k :: 0 <= k < |blank| ==> IsSpace(blank[k])
    ensures SqueezeFrom(blank, started, gap) == ""
    decreases |blank|
  {
    if blank != [] {
      SqueezeBlank(blank[1..], started, started);
    }
  }

  /** Trailing whitespace writes nothing. */
  lemma {:induction false} SqueezeTrailing(a: string, blank: string, started: bool, gap: bool)
    requires forall k :: 0 <= k < |blank| ==> IsSpace(blank[k])
    ensures SqueezeFrom(a + blank, started, gap) == SqueezeFrom(a, started, gap)
    decreases |a|
  {
    if a == [] {
      assert a + blank == blank;
      SqueezeBlank(blank, started, gap);
    } else {
      assert (a + blank)[0] == a[0] && (a + blank)[1..] == a[1..] + blank;
      if IsSpace(a[0]) {
        SqueezeTrailing(a[1..], blank, started, started);
      } else {
        SqueezeTrailing(a[1..], blank, true, false);
      }
    }
  }

  /** `" ".join(s.split())` is the one-pass collapse of `s`. */
  lemma {:induction false} WordsSqueeze(s: string)
    ensures JoinSpace(Words(s)) == Squeeze(s)
  {
    SqueezeTrim(s);
    if TrimStart(s) != [] {
      var w, rest := WordsFirst(s);
      SqueezeAfterStart(rest);
      SqueezeStep(w, rest, Words(rest));
    }
  }

  /** Once something has been written, the one-pass collapse puts one space before the
      words of `s`, joined by single spaces. */
  lemma {:induction false} SqueezeAfterStart(s: string)
    ensures SqueezeFrom(s, true, true) == if Words(s) == [] then "" else " " + JoinSpace(Words(s))
    decreases |s|
  {
    SqueezeTrim(s);
    if TrimStart(s) != [] {
      var w, rest := WordsFirst(s);
      SqueezeAfterStart(rest);
      SqueezeStep(w, rest, Words(rest));
    }
  }

  /** The first word of `s` and the text after it; without one, there are no words. */
  lemma {:induction false} WordsFirst(s: string) returns (w: string, rest: string)
    ensures TrimStart(s) == [] ==> Words(s) == []
    ensures TrimStart(s) != [] ==>
      && TrimStart(s) == w + rest && w != [] && NoSpace(w)
      && (rest != [] ==> IsSpace(rest[0])) && |rest| < |s|
      && Words(s) == [w] + Words(rest)
  {
    var t := TrimStart(s);
    if t != [] {
      var n := WordLen(t);
      w, rest := t[..n], t[n..];
      assert t == w + rest;
    } else {
      w, rest := "", "";
    }
  }

  /** Skipping leading whitespace first changes nothing when the gap equals `started`. */
  lemma {:induction false} SqueezeTrim(s: string)
    ensures SqueezeFrom(s, false, false) == SqueezeFrom(TrimStart(s), false, false)
    ensures SqueezeFrom(s, true, true) == SqueezeFrom(TrimStart(s), true, true)
  {
    if s != [] && IsSpace(s[0]) {
      SqueezeSpaces(s, false, false);
      SqueezeSpaces(s, true, true);
    }
  }

  /** One step of `WordsSqueeze`: a first word `w`, then the rest of the text, whose
      words are `ws`. */
  lemma {:induction false} SqueezeStep(w: string, rest: string, ws: seq<string>)
    requires w != [] && NoSpace(w) && (rest != [] ==> IsSpace(rest[0]))
    requires SqueezeFrom(rest, true, true) == if ws == [] then "" else " " + JoinSpace(ws)
    ensures JoinSpace([w] + ws) == SqueezeFrom(w + rest, false, false)
    ensures SqueezeFrom(w + rest, true, true) == " " + JoinSpace([w] + ws)
  {
    var tail := SqueezeFrom(rest, true, true);
    SqueezeWord(w, rest, false, false);
    SqueezeWord(w, rest, true, true);
    SqueezeGapAhead(rest);
    JoinSpaceCons(w, ws);
    AppendAssociative(" ", w, tail);
  }

  /** Before whitespace, or at the end, a pending gap changes nothing. */
  lemma {:induction false} SqueezeGapAhead(rest: string)
    requires rest != [] ==> IsSpace(rest[0])
    ensures SqueezeFrom(rest, true, false) == SqueezeFrom(rest, true, true)
  {
  }

  lemma {:induction false} JoinSpaceCons(w: string, ws: seq<string>)
    ensures JoinSpace([w] + ws) == w + if ws == [] then "" else " " + JoinSpace(ws)
  {
    assert ([w] + ws)[0] == w && ([w] + ws)[1..] == ws;
    if ws != [] {
      AppendAssociative(w, " ", JoinSpace(ws));
    }
  }

  /** Trailing whitespace writes nothing. */
  lemma {:induction false} SqueezeTrimEnd(u: string)
    ensures SqueezeFrom(TrimEnd(u), false, false) == SqueezeFrom(u, false, false)
  {
    var v := TrimEnd(u);
    assert u == v + u[|v|..];
    SqueezeTrailing(v, u[|v|..], false, false);
  }

  /** Trimming both ends first changes nothing for the one-pass collapse. */
  lemma {:induction false} CollapseSqueeze(s: string)
    ensures JoinSpace(Words(TrimEnd(TrimStart(s)))) == Squeeze(s)
  {
    WordsSqueeze(TrimEnd(TrimStart(s)));
    SqueezeTrimEnd(TrimStart(s));
    SqueezeTrim(s);
  }

  /** `s.split(sep)` for a one-character separator: always at least one piece, and an
      empty last piece after a trailing separator. */
  function SplitOn(s: string, sep: char): (parts: seq<string>)
    ensures |parts| >= 1
    ensures forall i :: 0 <= i < |parts| ==> sep !in parts[i]
    ensures s != [] && s[|s| - 1] == sep ==> |parts| >= 2 && parts[|parts| - 1] == []
  {
    if s == [] then [""]
    else
      var rest := SplitOn(s[1..], sep);
      if s[0] == sep then [""] + rest
      else [[s[0]] + rest[0]] + rest[1..]
  }

  /** `sep.join(parts)` for a one-character separator. */
  function JoinOn(parts: seq<string>, sep: char): string
    requires |parts| >= 1
  {
    if |parts| == 1 then parts[0] else parts[0] + [sep] + JoinOn(parts[1..], sep)
  }

  /** Splitting and re-joining on the same separator gives back the string. */
  lemma {:induction false} SplitOnJoin(s: string, sep: char)
    ensures JoinOn(SplitOn(s, sep), sep) == s
  {
    if s != [] {
      var rest := SplitOn(s[1..], sep);
      SplitOnJoin(s[1..], sep);
      if s[0] == sep {
        assert SplitOn(s, sep)[1..] == rest;
      } else {
        var parts := SplitOn(s, sep);
        assert parts[1..] == rest[1..];
        if |rest| > 1 {
          assert JoinOn(rest, sep) == rest[0] + [sep] + JoinOn(rest[1..], sep);
        }
      }
    }
  }

  /** Joining peels off the last piece. */
  lemma {:induction false} JoinOnLast(parts: seq<string>, sep: char)
    requires |parts| >= 2
    ensures JoinOn(parts, sep) == JoinOn(parts[..|parts| - 1], sep) + [sep] + parts[|parts| - 1]
  {
    if |parts| > 2 {
      JoinOnLast(parts[1..], sep);
      assert parts[1..][..|parts| - 2] == parts[..|parts| - 1][1..];
    }
  }

  /** `s.splitlines()` with `'\n'` as the only line break: the lines between the breaks,
      with no empty line after a final break. Joined back with breaks, and with the final
      break restored, they give the text. */
  function SplitLines(s: string): (lines: seq<string>)
    ensures forall i :: 0 <= i < |lines| ==> '\n' !in lines[i]
    ensures s == [] <==> lines == []
    ensures s != [] ==> JoinOn(lines, '\n') + (if s[|s| - 1] == '\n' then "\n" else "") == s
  {
    if s == [] then []
    else
      var parts := SplitOn(s, '\n');
      SplitOnJoin(s, '\n');
      if s[|s| - 1] == '\n' then
        JoinOnLast(parts, '\n');
        parts[..|parts| - 1]
      else parts
  }

  // ---------------------------------------------------------------- substrings

  ghost predicate OccursAt(s: string, sub: string, i: int) {
    0 <= i && i + |sub| <= |s| && s[i..i + |sub|] == sub
  }

  /** Python's `sub in s`. */
  predicate Contains(s: string, sub: string)
    ensures Contains(s, sub) <==> exists i :: OccursAt(s, sub, i)
    decreases |s|
  {
    if sub <= s then (assert OccursAt(s, sub, 0); true)
    else if s == [] then false
    else
      var r := Contains(s[1..], sub);
      assert forall i :: OccursAt(s[1..], sub, i) <==> OccursAt(s, sub, i + 1);
      assert forall i :: OccursAt(s, sub, i) ==> i > 0 && OccursAt(s[1..], sub, i - 1);
      r
  }

  // ---------------------------------------------------------------- ordering

  /** Python's `<` on strings: lexicographic by code point, a proper prefix is smaller. */
  predicate Less(a: string, b: string) {
    if a == [] then b != []
    else if b == [] then false
    else if a[0] != b[0] then a[0] < b[0]
    else Less(a[1..], b[1..])
  }

  lemma {:induction false} LessIrreflexive(a: string)
    ensures !Less(a, a)
  {
    if a != [] { LessIrreflexive(a[1..]); }
  }

  lemma {:induction false} LessTransitive(a: string, b: string, c: string)
    requires Less(a, b) && Less(b, c)
    ensures Less(a, c)
  {
    if a != [] && b != [] && c != [] && a[0] == b[0] == c[0] {
      LessTransitive(a[1..], b[1..], c[1..]);
    }
  }

  lemma {:induction false} LessTotal(a: string, b: string)
    requires a != b
    ensures Less(a, b) || Less(b, a)
  {
    if a != [] && b != [] && a[0] == b[0] {
      assert a == [a[0]] + a[1..] && b == [b[0]] + b[1..];
      LessTotal(a[1..], b[1..]);
    }
  }

  lemma {:induction false} LessAsymmetric(a: string, b: string)
    requires Less(a, b)
    ensures !Less(b, a)
  {
    if a != [] && b != [] && a[0] == b[0] {
      LessAsymmetric(a[1..], b[1..]);
    }
  }

  predicate StrictlySorted(xs: seq<string>) {
    forall i, j :: 0 <= i < j < |xs| ==> Less(xs[i], xs[j])
  }

  predicate IsLeast(m: string, s: set<string>) {
    m in s && forall x :: x in s && x != m ==> Less(m, x)
  }

  /** Every non-empty finite set of strings has exactly one least element. */
  lemma {:induction false} LeastExists(s: set<string>)
    requires s != {}
    ensures exists m :: IsLeast(m, s)
    ensures forall m, m' :: IsLeast(m, s) && IsLeast(m', s) ==> m == m'
    decreases s
  {
    var x :| x in s;
    if s - {x} == {} {
      assert s == {x};
      assert IsLeast(x, s);
    } else {
      LeastExists(s - {x});
      var m :| IsLeast(m, s - {x});
      if Less(x, m) {
        forall y | y in s && y != x ensures Less(x, y) {
          if y != m { LessTransitive(x, m, y); }
        }
        assert IsLeast(x, s);
      } else {
        LessTotal(x, m);
        assert IsLeast(m, s);
      }
    }
    forall m, m' | IsLeast(m, s) && IsLeast(m', s) ensures m == m' {
      if m != m' { LessAsymmetric(m, m'); }
    }
  }

  /** `sorted(s)` for a set of strings. */
  function SortedSet(s: set<string>): (r: seq<string>)
    ensures StrictlySorted(r)
    ensures forall x :: x in r <==> x in s
    ensures |r| == |s|
    decreases s
  {
    if s == {} then []
    else
      LeastExists(s);
      var m :| IsLeast(m, s);
      var rest := SortedSet(s - {m});
      [m] + rest
  }
}
