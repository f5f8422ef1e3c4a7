/** PHP's `str_replace`: literal, left-to-right, non-overlapping replacement,
    and its array form, which applies the (search, replace) pairs one after
    another so that a later pair sees the text an earlier one produced. */
module PhpStrings {
  import opened PhpValues
  import opened PhpArrays

  predicate OccursAt(s: string, pat: string, i: nat) {
    i + |pat| <= |s| && s[i..i + |pat|] == pat
  }

  predicate Contains(s: string, pat: string) {
    exists i: nat | i <= |s| :: OccursAt(s, pat, i)
  }

  /** An occurrence after the first character is an occurrence. */
  lemma ContainsInTail(s: string, pat: string)
    requires |s| > 0
    ensures Contains(s[1..], pat) ==> Contains(s, pat)
  {
    if Contains(s[1..], pat) {
      var i: nat :| i <= |s[1..]| && OccursAt(s[1..], pat, i);
      assert s[1..][i..i + |pat|] == s[i + 1..i + 1 + |pat|];
      assert OccursAt(s, pat, i + 1);
    }
  }

  /** `str_replace($pat, $rep, $s)` for one pair; an empty search string
      leaves the subject as it is, and so does a subject in which the
      search string does not occur. */
  function ReplaceAll(s: string, pat: string, rep: string): (r: string)
    ensures !Contains(s, pat) ==> r == s
    decreases |s|
  {
    if pat == [] || |s| < |pat| then s
    else if s[..|pat|] == pat then
      assert OccursAt(s, pat, 0);
      rep + ReplaceAll(s[|pat|..], pat, rep)
    else
      ContainsInTail(s, pat);
      assert s == [s[0]] + s[1..];
      [s[0]] + ReplaceAll(s[1..], pat, rep)
  }

  /** `explode($pat, $s)`: the pieces between the left-to-right,
      non-overlapping occurrences of `pat`. */
  function Split(s: string, pat: string): (pieces: seq<string>)
    requires pat != []
    ensures |pieces| >= 1
    decreases |s|
  {
    if |s| < |pat| then [s]
    else if s[..|pat|] == pat then [""] + Split(s[|pat|..], pat)
    else var r := Split(s[1..], pat); [[s[0]] + r[0]] + r[1..]
  }

  /** `implode($sep, $pieces)`. */
  function Join(pieces: seq<string>, sep: string): string
    requires |pieces| >= 1
  {
    if |pieces| == 1 then pieces[0] else pieces[0] + sep + Join(pieces[1..], sep)
  }

  lemma JoinCons(c: char, r: seq<string>, sep: string)
    requires |r| >= 1
    ensures Join([[c] + r[0]] + r[1..], sep) == [c] + Join(r, sep)
  {
    var ps := [[c] + r[0]] + r[1..];
    assert ps[1..] == r[1..];
  }

  /** `str_replace($pat, $rep, $s) == implode($rep, explode($pat, $s))`. */
  lemma {:induction false} ReplaceAllIsJoinOfSplit(s: string, pat: string, rep: string)
    requires pat != []
    ensures ReplaceAll(s, pat, rep) == Join(Split(s, pat), rep)
    decreases |s|
  {
    if |s| < |pat| {
    } else if s[..|pat|] == pat {
      ReplaceAllIsJoinOfSplit(s[|pat|..], pat, rep);
      var r := Split(s[|pat|..], pat);
      assert ([""] + r)[1..] == r;
    } else {
      ReplaceAllIsJoinOfSplit(s[1..], pat, rep);
      JoinCons(s[0], Split(s[1..], pat), rep);
    }
  }

  /** Joining the pieces with the pattern itself gives the subject back. */
  lemma {:induction false} JoinOfSplit(s: string, pat: string)
    requires pat != []
    ensures Join(Split(s, pat), pat) == s
    decreases |s|
  {
    if |s| < |pat| {
      assert Split(s, pat) == [s];
    } else if s[..|pat|] == pat {
      JoinOfSplit(s[|pat|..], pat);
      var r := Split(s[|pat|..], pat);
      assert Split(s, pat) == [""] + r;
      assert ([""] + r)[1..] == r;
      assert s == s[..|pat|] + s[|pat|..];
    } else {
      JoinOfSplit(s[1..], pat);
      var r := Split(s[1..], pat);
      assert Split(s, pat) == [[s[0]] + r[0]] + r[1..];
      JoinCons(s[0], r, pat);
      assert s == [s[0]] + s[1..];
    }
  }

  /** The array form `str_replace(array_keys($pairs), array_values($pairs), $s)`:
      a left fold of ReplaceAll over the pairs in insertion order. */
  function StrReplace(pairs: Dict, s: string): (r: string)
    ensures (forall i :: 0 <= i < |pairs| ==> !Contains(s, pairs[i].name)) ==> r == s
    decreases |pairs|
  {
    if pairs == [] then s
    else
      var last := pairs[|pairs| - 1];
      ReplaceAll(StrReplace(pairs[..|pairs| - 1], s), last.name, AsString(last.value))
  }

  /** Splitting the pairs: the later pairs work on the output of the earlier ones. */
  lemma {:induction false} StrReplaceAppend(a: Dict, b: Dict, s: string)
    ensures StrReplace(a + b, s) == StrReplace(b, StrReplace(a, s))
    decreases |b|
  {
    if b != [] {
      var b' := b[..|b| - 1];
      assert (a + b)[..|a + b| - 1] == a + b';
      StrReplaceAppend(a, b', s);
    } else {
      assert a + b == a;
    }
  }
}
