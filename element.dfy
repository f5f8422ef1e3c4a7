/** The text element of the certificate module: it substitutes `@{key}`
    placeholders in its stored text with course and user fields. The
    database lookups are inputs here: the course record (with its custom
    fields already loaded), the short names of the course custom fields of
    type duration, and the user record (with its profile fields loaded). */
module TextElement {
  import opened PhpValues
  import opened PhpArrays
  import opened PhpStrings
  import opened Duration

  // ---- translate_duration

  /** Formats a number of seconds: with `short`, as the coarsest single unit
      that divides it; otherwise as days, hours, minutes and seconds. */
  method TranslateDuration(seconds: nat, short: bool) returns (out: string)
    ensures out == if short then ShortText(seconds) else LongText(seconds)
  {
    out := "";
    if short {
      out := Phrase(Quantity(seconds, Second));
      if seconds % MINSECS == 0 {
        var minutes := seconds / MINSECS;
        out := Phrase(Quantity(minutes, Minute));
        if seconds % HOURSECS == 0 {
          var hours := seconds / HOURSECS;
          out := Phrase(Quantity(hours, Hour));
          if seconds % DAYSECS == 0 {
            var days := seconds / DAYSECS;
            out := Phrase(Quantity(days, Day));
            if seconds % WEEKSECS == 0 {
              var weeks := seconds / WEEKSECS;
              out := Phrase(Quantity(weeks, Week));
            }
          }
        }
      }
      ShortFormFinestFirst(seconds);
      RenderOne(ShortForm(seconds));
      return;
    }
    var days := seconds / (HOURSECS * 24);
    if days > 0 {
      out := out + Phrase(Quantity(days, Day));
    }
    assert out == Piece(Quantity(days, Day));
    ghost var upToDays := out;
    var hours := (seconds / HOURSECS) % 24;
    if hours > 0 {
      out := out + Phrase(Quantity(hours, Hour));
    }
    assert out == upToDays + Piece(Quantity(hours, Hour));
    ghost var upToHours := out;
    var minutes := (seconds / MINSECS) % 60;
    if minutes > 0 {
      out := out + Phrase(Quantity(minutes, Minute));
    }
    assert out == upToHours + Piece(Quantity(minutes, Minute));
    ghost var upToMinutes := out;
    var sec := seconds % MINSECS;
    if sec > 0 {
      out := out + Phrase(Quantity(sec, Second));
    }
    assert out == upToMinutes + Piece(Quantity(sec, Second));
    LongTextByPieces(seconds);
  }

  // ---- the placeholder pattern @{([^}]+)}

  /** The first index at or after `from` holding '}', or |s|. */
  function CloseIndex(s: string, from: nat): (j: nat)
    requires from <= |s|
    ensures from <= j <= |s|
    ensures j < |s| ==> s[j] == '}'
    ensures forall k :: from <= k < j ==> s[k] != '}'
    decreases |s| - from
  {
    if from == |s| || s[from] == '}' then from else CloseIndex(s, from + 1)
  }

  /** The pattern matches at `i`: "@{", one or more characters other than
      '}', and the '}' at `j`. */
  predicate TokenAt(s: string, i: nat, j: nat) {
    && i + 2 < j < |s|
    && s[i] == '@' && s[i + 1] == '{' && s[j] == '}'
    && forall k :: i + 2 <= k < j ==> s[k] != '}'
  }

  /** The keys `preg_match_all` captures: matches are taken left to right
      without overlapping, and a failed attempt moves on by one character. */
  function Tokens(s: string): (keys: seq<string>)
    ensures forall key :: key in keys ==> |key| > 0 && '}' !in key
    decreases |s|
  {
    if |s| < 2 then []
    else if s[0] == '@' && s[1] == '{' && 2 < CloseIndex(s, 2) < |s| then
      var j := CloseIndex(s, 2);
      [s[2..j]] + Tokens(s[j + 1..])
    else Tokens(s[1..])
  }

  /** The placeholder written for a key. */
  function Wrap(key: string): string {
    "@{" + key + "}"
  }

  lemma WrapInjective(a: string, b: string)
    requires Wrap(a) == Wrap(b)
    ensures a == b
  {
    assert a == Wrap(a)[2..|Wrap(a)| - 1];
    assert b == Wrap(b)[2..|Wrap(b)| - 1];
  }

  /** The text has no match at all exactly when nothing is captured; in
      particular "@{}" is not a placeholder. */
  lemma {:induction false} TokensEmptyIff(s: string)
    ensures Tokens(s) == [] <==> forall i: nat, j: nat :: !TokenAt(s, i, j)
    decreases |s|
  {
    if |s| < 2 {
    } else if s[0] == '@' && s[1] == '{' && 2 < CloseIndex(s, 2) < |s| {
      assert TokenAt(s, 0, CloseIndex(s, 2));
    } else {
      TokensEmptyIff(s[1..]);
      forall i: nat, j: nat | TokenAt(s[1..], i, j)
        ensures TokenAt(s, i + 1, j + 1)
      {
      }
      forall i: nat, j: nat | TokenAt(s, i, j)
        ensures i > 0 && TokenAt(s[1..], i - 1, j - 1)
      {
        var c := CloseIndex(s, 2);
        assert i == 0 ==> c == j;
      }
    }
  }

  /** A match of the pattern shifted right by `d` characters. */
  lemma TokenAtShift(s: string, d: nat, i: nat, j: nat)
    requires d <= |s| && TokenAt(s[d..], i, j)
    ensures TokenAt(s, i + d, j + d)
  {
    forall k | i + d + 2 <= k < j + d
      ensures s[k] != '}'
    {
      assert s[k] == s[d..][k - d];
    }
  }

  /** A match at the start closes at the first '}'. */
  lemma MatchAtStart(s: string, i: nat, j: nat)
    requires TokenAt(s, i, j)
    ensures i == 0 ==> 2 < CloseIndex(s, 2) == j
  {
  }

  /** Two matches that start at different places and close at different
      places do not overlap: the earlier one closes before the later one
      starts. */
  lemma MatchesApart(s: string, p: nat, c: nat, i: nat, j: nat)
    requires TokenAt(s, p, c) && TokenAt(s, i, j)
    requires p < i && c != j
    ensures c < i
  {
  }

  /** Every match that no earlier match overlaps is captured: an earlier
      match that overlaps it would end at the same '}'. */
  lemma {:induction false} TokensComplete(s: string, i: nat, j: nat)
    requires TokenAt(s, i, j)
    requires forall p: nat :: p < i ==> !TokenAt(s, p, j)
    ensures s[i + 2..j] in Tokens(s)
    decreases |s|, 1
  {
    var c := CloseIndex(s, 2);
    MatchAtStart(s, i, j);
    if s[0] == '@' && s[1] == '{' && 2 < c < |s| {
      if i > 0 {
        assert TokenAt(s, 0, c);
        MatchesApart(s, 0, c, i, j);
        TokensCompleteAfter(s, c + 1, i, j);
        assert Tokens(s) == [s[2..c]] + Tokens(s[c + 1..]);
      }
    } else {
      TokensCompleteAfter(s, 1, i, j);
      assert Tokens(s) == Tokens(s[1..]);
    }
  }

  /** The induction step: the match is captured from the text after the
      first `d` characters. */
  lemma {:induction false} TokensCompleteAfter(s: string, d: nat, i: nat, j: nat)
    requires 0 < d <= i
    requires TokenAt(s, i, j)
    requires forall p: nat :: p < i ==> !TokenAt(s, p, j)
    ensures s[i + 2..j] in Tokens(s[d..])
    decreases |s|, 0
  {
    var rest, i', j' := s[d..], i - d, j - d;
    assert TokenAt(rest, i', j') by {
      forall k | i' <= k <= j'
        ensures rest[k] == s[k + d]
      {
      }
    }
    forall p: nat | p < i'
      ensures !TokenAt(rest, p, j')
    {
      if TokenAt(rest, p, j') {
        TokenAtShift(s, d, p, j');
      }
    }
    TokensComplete(rest, i', j');
    assert rest[i' + 2..j'] == s[i + 2..j];
  }

  lemma OccursShift(s: string, d: nat, pat: string, i: nat)
    requires d <= |s| && OccursAt(s[d..], pat, i)
    ensures OccursAt(s, pat, i + d)
  {
    assert s[d..][i..i + |pat|] == s[i + d..i + d + |pat|];
  }

  /** Every captured key stands in the text as its placeholder. */
  lemma {:induction false} TokensOccur(s: string)
    ensures forall key :: key in Tokens(s) ==> Contains(s, Wrap(key))
    decreases |s|
  {
    if |s| < 2 {
    } else if s[0] == '@' && s[1] == '{' && 2 < CloseIndex(s, 2) < |s| {
      var j := CloseIndex(s, 2);
      var rest := s[j + 1..];
      TokensOccur(rest);
      assert s[0..j + 1] == Wrap(s[2..j]);
      assert OccursAt(s, Wrap(s[2..j]), 0);
      forall key | key in Tokens(rest)
        ensures Contains(s, Wrap(key))
      {
        var i: nat :| i <= |rest| && OccursAt(rest, Wrap(key), i);
        OccursShift(s, j + 1, Wrap(key), i);
      }
    } else {
      var rest := s[1..];
      TokensOccur(rest);
      forall key | key in Tokens(rest)
        ensures Contains(s, Wrap(key))
      {
        var i: nat :| i <= |rest| && OccursAt(rest, Wrap(key), i);
        OccursShift(s, 1, Wrap(key), i);
      }
    }
  }

  // ---- merge_with_prefix

  function PrefixedName(prefix: string, name: string): string {
    prefix + "_" + name
  }

  lemma PrefixedNameInjective(prefix: string, a: string, b: string)
    requires PrefixedName(prefix, a) == PrefixedName(prefix, b)
    ensures a == b
  {
    var n := |prefix| + 1;
    assert a == PrefixedName(prefix, a)[n..];
    assert b == PrefixedName(prefix, b)[n..];
  }

  /** A course key is never a user key. */
  lemma CourseAndUserNamesDiffer(a: string, b: string)
    ensures PrefixedName("course", a) != PrefixedName("user", b)
  {
    assert PrefixedName("course", a)[0] == 'c';
    assert PrefixedName("user", b)[0] == 'u';
  }

  /** The target after `$target->{$prefix_$f} = $v` for each entry of `obj`
      in order. */
  function MergedWithPrefix(target: Dict, obj: Dict, prefix: string): Dict
    decreases |obj|
  {
    if obj == [] then target
    else
      var last := obj[|obj| - 1];
      Put(MergedWithPrefix(target, obj[..|obj| - 1], prefix), PrefixedName(prefix, last.name), last.value)
  }

  /** Copies every property `f => v` of `obj` into `source` as
      `prefix_f => v`. */
  method MergeWithPrefix(source: PhpObject, obj: Dict, prefix: string)
    requires source.Valid()
    modifies source
    ensures source.Valid()
    ensures source.props == MergedWithPrefix(old(source.props), obj, prefix)
  {
    for i := 0 to |obj|
      invariant source.Valid()
      invariant source.props == MergedWithPrefix(old(source.props), obj[..i], prefix)
    {
      assert obj[..i + 1][..i] == obj[..i];
      source.Set(PrefixedName(prefix, obj[i].name), obj[i].value);
    }
    assert obj[..|obj|] == obj;
  }

  lemma {:induction false} MergedUnique(target: Dict, obj: Dict, prefix: string)
    requires UniqueKeys(target)
    ensures UniqueKeys(MergedWithPrefix(target, obj, prefix))
    decreases |obj|
  {
    if obj != [] {
      var last := obj[|obj| - 1];
      MergedUnique(target, obj[..|obj| - 1], prefix);
      PutUnique(MergedWithPrefix(target, obj[..|obj| - 1], prefix), PrefixedName(prefix, last.name), last.value);
    }
  }

  /** Every property `f => v` of the object is readable as `prefix_f`,
      whatever the target held under that name before. */
  lemma {:induction false} MergeSets(target: Dict, obj: Dict, prefix: string, i: nat)
    requires UniqueKeys(obj) && i < |obj|
    ensures Lookup(MergedWithPrefix(target, obj, prefix), PrefixedName(prefix, obj[i].name)) == Some(obj[i].value)
    decreases |obj|
  {
    var n := |obj| - 1;
    var init := obj[..n];
    PutLookup(MergedWithPrefix(target, init, prefix), PrefixedName(prefix, obj[n].name), obj[n].value, PrefixedName(prefix, obj[i].name));
    if i < n {
      if PrefixedName(prefix, obj[i].name) == PrefixedName(prefix, obj[n].name) {
        PrefixedNameInjective(prefix, obj[i].name, obj[n].name);
      }
      MergeSets(target, init, prefix, i);
    }
  }

  /** Names that are not `prefix_f` for a property `f` of the object keep
      what the target held. */
  lemma {:induction false} MergeKeeps(target: Dict, obj: Dict, prefix: string, k: string)
    requires forall i :: 0 <= i < |obj| ==> k != PrefixedName(prefix, obj[i].name)
    ensures Lookup(MergedWithPrefix(target, obj, prefix), k) == Lookup(target, k)
    decreases |obj|
  {
    if obj != [] {
      var n := |obj| - 1;
      PutLookup(MergedWithPrefix(target, obj[..n], prefix), PrefixedName(prefix, obj[n].name), obj[n].value, k);
      MergeKeeps(target, obj[..n], prefix, k);
    }
  }

  /** Merged into a target that has none of the new names, the prefixed
      entries are appended in the object's order. */
  lemma {:induction false} MergedAppends(target: Dict, obj: Dict, prefix: string)
    requires UniqueKeys(obj)
    requires forall i :: 0 <= i < |obj| ==> !HasKey(target, PrefixedName(prefix, obj[i].name))
    ensures MergedWithPrefix(target, obj, prefix) == target + MapKeys(obj, name => PrefixedName(prefix, name))
    decreases |obj|
  {
    if obj != [] {
      var n := |obj| - 1;
      var rename := name => PrefixedName(prefix, name);
      var before := target + MapKeys(obj[..n], rename);
      MergedAppends(target, obj[..n], prefix);
      MapKeysShape(obj[..n], rename);
      forall i | 0 <= i < |before|
        ensures before[i].name != PrefixedName(prefix, obj[n].name)
      {
        if i >= |target| {
          var m := i - |target|;
          if before[i].name == PrefixedName(prefix, obj[n].name) {
            PrefixedNameInjective(prefix, obj[m].name, obj[n].name);
          }
        }
      }
      PutAppends(before, PrefixedName(prefix, obj[n].name), obj[n].value);
    }
  }

  // ---- get_all_fields

  function DurationKey(shortname: string): string {
    "customfield_" + shortname
  }

  /** What a duration custom field's value becomes: the long form of the
      seconds `intval` reads from it. */
  function DurationText(v: Value): Value {
    Str(LongText(IntVal(v)))
  }

  /** The record after `$record->{customfield_$name} = rewrite($record->{customfield_$name})`
      for each listed short name in order. */
  function Rewritten(record: Dict, shortnames: seq<string>, rewrite: Value -> Value): Dict
    decreases |shortnames|
  {
    if shortnames == [] then record
    else
      var before := Rewritten(record, shortnames[..|shortnames| - 1], rewrite);
      var key := DurationKey(shortnames[|shortnames| - 1]);
      Put(before, key, rewrite(Get(before, key)))
  }

  /** The course record after each listed duration custom field has been
      rewritten, in list order, as the long form of its value's seconds. */
  function TranslatedCourse(course: Dict, durationFields: seq<string>): Dict {
    Rewritten(course, durationFields, DurationText)
  }

  /** The merged field table: course fields as `course_*`, then user fields
      as `user_*`. */
  function AllFields(course: Dict, durationFields: seq<string>, user: Dict): Dict {
    MergedWithPrefix(MergedWithPrefix([], TranslatedCourse(course, durationFields), "course"), user, "user")
  }

  method GetAllFields(course: Dict, durationFields: seq<string>, user: Dict) returns (fields: Dict)
    requires UniqueKeys(course) && UniqueKeys(user)
    ensures fields == AllFields(course, durationFields, user)
  {
    var merged := new PhpObject([]);
    var c := new PhpObject(course);
    for i := 0 to |durationFields|
      invariant merged.Valid() && merged.props == []
      invariant c.Valid()
      invariant c.props == TranslatedCourse(course, durationFields[..i])
    {
      assert durationFields[..i + 1][..i] == durationFields[..i];
      var key := DurationKey(durationFields[i]);
      var text := TranslateDuration(IntVal(Get(c.props, key)), false);
      c.Set(key, Str(text));
    }
    assert durationFields[..|durationFields|] == durationFields;
    MergeWithPrefix(merged, c.props, "course");
    MergeWithPrefix(merged, user, "user");
    fields := merged.props;
  }

  lemma {:induction false} RewrittenUnique(record: Dict, shortnames: seq<string>, rewrite: Value -> Value)
    requires UniqueKeys(record)
    ensures UniqueKeys(Rewritten(record, shortnames, rewrite))
    decreases |shortnames|
  {
    if shortnames != [] {
      var init := shortnames[..|shortnames| - 1];
      var before := Rewritten(record, init, rewrite);
      var key := DurationKey(shortnames[|shortnames| - 1]);
      RewrittenUnique(record, init, rewrite);
      PutUnique(before, key, rewrite(Get(before, key)));
    }
  }

  lemma DurationKeyInjective(a: string, b: string)
    requires DurationKey(a) == DurationKey(b)
    ensures a == b
  {
    assert a == DurationKey(a)[12..];
    assert b == DurationKey(b)[12..];
  }

  /** With distinct short names, each listed field reads as the rewrite of
      the value the record held for it (a missing field reads as null). */
  lemma {:induction false} RewrittenListed(record: Dict, shortnames: seq<string>, rewrite: Value -> Value, i: nat)
    requires forall a, b :: 0 <= a < b < |shortnames| ==> shortnames[a] != shortnames[b]
    requires i < |shortnames|
    ensures Lookup(Rewritten(record, shortnames, rewrite), DurationKey(shortnames[i]))
         == Some(rewrite(Get(record, DurationKey(shortnames[i]))))
    decreases |shortnames|
  {
    var n := |shortnames| - 1;
    var init := shortnames[..n];
    var before := Rewritten(record, init, rewrite);
    var key := DurationKey(shortnames[n]);
    PutLookup(before, key, rewrite(Get(before, key)), DurationKey(shortnames[i]));
    if i < n {
      if DurationKey(shortnames[i]) == key {
        DurationKeyInjective(shortnames[i], shortnames[n]);
      }
      assert init[i] == shortnames[i];
      RewrittenListed(record, init, rewrite, i);
    } else {
      forall a | 0 <= a < |init|
        ensures key != DurationKey(init[a])
      {
        if key == DurationKey(init[a]) {
          DurationKeyInjective(shortnames[n], init[a]);
        }
      }
      RewrittenOthers(record, init, rewrite, key);
      assert Get(before, key) == Get(record, key);
    }
  }

  /** Names that are not listed fields keep the record's value. */
  lemma {:induction false} RewrittenOthers(record: Dict, shortnames: seq<string>, rewrite: Value -> Value, k: string)
    requires forall i :: 0 <= i < |shortnames| ==> k != DurationKey(shortnames[i])
    ensures Lookup(Rewritten(record, shortnames, rewrite), k) == Lookup(record, k)
    decreases |shortnames|
  {
    if shortnames != [] {
      var n := |shortnames| - 1;
      var before := Rewritten(record, shortnames[..n], rewrite);
      var key := DurationKey(shortnames[n]);
      PutLookup(before, key, rewrite(Get(before, key)), k);
      RewrittenOthers(record, shortnames[..n], rewrite, k);
    }
  }

  /** With distinct short names, each listed duration field of the course
      reads as the long form of the seconds the record held for it (a
      missing field reads as null, that is 0 seconds, that is ""), and every
      other course field keeps its value. */
  lemma TranslatedCourseLookup(course: Dict, durationFields: seq<string>, i: nat, k: string)
    requires forall a, b :: 0 <= a < b < |durationFields| ==> durationFields[a] != durationFields[b]
    requires i < |durationFields|
    ensures Lookup(TranslatedCourse(course, durationFields), DurationKey(durationFields[i]))
         == Some(Str(LongText(IntVal(Get(course, DurationKey(durationFields[i]))))))
    ensures (forall j :: 0 <= j < |durationFields| ==> k != DurationKey(durationFields[j])) ==>
      Lookup(TranslatedCourse(course, durationFields), k) == Lookup(course, k)
  {
    RewrittenListed(course, durationFields, DurationText, i);
    if forall j :: 0 <= j < |durationFields| ==> k != DurationKey(durationFields[j]) {
      RewrittenOthers(course, durationFields, DurationText, k);
    }
  }

  /** `course_f` reads the (translated) course field `f` and `user_g` reads
      the user field `g`; a missing field stays missing. */
  lemma AllFieldsLookup(course: Dict, durationFields: seq<string>, user: Dict, f: string, g: string)
    requires UniqueKeys(course) && UniqueKeys(user)
    ensures Lookup(AllFields(course, durationFields, user), PrefixedName("course", f))
         == Lookup(TranslatedCourse(course, durationFields), f)
    ensures Lookup(AllFields(course, durationFields, user), PrefixedName("user", g)) == Lookup(user, g)
  {
    var t := TranslatedCourse(course, durationFields);
    var courseFields := MergedWithPrefix([], t, "course");
    RewrittenUnique(course, durationFields, DurationText);
    forall i | 0 <= i < |user|
      ensures PrefixedName("course", f) != PrefixedName("user", user[i].name)
    {
      CourseAndUserNamesDiffer(f, user[i].name);
    }
    MergeKeeps(courseFields, user, "user", PrefixedName("course", f));
    if i :| 0 <= i < |t| && t[i].name == f {
      MergeSets([], t, "course", i);
      LookupAt(t, i);
    } else {
      forall i | 0 <= i < |t|
        ensures PrefixedName("course", f) != PrefixedName("course", t[i].name)
      {
        if PrefixedName("course", f) == PrefixedName("course", t[i].name) {
          PrefixedNameInjective("course", f, t[i].name);
        }
      }
      MergeKeeps([], t, "course", PrefixedName("course", f));
    }
    if i :| 0 <= i < |user| && user[i].name == g {
      MergeSets(courseFields, user, "user", i);
      LookupAt(user, i);
    } else {
      forall i | 0 <= i < |user|
        ensures PrefixedName("user", g) != PrefixedName("user", user[i].name)
      {
        if PrefixedName("user", g) == PrefixedName("user", user[i].name) {
          PrefixedNameInjective("user", g, user[i].name);
        }
      }
      MergeKeeps(courseFields, user, "user", PrefixedName("user", g));
      forall i | 0 <= i < |t|
        ensures PrefixedName("user", g) != PrefixedName("course", t[i].name)
      {
        CourseAndUserNamesDiffer(t[i].name, g);
      }
      MergeKeeps([], t, "course", PrefixedName("user", g));
    }
  }

  /** The merged table has distinct names. */
  lemma AllFieldsUnique(course: Dict, durationFields: seq<string>, user: Dict)
    requires UniqueKeys(course) && UniqueKeys(user)
    ensures UniqueKeys(AllFields(course, durationFields, user))
  {
    RewrittenUnique(course, durationFields, DurationText);
    MergedUnique([], TranslatedCourse(course, durationFields), "course");
    MergedUnique(MergedWithPrefix([], TranslatedCourse(course, durationFields), "course"), user, "user");
  }

  /** The merged table lists every course field, then every user field, in
      their records' order, under distinct names. */
  lemma AllFieldsLayout(course: Dict, durationFields: seq<string>, user: Dict)
    requires UniqueKeys(course) && UniqueKeys(user)
    ensures AllFields(course, durationFields, user)
         == MapKeys(TranslatedCourse(course, durationFields), name => PrefixedName("course", name))
          + MapKeys(user, name => PrefixedName("user", name))
    ensures UniqueKeys(AllFields(course, durationFields, user))
  {
    var t := TranslatedCourse(course, durationFields);
    var toCourse := name => PrefixedName("course", name);
    var toUser := name => PrefixedName("user", name);
    RewrittenUnique(course, durationFields, DurationText);
    MergedAppends([], t, "course");
    var courseFields := MapKeys(t, toCourse);
    assert [] + courseFields == courseFields;
    MapKeysShape(t, toCourse);
    forall i | 0 <= i < |user|
      ensures !HasKey(courseFields, PrefixedName("user", user[i].name))
    {
      forall j | 0 <= j < |courseFields|
        ensures courseFields[j].name != PrefixedName("user", user[i].name)
      {
        CourseAndUserNamesDiffer(t[j].name, user[i].name);
      }
    }
    MergedAppends(courseFields, user, "user");
    AllFieldsUnique(course, durationFields, user);
  }

  // ---- encapsulate_placeholder

  /** The replacement table: each field name `k` written as `@{k}`. */
  function Encapsulated(fields: Dict): Dict {
    MapKeys(fields, Wrap)
  }

  /** Same size and order, names wrapped, values unchanged, names still
      distinct. */
  lemma EncapsulatedShape(fields: Dict)
    requires UniqueKeys(fields)
    ensures |Encapsulated(fields)| == |fields|
    ensures forall i :: 0 <= i < |fields| ==>
      Encapsulated(fields)[i] == Prop(Wrap(fields[i].name), fields[i].value)
    ensures UniqueKeys(Encapsulated(fields))
  {
    MapKeysShape(fields, Wrap);
    forall a, b | Wrap(a) == Wrap(b)
      ensures a == b
    {
      WrapInjective(a, b);
    }
    MapKeysUnique(fields, Wrap);
  }

  /** `@{k}` reads in the replacement table what `k` reads in the fields. */
  lemma EncapsulatedLookup(fields: Dict, k: string)
    requires UniqueKeys(fields)
    ensures Lookup(Encapsulated(fields), Wrap(k)) == Lookup(fields, k)
  {
    var e := Encapsulated(fields);
    EncapsulatedShape(fields);
    var i := IndexOf(fields, k);
    if i < |fields| {
      LookupAt(fields, i);
      LookupAt(e, i);
    } else {
      forall j | 0 <= j < |e|
        ensures e[j].name != Wrap(k)
      {
        if e[j].name == Wrap(k) {
          WrapInjective(fields[j].name, k);
        }
      }
    }
  }

  method EncapsulatePlaceholder(replaced: Dict) returns (replacevalues: Dict)
    requires UniqueKeys(replaced)
    ensures replacevalues == Encapsulated(replaced)
  {
    replacevalues := [];
    for i := 0 to |replaced|
      invariant replacevalues == Encapsulated(replaced[..i])
    {
      var field, value := replaced[i].name, replaced[i].value;
      assert replaced[..i + 1][..i] == replaced[..i];
      EncapsulatedShape(replaced[..i]);
      forall j | 0 <= j < |replacevalues|
        ensures replacevalues[j].name != Wrap(field)
      {
        if replacevalues[j].name == Wrap(field) {
          WrapInjective(replaced[j].name, field);
        }
      }
      PutAppends(replacevalues, Wrap(field), value);
      replacevalues := Put(replacevalues, Wrap(field), value);
    }
    assert replaced[..|replaced|] == replaced;
  }

  // ---- replace_placeholder

  /** The field of a captured key is present and not PHP-empty. */
  predicate Resolves(fields: Dict, key: string) {
    !IsEmptyEntry(Lookup(fields, key))
  }

  /** The element's text for a field table: unchanged without placeholders,
      "" as soon as one captured key does not resolve, and otherwise the
      sequential replacement of every `@{k}` of the table in its order. */
  function Substituted(text: string, fields: Dict): string {
    var keys := Tokens(text);
    if keys == [] then text
    else if !AllResolve(keys, fields) then ""
    else StrReplace(Encapsulated(fields), text)
  }

  predicate AllResolve(keys: seq<string>, fields: Dict) {
    forall i :: 0 <= i < |keys| ==> Resolves(fields, keys[i])
  }

  /** The `foreach` over the captured keys: true when none of them reads
      as PHP-empty in the field table, false at the first one that does. */
  method AllMatchesFilled(matches: seq<string>, replaced: Dict) returns (filled: bool)
    ensures filled <==> AllResolve(matches, replaced)
  {
    for i := 0 to |matches|
      invariant forall j :: 0 <= j < i ==> Resolves(replaced, matches[j])
    {
      if IsEmptyEntry(Lookup(replaced, matches[i])) {
        return false;
      }
    }
    return true;
  }

  method ReplacePlaceholder(text: string, course: Dict, durationFields: seq<string>, user: Dict)
    returns (r: string)
    requires UniqueKeys(course) && UniqueKeys(user)
    ensures r == Substituted(text, AllFields(course, durationFields, user))
  {
    var matches := Tokens(text);
    if matches == [] {
      return text;
    }
    var replaced := GetAllFields(course, durationFields, user);
    var filled := AllMatchesFilled(matches, replaced);
    if !filled {
      return "";
    }
    AllFieldsUnique(course, durationFields, user);
    var replacevalues := EncapsulatePlaceholder(replaced);
    r := StrReplace(replacevalues, text);
    assert r == Substituted(text, replaced);
  }

  // ---- properties of the substitution

  /** Text without a match of the placeholder pattern is returned as it is,
      whatever the fields; so substituting twice changes nothing more once
      no placeholder is left. */
  lemma NoPlaceholderUnchanged(text: string, fields: Dict)
    requires forall i: nat, j: nat :: !TokenAt(text, i, j)
    ensures Substituted(text, fields) == text
  {
    TokensEmptyIff(text);
  }

  /** One captured key that is missing or empty suppresses the whole text. */
  lemma UnresolvedSuppresses(text: string, fields: Dict, key: string)
    requires key in Tokens(text) && !Resolves(fields, key)
    ensures Substituted(text, fields) == ""
  {
  }

  /** Each captured key that resolves stands in the text as a search string
      of the replacement table, which maps it to the field's value. */
  lemma ResolvedPlaceholdersAreSearched(text: string, fields: Dict, key: string)
    requires UniqueKeys(fields)
    requires key in Tokens(text) && Resolves(fields, key)
    ensures Contains(text, Wrap(key))
    ensures Lookup(Encapsulated(fields), Wrap(key)) == Lookup(fields, key)
  {
    TokensOccur(text);
    EncapsulatedLookup(fields, key);
  }
}
