/** What the text element's duration formatter produces for a number of
    seconds: the short form names one unit, the coarsest whose span divides
    the seconds exactly; the long form spells out days, hours, minutes and
    seconds, leaving out the zero ones. Every emitted unit is followed by a
    space, and a unit word is plural only when its count exceeds 1. */
module Duration {
  import opened PhpValues

  const MINSECS: nat := 60
  const HOURSECS: nat := 3600
  const DAYSECS: nat := 86400
  const WEEKSECS: nat := 604800

  datatype TimeUnit = Second | Minute | Hour | Day | Week

  /** Seconds in one unit. */
  function Span(u: TimeUnit): nat {
    match u
    case Second => 1
    case Minute => MINSECS
    case Hour => HOURSECS
    case Day => DAYSECS
    case Week => WEEKSECS
  }

  /** Position of a unit from finest (0) to coarsest (4). */
  function Rank(u: TimeUnit): nat {
    match u
    case Second => 0
    case Minute => 1
    case Hour => 2
    case Day => 3
    case Week => 4
  }

  function Singular(u: TimeUnit): string {
    match u
    case Second => "second"
    case Minute => "minute"
    case Hour => "hour"
    case Day => "day"
    case Week => "week"
  }

  function Plural(u: TimeUnit): string {
    match u
    case Second => "seconds"
    case Minute => "minutes"
    case Hour => "hours"
    case Day => "days"
    case Week => "weeks"
  }

  /** A count of one unit, as one emitted piece of a duration. */
  datatype Quantity = Quantity(count: nat, unit: TimeUnit)

  /** The unit word: plural exactly when the count is greater than 1, so a
      count of 0 is singular. */
  function Word(q: Quantity): (r: string)
    ensures r == Plural(q.unit) <==> q.count > 1
    ensures r == Singular(q.unit) <==> q.count <= 1
  {
    assert |Plural(q.unit)| == |Singular(q.unit)| + 1;
    if q.count > 1 then Plural(q.unit) else Singular(q.unit)
  }

  /** One emitted piece: the count, a space, the unit word, a space. */
  function Phrase(q: Quantity): (r: string)
    ensures |r| > 0 && r[|r| - 1] == ' '
  {
    NatToString(q.count) + " " + Word(q) + " "
  }

  function Render(qs: seq<Quantity>): string {
    if qs == [] then "" else Phrase(qs[0]) + Render(qs[1..])
  }

  /** The number of seconds a list of quantities stands for. */
  function Seconds(qs: seq<Quantity>): nat {
    if qs == [] then 0 else qs[0].count * Span(qs[0].unit) + Seconds(qs[1..])
  }

  // ---- short form

  /** The coarsest unit whose span divides `s`; 0 is divided by every span. */
  function CoarsestDividing(s: nat): TimeUnit {
    if s % WEEKSECS == 0 then Week
    else if s % DAYSECS == 0 then Day
    else if s % HOURSECS == 0 then Hour
    else if s % MINSECS == 0 then Minute
    else Second
  }

  function ShortForm(s: nat): Quantity {
    var u := CoarsestDividing(s);
    Quantity(s / Span(u), u)
  }

  function ShortText(s: nat): string {
    Render([ShortForm(s)])
  }

  // ---- long form

  /** The quantities with a positive count, in their order. */
  function Positive(qs: seq<Quantity>): seq<Quantity> {
    if qs == [] then []
    else (if qs[0].count > 0 then [qs[0]] else []) + Positive(qs[1..])
  }

  /** Days (a day spanning HOURSECS * 24 seconds), hours of the day, minutes
      of the hour and seconds of the minute, keeping the positive ones. */
  function LongForm(s: nat): seq<Quantity> {
    Positive([Quantity(s / (HOURSECS * 24), Day), Quantity((s / HOURSECS) % 24, Hour),
              Quantity((s / MINSECS) % 60, Minute), Quantity(s % MINSECS, Second)])
  }

  function LongText(s: nat): string {
    Render(LongForm(s))
  }

  /** Units strictly from coarse to fine. */
  predicate Descending(qs: seq<Quantity>) {
    forall i, j :: 0 <= i < j < |qs| ==> Rank(qs[i].unit) > Rank(qs[j].unit)
  }

  /** No weeks, any number of days, hours of the day, minutes of the hour
      and seconds of the minute. */
  predicate InRange(q: Quantity) {
    match q.unit
    case Week => false
    case Day => true
    case Hour => q.count < 24
    case Minute => q.count < 60
    case Second => q.count < 60
  }

  /** A long-form breakdown: descending units, positive counts in range. */
  predicate Canonical(qs: seq<Quantity>) {
    Descending(qs) && forall q :: q in qs ==> q.count > 0 && InRange(q)
  }

  // ---- reading a duration back

  /** Index of the first space of `s`, or |s|. */
  function SpaceIndex(s: string): (i: nat)
    ensures i <= |s| && (i < |s| ==> s[i] == ' ')
    ensures forall j :: 0 <= j < i ==> s[j] != ' '
  {
    if s == [] || s[0] == ' ' then 0 else 1 + SpaceIndex(s[1..])
  }

  function UnitNamed(w: string): Option<TimeUnit> {
    if w == "second" || w == "seconds" then Some(Second)
    else if w == "minute" || w == "minutes" then Some(Minute)
    else if w == "hour" || w == "hours" then Some(Hour)
    else if w == "day" || w == "days" then Some(Day)
    else if w == "week" || w == "weeks" then Some(Week)
    else None
  }

  /** Reads text made of pieces "<digits> <unit word> " and adds up the
      seconds they stand for; None when the text is not of that shape. */
  function ParseDuration(t: string): Option<nat>
    decreases |t|
  {
    if t == [] then Some(0)
    else
      var i := SpaceIndex(t);
      var rest := if i < |t| then t[i + 1..] else [];
      var j := SpaceIndex(rest);
      var tail := if j < |rest| then rest[j + 1..] else [];
      if i == 0 || i == |t| || j == |rest| || !AllDigits(t[..i]) then None
      else AddPiece(DigitsValue(t[..i]), UnitNamed(rest[..j]), ParseDuration(tail))
  }

  function AddPiece(count: nat, unit: Option<TimeUnit>, more: Option<nat>): Option<nat> {
    if unit.Some? && more.Some? then Some(count * Span(unit.value) + more.value) else None
  }

  // ---- properties

  lemma {:induction false} RenderAppend(a: seq<Quantity>, b: seq<Quantity>)
    ensures Render(a + b) == Render(a) + Render(b)
  {
    if a != [] {
      assert (a + b)[1..] == a[1..] + b;
      RenderAppend(a[1..], b);
    } else {
      assert a + b == b;
    }
  }

  /** Each span of the short form divides the next coarser one. */
  lemma DivisibilityChain(s: nat)
    ensures s % WEEKSECS == 0 ==> s % DAYSECS == 0
    ensures s % DAYSECS == 0 ==> s % HOURSECS == 0
    ensures s % HOURSECS == 0 ==> s % MINSECS == 0
  {
    var w, d, h := s / WEEKSECS, s / DAYSECS, s / HOURSECS;
    assert s % WEEKSECS == 0 ==> s == DAYSECS * (7 * w);
    assert s % DAYSECS == 0 ==> s == HOURSECS * (24 * d);
    assert s % HOURSECS == 0 ==> s == MINSECS * (60 * h);
  }

  /** Testing divisibility from the finest unit up, and stopping at the
      first span that does not divide, reaches the coarsest dividing unit. */
  lemma ShortFormFinestFirst(s: nat)
    ensures s % MINSECS != 0 ==> ShortForm(s) == Quantity(s, Second)
    ensures s % MINSECS == 0 && s % HOURSECS != 0 ==> ShortForm(s) == Quantity(s / MINSECS, Minute)
    ensures s % HOURSECS == 0 && s % DAYSECS != 0 ==> ShortForm(s) == Quantity(s / HOURSECS, Hour)
    ensures s % DAYSECS == 0 && s % WEEKSECS != 0 ==> ShortForm(s) == Quantity(s / DAYSECS, Day)
    ensures s % WEEKSECS == 0 ==> ShortForm(s) == Quantity(s / WEEKSECS, Week)
  {
    DivisibilityChain(s);
  }

  /** The text one long-form component contributes: nothing when it is 0. */
  function Piece(q: Quantity): string {
    if q.count > 0 then Phrase(q) else ""
  }

  lemma RenderOne(q: Quantity)
    ensures Render([q]) == Phrase(q)
  {
    assert [q][1..] == [];
  }

  /** The long form is the four components' pieces, days first. */
  lemma LongTextByPieces(s: nat)
    ensures LongText(s) ==
      Piece(Quantity(s / (HOURSECS * 24), Day)) + Piece(Quantity((s / HOURSECS) % 24, Hour)) +
      Piece(Quantity((s / MINSECS) % 60, Minute)) + Piece(Quantity(s % MINSECS, Second))
  {
    var a, b, c, d := Quantity(s / (HOURSECS * 24), Day), Quantity((s / HOURSECS) % 24, Hour),
                      Quantity((s / MINSECS) % 60, Minute), Quantity(s % MINSECS, Second);
    var ka, kb, kc, kd := (if a.count > 0 then [a] else []), (if b.count > 0 then [b] else []),
                          (if c.count > 0 then [c] else []), (if d.count > 0 then [d] else []);
    PositiveOfFour(a, b, c, d);
    RenderOne(a);
    RenderOne(b);
    RenderOne(c);
    RenderOne(d);
    RenderAppend(ka + kb + kc, kd);
    RenderAppend(ka + kb, kc);
    RenderAppend(ka, kb);
  }

  /** The short form names the coarsest unit whose span divides `s`, with
      the count that multiplies back to `s`. */
  lemma ShortFormIsCoarsest(s: nat)
    ensures s % Span(ShortForm(s).unit) == 0
    ensures ShortForm(s).count * Span(ShortForm(s).unit) == s
    ensures forall u :: Rank(u) > Rank(ShortForm(s).unit) ==> s % Span(u) != 0
  {
  }

  /** The short form of 0 is "0 week ": 0 divides every span and 0 is singular. */
  lemma ShortTextOfZero()
    ensures ShortText(0) == "0 week "
  {
    assert NatToString(0) == "0";
  }

  lemma {:induction false} SecondsOfPositive(qs: seq<Quantity>)
    ensures Seconds(Positive(qs)) == Seconds(qs)
  {
    if qs != [] {
      SecondsOfPositive(qs[1..]);
      var p := Positive(qs[1..]);
      if qs[0].count > 0 {
        assert ([qs[0]] + p)[1..] == p;
      } else {
        assert [] + p == p;
      }
    }
  }

  lemma PositiveCons(q: Quantity, rest: seq<Quantity>)
    ensures Positive([q] + rest) == (if q.count > 0 then [q] else []) + Positive(rest)
  {
    assert ([q] + rest)[1..] == rest;
  }

  lemma {:induction false} PositiveOfFour(a: Quantity, b: Quantity, c: Quantity, d: Quantity)
    ensures Positive([a, b, c, d]) ==
      (if a.count > 0 then [a] else []) + (if b.count > 0 then [b] else []) +
      (if c.count > 0 then [c] else []) + (if d.count > 0 then [d] else [])
  {
    var ka, kb, kc, kd := (if a.count > 0 then [a] else []), (if b.count > 0 then [b] else []),
                          (if c.count > 0 then [c] else []), (if d.count > 0 then [d] else []);
    assert [a, b, c, d] == [a] + ([b] + ([c] + ([d] + [])));
    PositiveCons(d, []);
    PositiveCons(c, [d]);
    PositiveCons(b, [c, d]);
    PositiveCons(a, [b, c, d]);
    assert [d] + [] == [d];
    assert [c] + [d] == [c, d];
    assert [b] + [c, d] == [b, c, d];
    assert Positive([d] + []) == kd;
    Regroup(ka, kb, kc, kd);
  }

  lemma Regroup(a: seq<Quantity>, b: seq<Quantity>, c: seq<Quantity>, d: seq<Quantity>)
    ensures a + (b + (c + d)) == a + b + c + d
  {
  }

  /** The long-form components add back up to `s`, each within its range. */
  lemma LongComponents(s: nat)
    ensures var days, hours, minutes, secs := s / (HOURSECS * 24), (s / HOURSECS) % 24, (s / MINSECS) % 60, s % MINSECS;
      days * DAYSECS + hours * HOURSECS + minutes * MINSECS + secs == s &&
      hours < 24 && minutes < 60 && secs < 60
  {
    var m, sec := s / MINSECS, s % MINSECS;
    var h, min := m / 60, m % 60;
    var d, hr := h / 24, h % 24;
    assert s == HOURSECS * h + (MINSECS * min + sec);
    assert s / HOURSECS == h;
    assert s == DAYSECS * d + (HOURSECS * hr + MINSECS * min + sec);
    assert s / (HOURSECS * 24) == d;
  }

  /** Dropping the zero counts keeps the order and leaves positive counts. */
  lemma {:induction false} PositiveCanonical(qs: seq<Quantity>)
    requires Descending(qs) && forall q :: q in qs ==> InRange(q)
    ensures Canonical(Positive(qs))
    ensures forall q :: q in Positive(qs) ==> q in qs
  {
    if qs != [] {
      var tail := qs[1..];
      assert Descending(tail);
      PositiveCanonical(tail);
      var p := Positive(tail);
      if qs[0].count > 0 {
        var r := [qs[0]] + p;
        forall i, j | 0 <= i < j < |r|
          ensures Rank(r[i].unit) > Rank(r[j].unit)
        {
          if i == 0 {
            assert r[j] in tail;
          } else {
            assert r[i] == p[i - 1] && r[j] == p[j - 1];
          }
        }
      } else {
        assert [] + p == p;
      }
    }
  }

  /** Any days, hours of the day, minutes of the hour and seconds of the
      minute, with the zero ones dropped, form a canonical breakdown. */
  lemma BreakdownCanonical(days: nat, hours: nat, minutes: nat, secs: nat)
    requires hours < 24 && minutes < 60 && secs < 60
    ensures var qs := Positive([Quantity(days, Day), Quantity(hours, Hour), Quantity(minutes, Minute), Quantity(secs, Second)]);
      Canonical(qs) && Seconds(qs) == days * DAYSECS + hours * HOURSECS + minutes * MINSECS + secs
  {
    var a, b, c, d := Quantity(days, Day), Quantity(hours, Hour), Quantity(minutes, Minute), Quantity(secs, Second);
    PositiveCanonical([a, b, c, d]);
    SecondsOfPositive([a, b, c, d]);
    assert Seconds([d]) == secs by {
      assert [d][1..] == [];
    }
    assert Seconds([c, d]) == minutes * MINSECS + secs by {
      assert [c, d][1..] == [d];
    }
    assert Seconds([b, c, d]) == hours * HOURSECS + minutes * MINSECS + secs by {
      assert [b, c, d][1..] == [c, d];
    }
    assert [a, b, c, d][1..] == [b, c, d];
  }

  /** The long form is a canonical breakdown of `s`. */
  lemma LongFormCanonical(s: nat)
    ensures Canonical(LongForm(s))
    ensures Seconds(LongForm(s)) == s
  {
    LongComponents(s);
    BreakdownCanonical(s / (HOURSECS * 24), (s / HOURSECS) % 24, (s / MINSECS) % 60, s % MINSECS);
  }

  lemma SpaceIndexAfter(a: string, b: string)
    requires forall k :: 0 <= k < |a| ==> a[k] != ' '
    ensures SpaceIndex(a + " " + b) == |a|
  {
    var t := a + " " + b;
    assert forall k :: 0 <= k < |a| ==> t[k] == a[k];
    assert t[|a|] == ' ';
  }

  lemma WordReadsBack(q: Quantity)
    ensures forall k :: 0 <= k < |Word(q)| ==> Word(q)[k] != ' '
    ensures UnitNamed(Word(q)) == Some(q.unit)
  {
    match q.unit
    case Second =>
    case Minute =>
    case Hour =>
    case Day =>
    case Week =>
  }

  /** Reading one piece "<digits> <word> " in front of the rest. */
  lemma ParsePiece(digits: string, word: string, tail: string)
    requires |digits| > 0 && AllDigits(digits)
    requires forall k :: 0 <= k < |word| ==> word[k] != ' '
    ensures ParseDuration(digits + " " + word + " " + tail) ==
      AddPiece(DigitsValue(digits), UnitNamed(word), ParseDuration(tail))
  {
    var rest := word + " " + tail;
    var t := digits + " " + rest;
    assert t == digits + " " + word + " " + tail;
    SpaceIndexAfter(digits, rest);
    assert t[..|digits|] == digits;
    assert t[|digits| + 1..] == rest;
    SpaceIndexAfter(word, tail);
    assert rest[..|word|] == word;
    assert rest[|word| + 1..] == tail;
  }

  /** Reading back any rendered list of quantities gives the seconds it
      stands for. */
  lemma {:induction false} ParseRender(qs: seq<Quantity>)
    ensures ParseDuration(Render(qs)) == Some(Seconds(qs))
  {
    if qs != [] {
      var q, tail := qs[0], qs[1..];
      var digits, word := NatToString(q.count), Word(q);
      WordReadsBack(q);
      DigitsValueOfNatToString(q.count);
      calc {
        ParseDuration(Render(qs));
        ParseDuration(digits + " " + word + " " + Render(tail));
        { ParsePiece(digits, word, Render(tail)); }
        AddPiece(q.count, Some(q.unit), ParseDuration(Render(tail)));
        { ParseRender(tail); }
        AddPiece(q.count, Some(q.unit), Some(Seconds(tail)));
        Some(Seconds(qs));
      }
    }
  }

  /** Both forms read back as the seconds they were made from. */
  lemma DurationRoundTrip(s: nat)
    ensures ParseDuration(ShortText(s)) == Some(s)
    ensures ParseDuration(LongText(s)) == Some(s)
  {
    var q := ShortForm(s);
    calc {
      ParseDuration(ShortText(s));
      { ParseRender([q]); }
      Some(Seconds([q]));
      { assert [q][1..] == []; }
      Some((q.count * Span(q.unit)) as nat);
      { ShortFormIsCoarsest(s); }
      Some(s);
    }
    calc {
      ParseDuration(LongText(s));
      { ParseRender(LongForm(s)); }
      Some(Seconds(LongForm(s)));
      { LongFormCanonical(s); }
      Some(s);
    }
  }

  /** Only the empty list of pieces renders as the empty text. */
  lemma RenderEmpty(qs: seq<Quantity>)
    ensures Render(qs) == "" <==> qs == []
  {
    if qs != [] {
      assert |Render(qs)| >= |Phrase(qs[0])| > 0;
    }
  }

  /** A canonical breakdown stands for no time only when it is empty. */
  lemma SecondsOfCanonical(qs: seq<Quantity>)
    requires Canonical(qs)
    ensures Seconds(qs) == 0 <==> qs == []
  {
    if qs != [] {
      var q := qs[0];
      assert q in qs;
      assert Span(q.unit) >= 1;
      assert q.count * Span(q.unit) >= q.count;
    }
  }

  /** The long form is empty exactly for zero seconds. */
  lemma LongTextEmpty(s: nat)
    ensures LongText(s) == "" <==> s == 0
  {
    LongFormCanonical(s);
    SecondsOfCanonical(LongForm(s));
    RenderEmpty(LongForm(s));
  }
}
