/** The pure helpers of the application: the reputation badge, the relative timestamp, badge
    counting, job-title cleaning and slug building. */
module Utils {
  import opened Wrappers
  import opened Seqs
  import opened Text

  // ---- getUserBadge ----

  datatype Badge = Gold | Silver | Bronze

  /** The badge's label as the user interface shows it. */
  function BadgeName(b: Badge): string {
    match b
    case Gold => "gold"
    case Silver => "silver"
    case Bronze => "bronze"
  }

  /** The badge for a reputation: gold from 5000, silver from 1000, bronze from 500, none
      below; the thresholds are checked from the highest down. */
  function GetUserBadge(reputation: int): (r: Option<Badge>)
    ensures r == Some(Gold) <==> 5000 <= reputation
    ensures r == Some(Silver) <==> 1000 <= reputation < 5000
    ensures r == Some(Bronze) <==> 500 <= reputation < 1000
    ensures r == None <==> reputation < 500
  {
    if reputation >= 5000 then Some(Gold)
    else if reputation >= 1000 then Some(Silver)
    else if reputation >= 500 then Some(Bronze)
    else None
  }

  /** No badge ranks lowest, gold highest. */
  function BadgeRank(b: Option<Badge>): nat {
    match b
    case None => 0
    case Some(Bronze) => 1
    case Some(Silver) => 2
    case Some(Gold) => 3
  }

  /** More reputation never earns a lower badge. */
  lemma BadgeMonotone(a: int, b: int)
    requires a <= b
    ensures BadgeRank(GetUserBadge(a)) <= BadgeRank(GetUserBadge(b))
  {
  }

  /** The rank is the number of thresholds reached. */
  lemma BadgeRankCountsThresholds(reputation: int)
    ensures BadgeRank(GetUserBadge(reputation))
         == (if reputation >= 500 then 1 else 0) + (if reputation >= 1000 then 1 else 0)
          + (if reputation >= 5000 then 1 else 0)
  {
  }

  // ---- getTimestamp ----

  /** The argument of `getTimestamp`: a falsy value (null, undefined, the empty string), a string
      or `Date` whose time is NaN, or a valid instant in milliseconds since the epoch. */
  datatype CreatedAt = Absent | Unparsable | At(ms: int)

  datatype Unit = Second | Minute | Hour | Day | Week | Month | Year

  const MinuteMs: nat := 60 * 1000
  const HourMs: nat := 60 * MinuteMs
  const DayMs: nat := 24 * HourMs
  const WeekMs: nat := 7 * DayMs
  const MonthMs: nat := 30 * DayMs
  const YearMs: nat := 365 * DayMs

  /** The length of one unit in milliseconds. */
  function UnitMs(u: Unit): (r: nat)
    ensures r >= 1000
  {
    match u
    case Second => 1000
    case Minute => MinuteMs
    case Hour => HourMs
    case Day => DayMs
    case Week => WeekMs
    case Month => MonthMs
    case Year => YearMs
  }

  function UnitRank(u: Unit): nat {
    match u
    case Second => 0
    case Minute => 1
    case Hour => 2
    case Day => 3
    case Week => 4
    case Month => 5
    case Year => 6
  }

  /** The unit chosen for a difference: the first bound (minute, hour, day, week, month,
      year) it is below picks the unit before it; a year or more counts in years. */
  function UnitFor(diff: int): (u: Unit)
    ensures u == Second <==> diff < MinuteMs
    ensures u == Minute <==> MinuteMs <= diff < HourMs
    ensures u == Hour <==> HourMs <= diff < DayMs
    ensures u == Day <==> DayMs <= diff < WeekMs
    ensures u == Week <==> WeekMs <= diff < MonthMs
    ensures u == Month <==> MonthMs <= diff < YearMs
    ensures u == Year <==> YearMs <= diff
  {
    if diff < MinuteMs then Second
    else if diff < HourMs then Minute
    else if diff < DayMs then Hour
    else if diff < WeekMs then Day
    else if diff < MonthMs then Week
    else if diff < YearMs then Month
    else Year
  }

  /** `Math.floor(diff / unit)`: for a positive divisor Dafny's division rounds down, also for
      a negative difference (a creation time in the future). */
  function FloorDiv(diff: int, unit: nat): (r: int)
    requires unit > 0
    ensures r * unit <= diff < (r + 1) * unit
  {
    diff / unit
  }

  datatype Elapsed = Elapsed(count: int, unit: Unit)

  /** The count and unit shown for a difference in milliseconds. */
  function Bucket(diff: int): (r: Elapsed)
    ensures r.unit == UnitFor(diff)
    ensures r.count * UnitMs(r.unit) <= diff < (r.count + 1) * UnitMs(r.unit)
  {
    var u := UnitFor(diff);
    Elapsed(FloorDiv(diff, UnitMs(u)), u)
  }

  /** The counts each unit can show: 0 to 59 seconds for a past instant, 1 to 59 minutes,
      1 to 23 hours, 1 to 6 days, 1 to 4 weeks, 1 to 12 months, and at least one year. */
  lemma BucketRanges(diff: int)
    ensures var e := Bucket(diff);
            && (e.unit == Second ==> e.count <= 59 && (0 <= diff ==> 0 <= e.count))
            && (e.unit == Minute ==> 1 <= e.count <= 59)
            && (e.unit == Hour ==> 1 <= e.count <= 23)
            && (e.unit == Day ==> 1 <= e.count <= 6)
            && (e.unit == Week ==> 1 <= e.count <= 4)
            && (e.unit == Month ==> 1 <= e.count <= 12)
            && (e.unit == Year ==> 1 <= e.count)
  {
  }

  /** A longer time never shows as a smaller elapsed time: a later unit, or the same unit with
      a count at least as large. */
  lemma BucketMonotone(d1: int, d2: int)
    requires d1 <= d2
    ensures var e1, e2 := Bucket(d1), Bucket(d2);
            UnitRank(e1.unit) < UnitRank(e2.unit)
            || (e1.unit == e2.unit && e1.count <= e2.count)
  {
    var e1, e2 := Bucket(d1), Bucket(d2);
    if e1.unit == e2.unit {
      FloorOrdered(e1.count, e2.count, UnitMs(e1.unit), d1, d2);
    }
  }

  /** Two floors of ordered dividends by the same divisor are ordered. */
  lemma FloorOrdered(c1: int, c2: int, m: nat, d1: int, d2: int)
    requires m > 0 && c1 * m <= d1 <= d2 < (c2 + 1) * m
    ensures c1 <= c2
  {
  }

  function UnitName(u: Unit): string {
    match u
    case Second => "second"
    case Minute => "minute"
    case Hour => "hour"
    case Day => "day"
    case Week => "week"
    case Month => "month"
    case Year => "year"
  }

  /** The unit word: singular exactly when the count is 1. */
  function UnitWord(u: Unit, count: int): (r: string)
    ensures r == UnitName(u) <==> count == 1
    ensures r == UnitName(u) || r == UnitName(u) + "s"
  {
    if count == 1 then UnitName(u) else UnitName(u) + "s"
  }

  /** "Unknown time" for a falsy argument, "Invalid date" for an unparsable one, otherwise
      `<count> <unit> ago` for the elapsed time up to `nowMs` (the clock is a parameter). */
  function GetTimestamp(createdAt: CreatedAt, nowMs: int): (r: string)
    ensures createdAt.Absent? ==> r == "Unknown time"
    ensures createdAt.Unparsable? ==> r == "Invalid date"
    ensures createdAt.At? ==>
              var e := Bucket(nowMs - createdAt.ms);
              r == IntToString(e.count) + " " + UnitWord(e.unit, e.count) + " ago"
  {
    match createdAt
    case Absent => "Unknown time"
    case Unparsable => "Invalid date"
    case At(ms) =>
      var e := Bucket(nowMs - ms);
      IntToString(e.count) + " " + UnitWord(e.unit, e.count) + " ago"
  }

  /** The worked example: 90 seconds ago shows as one minute, two hours as "2 hours ago". */
  lemma TimestampExamples(now: int)
    ensures Bucket(90 * 1000) == Elapsed(1, Minute)
    ensures Bucket(2 * HourMs) == Elapsed(2, Hour)
    ensures Bucket(45 * DayMs) == Elapsed(1, Month)
  {
  }

  // ---- assignBadges ----

  /** One entry of a criterion's table (`BADGE_CRITERIA[type]`): a badge level and the count
      it needs. The table itself is a parameter. */
  datatype Level = Level(badge: Badge, threshold: int)

  /** One item of `criteria`: the criterion's type and the user's count for it. */
  datatype Criterion = Criterion(kind: string, count: int)

  /** The `{ GOLD, SILVER, BRONZE }` counters. */
  datatype BadgeCounts = BadgeCounts(gold: nat, silver: nat, bronze: nat)

  function CountOf(c: BadgeCounts, b: Badge): nat {
    match b
    case Gold => c.gold
    case Silver => c.silver
    case Bronze => c.bronze
  }

  /** `badgeCounts[level] += 1`. */
  function Increment(c: BadgeCounts, b: Badge): (r: BadgeCounts)
    ensures CountOf(r, b) == CountOf(c, b) + 1
    ensures forall o :: o != b ==> CountOf(r, o) == CountOf(c, o)
  {
    match b
    case Gold => c.(gold := c.gold + 1)
    case Silver => c.(silver := c.silver + 1)
    case Bronze => c.(bronze := c.bronze + 1)
  }

  /** How many of a criterion's levels for badge `b` the count reaches. */
  function Earned(levels: seq<Level>, count: int, b: Badge): nat {
    if levels == [] then 0
    else
      var last := levels[|levels| - 1];
      Earned(levels[..|levels| - 1], count, b) + (if last.badge == b && count >= last.threshold then 1 else 0)
  }

  /** How many badges `b` all the criteria earn together. */
  function Awarded(criteria: seq<Criterion>, table: map<string, seq<Level>>, b: Badge): nat
    requires forall i :: 0 <= i < |criteria| ==> criteria[i].kind in table
  {
    if criteria == [] then 0
    else
      var last := criteria[|criteria| - 1];
      Awarded(criteria[..|criteria| - 1], table, b) + Earned(table[last.kind], last.count, b)
  }

  /** `assignBadges`: from zero, each criterion adds one to every level of its table whose
      threshold its count reaches. */
  method AssignBadges(criteria: seq<Criterion>, table: map<string, seq<Level>>) returns (counts: BadgeCounts)
    requires forall i :: 0 <= i < |criteria| ==> criteria[i].kind in table
    ensures forall b :: CountOf(counts, b) == Awarded(criteria, table, b)
  {
    counts := BadgeCounts(0, 0, 0);
    var i := 0;
    while i < |criteria|
      invariant 0 <= i <= |criteria|
      invariant forall b :: CountOf(counts, b) == Awarded(criteria[..i], table, b)
    {
      var item := criteria[i];
      var levels := table[item.kind];
      assert criteria[..i + 1][..i] == criteria[..i];
      var j := 0;
      while j < |levels|
        invariant 0 <= j <= |levels|
        invariant forall b :: CountOf(counts, b) == Awarded(criteria[..i], table, b) + Earned(levels[..j], item.count, b)
      {
        if item.count >= levels[j].threshold {
          counts := Increment(counts, levels[j].badge);
        }
        assert levels[..j + 1][..j] == levels[..j];
        j := j + 1;
      }
      assert levels[..j] == levels;
      i := i + 1;
    }
    assert criteria[..i] == criteria;
  }

  /** The keys of a criterion's table are distinct badge levels. */
  ghost predicate DistinctLevels(levels: seq<Level>) {
    forall j, k :: 0 <= j < k < |levels| ==> levels[j].badge != levels[k].badge
  }

  /** With distinct levels a criterion earns a badge at most once, and exactly when its level
      is present and reached. */
  lemma {:induction false} EarnedOnce(levels: seq<Level>, count: int, b: Badge)
    requires DistinctLevels(levels)
    ensures Earned(levels, count, b) <= 1
    ensures Earned(levels, count, b) == 1 <==>
              exists j :: 0 <= j < |levels| && levels[j].badge == b && count >= levels[j].threshold
  {
    if levels != [] {
      var init := levels[..|levels| - 1];
      EarnedOnce(init, count, b);
      if exists j :: 0 <= j < |levels| && levels[j].badge == b && count >= levels[j].threshold {
        var j :| 0 <= j < |levels| && levels[j].badge == b && count >= levels[j].threshold;
        if j < |init| {
          assert init[j] == levels[j];
        }
      }
    }
  }

  /** With distinct levels in every table entry, no badge is counted more often than there
      are criteria. */
  lemma {:induction false} AwardedBound(criteria: seq<Criterion>, table: map<string, seq<Level>>, b: Badge)
    requires forall i :: 0 <= i < |criteria| ==> criteria[i].kind in table
    requires forall kind :: kind in table ==> DistinctLevels(table[kind])
    ensures Awarded(criteria, table, b) <= |criteria|
  {
    if criteria != [] {
      var last := criteria[|criteria| - 1];
      AwardedBound(criteria[..|criteria| - 1], table, b);
      EarnedOnce(table[last.kind], last.count, b);
    }
  }

  /** A larger count never earns fewer badges of any level. */
  lemma {:induction false} EarnedMonotone(levels: seq<Level>, c1: int, c2: int, b: Badge)
    requires c1 <= c2
    ensures Earned(levels, c1, b) <= Earned(levels, c2, b)
  {
    if levels != [] {
      EarnedMonotone(levels[..|levels| - 1], c1, c2, b);
    }
  }

  // ---- processJobTitle ----

  /** `s.split(sep)` for a one-character separator: the pieces between separators, empty
      pieces included (the empty string splits into one empty piece). */
  function Split(s: string, sep: char): (r: seq<string>)
    ensures |r| >= 1
    ensures forall k :: 0 <= k < |r| ==> sep !in r[k]
    decreases |s|
  {
    if s == [] then [[]]
    else
      var rest := Split(s[1..], sep);
      if s[0] == sep then [[]] + rest
      else [[s[0]] + rest[0]] + rest[1..]
  }

  /** `words.join(sep)`. */
  function Join(words: seq<string>, sep: char): string
    decreases |words|
  {
    if words == [] then []
    else if |words| == 1 then words[0]
    else words[0] + [sep] + Join(words[1..], sep)
  }

  /** Joining the pieces gives back the string. */
  lemma {:induction false} SplitJoin(s: string, sep: char)
    ensures Join(Split(s, sep), sep) == s
    decreases |s|
  {
    if s != [] {
      SplitJoin(s[1..], sep);
      var rest := Split(s[1..], sep);
      if s[0] == sep {
        assert ([[]] + rest)[1..] == rest;
      } else {
        var r := [[s[0]] + rest[0]] + rest[1..];
        if |rest| == 1 {
          assert Join(r, sep) == [s[0]] + rest[0];
        } else {
          assert r[1..] == rest[1..];
          assert Join(rest, sep) == rest[0] + [sep] + Join(rest[1..], sep);
        }
        assert s == [s[0]] + s[1..];
      }
    }
  }

  /** A piece without the separator splits into itself. */
  lemma {:induction false} SplitWord(w: string, sep: char)
    requires sep !in w
    ensures Split(w, sep) == [w]
    decreases |w|
  {
    if w != [] {
      SplitWord(w[1..], sep);
      assert [w[0]] + w[1..] == w;
    }
  }

  /** A piece followed by the separator splits off as the first piece. */
  lemma {:induction false} SplitFirstWord(w: string, t: string, sep: char)
    requires sep !in w
    ensures Split(w + [sep] + t, sep) == [w] + Split(t, sep)
    decreases |w|
  {
    var s := w + [sep] + t;
    if w == [] {
      assert s[0] == sep && s[1..] == t;
    } else {
      assert s[0] == w[0] && s[1..] == w[1..] + [sep] + t;
      SplitFirstWord(w[1..], t, sep);
      assert [w[0]] + w[1..] == w;
    }
  }

  /** Splitting joined pieces that hold no separator gives back the pieces. */
  lemma {:induction false} JoinSplit(words: seq<string>, sep: char)
    requires |words| >= 1 && forall k :: 0 <= k < |words| ==> sep !in words[k]
    ensures Split(Join(words, sep), sep) == words
    decreases |words|
  {
    if |words| == 1 {
      SplitWord(words[0], sep);
    } else {
      JoinSplit(words[1..], sep);
      SplitFirstWord(words[0], Join(words[1..], sep), sep);
      assert [words[0]] + words[1..] == words;
    }
  }

  /** A word `processJobTitle` drops: "undefined" or "null" in any letter case. */
  predicate IsNullWord(w: string) {
    Lower(w) == "undefined" || Lower(w) == "null"
  }

  predicate KeepWord(w: string) {
    !IsNullWord(w)
  }

  const NoJobTitle := "No Job Title"

  /** `processJobTitle`: "No Job Title" for a missing title or one with no word left; otherwise
      the words (split on single spaces) that are not "undefined" or "null", joined by spaces. */
  function ProcessJobTitle(title: Option<string>): (r: string)
    ensures title.None? ==> r == NoJobTitle
    ensures title.Some? && (forall w :: w in Split(title.value, ' ') ==> IsNullWord(w)) ==> r == NoJobTitle
  {
    match title
    case None => NoJobTitle
    case Some(t) =>
      var kept := Filter(Split(t, ' '), KeepWord);
      if kept == [] then NoJobTitle else Join(kept, ' ')
  }

  /** A title without "undefined" or "null" words comes back unchanged, the empty title
      included. */
  lemma ProcessJobTitleUnchanged(t: string)
    requires forall w :: w in Split(t, ' ') ==> !IsNullWord(w)
    ensures ProcessJobTitle(Some(t)) == t
  {
    FilterKeepsAll(Split(t, ' '), KeepWord);
    SplitJoin(t, ' ');
  }

  /** When some word survives, the result's words are exactly the kept words of the title, in
      order, and none of them is "undefined" or "null"; when none survives it is "No Job Title". */
  lemma ProcessJobTitleClean(t: string)
    ensures var r := ProcessJobTitle(Some(t));
            var kept := Filter(Split(t, ' '), KeepWord);
            && (kept == [] ==> r == NoJobTitle)
            && (kept != [] ==> Split(r, ' ') == kept && forall w :: w in Split(r, ' ') ==> !IsNullWord(w))
  {
    var kept := Filter(Split(t, ' '), KeepWord);
    if kept != [] {
      forall k | 0 <= k < |kept|
        ensures ' ' !in kept[k]
      {
        assert kept[k] in Split(t, ' ');
      }
      JoinSplit(kept, ' ');
    }
  }

  /** The worked example: a "null" word is dropped from a title that has other words. */
  lemma ProcessJobTitleDropsNull()
    ensures ProcessJobTitle(Some("null Engineer")) == "Engineer"
  {
    var words := ["null", "Engineer"];
    SplitTwoWords(words[0], words[1], ' ');
    assert words[0] + [' '] + words[1] == "null Engineer";
    assert !KeepWord(words[0]) by {
      assert Lower("null") == "null";
    }
    assert KeepWord(words[1]) by {
      assert Lower("Engineer")[0] == 'e';
    }
    assert Filter(words, KeepWord) == ["Engineer"] by {
      assert words == ["null"] + ["Engineer"];
      FilterConcat(["null"], ["Engineer"], KeepWord);
    }
  }

  /** A title made of a null word alone, in any letter case, becomes "No Job Title". */
  lemma ProcessJobTitleOnlyNull()
    ensures ProcessJobTitle(Some("Null")) == NoJobTitle
  {
    SplitWord("Null", ' ');
    assert Lower("Null") == "null";
  }

  /** Two separator-free words joined by the separator split back into the two words. */
  lemma SplitTwoWords(a: string, b: string, sep: char)
    requires sep !in a && sep !in b
    ensures Split(a + [sep] + b, sep) == [a, b]
  {
    SplitFirstWord(a, b, sep);
    SplitWord(b, sep);
  }

  // ---- generateSlug ----

  /** The characters `replace(/[^\w\s-]/g, "")` keeps: word characters, whitespace and dashes. */
  predicate SlugKeeps(c: char) {
    IsWordChar(c) || IsSpace(c) || c == '-'
  }

  predicate IsDash(c: char) {
    c == '-'
  }

  /** The characters a slug is made of: `[a-z0-9_-]`. */
  predicate IsSlugChar(c: char) {
    ('a' <= c <= 'z') || ('0' <= c <= '9') || c == '_' || c == '-'
  }

  /** What is left after a run of characters satisfying `p` at the front. */
  function DropRun(s: string, p: char -> bool): (r: string)
    ensures |r| <= |s| && r == s[|s| - |r|..]
    ensures r == [] || !p(r[0])
  {
    if s == [] || !p(s[0]) then s else DropRun(s[1..], p)
  }

  /** No `c` in `s` is directly followed by a character satisfying `p`. */
  ghost predicate NoRunAfter(s: string, p: char -> bool, c: char) {
    forall i :: 0 <= i < |s| - 1 ==> !(s[i] == c && p(s[i + 1]))
  }

  /** `replace(/p+/g, c)`: every maximal run of characters satisfying `p` becomes one `c`. */
  function CollapseRuns(s: string, p: char -> bool, c: char): (r: string)
    ensures r == [] <==> s == []
    ensures s != [] && !p(s[0]) ==> r[0] == s[0]
    ensures r != [] ==> r[0] == c || !p(r[0])
    ensures NoRunAfter(r, p, c)
    decreases |s|
  {
    if s == [] then []
    else if p(s[0]) then
      var rest := CollapseRuns(DropRun(s[1..], p), p, c);
      ConsNoRunAfter(c, rest, p, c);
      [c] + rest
    else
      var rest := CollapseRuns(s[1..], p, c);
      ConsNoRunAfter(s[0], rest, p, c);
      [s[0]] + rest
  }

  lemma ConsNoRunAfter(x: char, rest: string, p: char -> bool, c: char)
    requires NoRunAfter(rest, p, c)
    requires rest == [] || x != c || !p(rest[0])
    ensures NoRunAfter([x] + rest, p, c)
  {
    var r := [x] + rest;
    forall i | 0 <= i < |r| - 1
      ensures !(r[i] == c && p(r[i + 1]))
    {
      assert r[i + 1] == rest[i];
      if i > 0 {
        assert r[i] == rest[i - 1];
      }
    }
  }

  /** Every character of `s` satisfies `q`. */
  ghost predicate All(s: string, q: char -> bool) {
    forall i :: 0 <= i < |s| ==> q(s[i])
  }

  /** Every character of `s` is in a run or satisfies `q`. */
  ghost predicate AllOrRun(s: string, p: char -> bool, q: char -> bool) {
    forall i :: 0 <= i < |s| ==> p(s[i]) || q(s[i])
  }

  /** The result is made of `c` and of characters of `s` outside the runs: a property those
      all have, the result's characters have too. */
  lemma {:induction false} CollapseRunsKeeps(s: string, p: char -> bool, c: char, q: char -> bool)
    requires q(c) && AllOrRun(s, p, q)
    ensures All(CollapseRuns(s, p, c), q)
    decreases |s|
  {
    if s != [] {
      var tail := if p(s[0]) then DropRun(s[1..], p) else s[1..];
      SuffixAllOrRun(s, tail, p, q);
      CollapseRunsKeeps(tail, p, c, q);
      ConsAll(if p(s[0]) then c else s[0], CollapseRuns(tail, p, c), q);
    }
  }

  lemma SuffixAllOrRun(s: string, tail: string, p: char -> bool, q: char -> bool)
    requires AllOrRun(s, p, q) && |tail| <= |s| && tail == s[|s| - |tail|..]
    ensures AllOrRun(tail, p, q)
  {
    forall i | 0 <= i < |tail|
      ensures p(tail[i]) || q(tail[i])
    {
      assert tail[i] == s[|s| - |tail| + i];
    }
  }

  lemma ConsAll(x: char, rest: string, q: char -> bool)
    requires q(x) && All(rest, q)
    ensures All([x] + rest, q)
  {
    var r := [x] + rest;
    forall i | 0 <= i < |r|
      ensures q(r[i])
    {
      if i > 0 {
        assert r[i] == rest[i - 1];
      }
    }
  }

  /** A string whose `p`-characters are single copies of `c` has no run to collapse. */
  lemma {:induction false} CollapseRunsNoRuns(s: string, p: char -> bool, c: char)
    requires forall i :: 0 <= i < |s| ==> p(s[i]) ==> s[i] == c
    requires NoRunAfter(s, p, c)
    ensures CollapseRuns(s, p, c) == s
    decreases |s|
  {
    if s != [] {
      CollapseRunsNoRuns(s[1..], p, c);
      assert [s[0]] + s[1..] == s;
    }
  }

  /** After lowercasing and removing special characters: no upper-case letter, and only
      word characters, whitespace and dashes. */
  predicate LoweredKept(c: char) {
    !IsAsciiUpper(c) && SlugKeeps(c)
  }

  ghost predicate AllLoweredKept(s: string) {
    forall i :: 0 <= i < |s| ==> LoweredKept(s[i])
  }

  ghost predicate AllSlugChars(s: string) {
    forall i :: 0 <= i < |s| ==> IsSlugChar(s[i])
  }

  lemma KeptChars(title: string)
    ensures AllLoweredKept(Filter(Lower(title), SlugKeeps))
  {
    var lowered := Lower(title);
    var kept := Filter(lowered, SlugKeeps);
    forall i | 0 <= i < |kept|
      ensures LoweredKept(kept[i])
    {
      assert kept[i] in lowered;
      var j :| 0 <= j < |lowered| && lowered[j] == kept[i];
    }
  }

  /** Turning whitespace runs into dashes leaves only slug characters. */
  lemma DashedChars(kept: string)
    requires AllLoweredKept(kept)
    ensures AllSlugChars(CollapseRuns(kept, IsSpace, '-'))
  {
    CollapseRunsKeeps(kept, IsSpace, '-', IsSlugChar);
    assert All(CollapseRuns(kept, IsSpace, '-'), IsSlugChar);
  }

  /** Collapsing dash runs keeps only slug characters. */
  lemma SingleChars(dashed: string)
    requires AllSlugChars(dashed)
    ensures AllSlugChars(CollapseRuns(dashed, IsDash, '-'))
  {
    CollapseRunsKeeps(dashed, IsDash, '-', IsSlugChar);
    assert All(CollapseRuns(dashed, IsDash, '-'), IsSlugChar);
  }

  /** The slug part of `generateSlug`: lowercased, special characters removed, whitespace
      runs turned into one dash, dash runs into one dash, and whitespace trimmed. */
  function Slug(title: string): (r: string)
    ensures forall i :: 0 <= i < |r| ==> IsSlugChar(r[i])
    ensures NoRunAfter(r, IsDash, '-')
  {
    var kept := Filter(Lower(title), SlugKeeps);
    KeptChars(title);
    var dashed := CollapseRuns(kept, IsSpace, '-');
    DashedChars(kept);
    var single := CollapseRuns(dashed, IsDash, '-');
    SingleChars(dashed);
    assert forall c :: c in single ==> !IsSpace(c);
    Trim(single)
  }

  /** Two words of lowercase letters and digits separated by a space become the two words
      joined by a dash. */
  lemma SlugTwoWords(a: string, b: string)
    requires a != [] && b != []
    requires forall i :: 0 <= i < |a| ==> IsAsciiLowerOrDigit(a[i])
    requires forall i :: 0 <= i < |b| ==> IsAsciiLowerOrDigit(b[i])
    ensures Slug(a + " " + b) == a + "-" + b
  {
    var s := a + " " + b;
    var d := a + "-" + b;
    assert forall i :: 0 <= i < |s| ==> !IsAsciiUpper(s[i]) && SlugKeeps(s[i]);
    LowerKeepsPlainText(s);
    FilterKeepsAll(s, SlugKeeps);
    SpaceBecomesDash(a, b);
    DashStays(a, b);
    DashedWordsNoSpace(a, b);
  }

  lemma DashedWordsNoSpace(a: string, b: string)
    requires forall i :: 0 <= i < |a| ==> IsAsciiLowerOrDigit(a[i])
    requires forall i :: 0 <= i < |b| ==> IsAsciiLowerOrDigit(b[i])
    ensures forall c :: c in a + "-" + b ==> !IsSpace(c)
  {
    forall c | c in a + "-" + b
      ensures !IsSpace(c)
    {
      assert c in a || c == '-' || c in b;
    }
  }

  lemma SpaceBecomesDash(a: string, b: string)
    requires forall i :: 0 <= i < |a| ==> IsAsciiLowerOrDigit(a[i])
    requires forall i :: 0 <= i < |b| ==> IsAsciiLowerOrDigit(b[i])
    ensures CollapseRuns(a + " " + b, IsSpace, '-') == a + "-" + b
  {
    var v := " " + b;
    assert a + " " + b == a + v;
    assert a + "-" + b == a + ("-" + b);
    forall i | 0 <= i < |a| ensures !IsSpace(a[i]) {
      LowerOrDigitNotSpace(a[i]);
    }
    forall i | 0 <= i < |b| ensures !IsSpace(b[i]) {
      LowerOrDigitNotSpace(b[i]);
    }
    LeadingSpaceBecomesDash(b);
    CollapseRunsPlainPrefix(a, v, IsSpace, '-');
  }

  lemma LeadingSpaceBecomesDash(b: string)
    requires forall i :: 0 <= i < |b| ==> !IsSpace(b[i])
    ensures CollapseRuns(" " + b, IsSpace, '-') == "-" + b
  {
    var v := [' '] + b;
    assert v[0] == ' ' && IsSpace(v[0]) && v[1..] == b;
    assert CollapseRuns(v, IsSpace, '-') == ['-'] + CollapseRuns(DropRun(v[1..], IsSpace), IsSpace, '-');
    assert DropRun(b, IsSpace) == b;
    CollapseRunsNoRuns(b, IsSpace, '-');
  }

  lemma LowerOrDigitNotSpace(c: char)
    requires IsAsciiLowerOrDigit(c)
    ensures !IsSpace(c)
  {
    assert 48 <= c as int <= 57 || 97 <= c as int <= 122;
  }

  lemma DashStays(a: string, b: string)
    requires b != []
    requires forall i :: 0 <= i < |a| ==> IsAsciiLowerOrDigit(a[i])
    requires forall i :: 0 <= i < |b| ==> IsAsciiLowerOrDigit(b[i])
    ensures CollapseRuns(a + "-" + b, IsDash, '-') == a + "-" + b
  {
    var d := a + "-" + b;
    assert d[|a| + 1] == b[0];
    assert forall i :: 0 <= i < |d| - 1 && d[i] == '-' ==> i == |a|;
    CollapseRunsNoRuns(d, IsDash, '-');
  }

  lemma LowerKeepsPlainText(s: string)
    requires forall i :: 0 <= i < |s| ==> !IsAsciiUpper(s[i])
    ensures Lower(s) == s
  {
  }

  /** A prefix with no run character passes through `CollapseRuns` unchanged. */
  lemma {:induction false} CollapseRunsPlainPrefix(pre: string, t: string, p: char -> bool, c: char)
    requires forall i :: 0 <= i < |pre| ==> !p(pre[i])
    ensures CollapseRuns(pre + t, p, c) == pre + CollapseRuns(t, p, c)
    decreases |pre|
  {
    if pre != [] {
      var u := pre + t;
      assert u[0] == pre[0] && !p(u[0]);
      assert u[1..] == pre[1..] + t;
      assert CollapseRuns(u, p, c) == [u[0]] + CollapseRuns(u[1..], p, c);
      CollapseRunsPlainPrefix(pre[1..], t, p, c);
      assert pre == [pre[0]] + pre[1..];
    } else {
      assert pre + t == t;
    }
  }

  /** A slug is its own slug. */
  lemma SlugIdempotent(title: string)
    ensures Slug(Slug(title)) == Slug(title)
  {
    SlugOfSlugChars(Slug(title));
  }

  /** A string of slug characters without a double dash is its own slug. */
  lemma SlugOfSlugChars(s: string)
    requires AllSlugChars(s) && NoRunAfter(s, IsDash, '-')
    ensures Slug(s) == s
  {
    LowerSlugChars(s);
    assert forall x :: x in s ==> SlugKeeps(x) && !IsSpace(x);
    FilterKeepsAll(s, SlugKeeps);
    CollapseRunsNoRuns(s, IsSpace, '-');
    assert CollapseRuns(Filter(Lower(s), SlugKeeps), IsSpace, '-') == s;
    CollapseRunsNoRuns(s, IsDash, '-');
    assert Trim(s) == s;
  }

  lemma LowerSlugChars(s: string)
    requires AllSlugChars(s)
    ensures Lower(s) == s
  {
    assert forall i :: 0 <= i < |s| ==> Lower(s)[i] == s[i];
  }

  /** `slice(-4)`: the last four characters, or the whole string when shorter. */
  function LastFour(s: string): (r: string)
    ensures |r| == if |s| < 4 then |s| else 4
    ensures r == s[|s| - |r|..]
  {
    if |s| < 4 then s else s[|s| - 4..]
  }

  ghost predicate AllDigits(s: string) {
    forall i :: 0 <= i < |s| ==> '0' <= s[i] <= '9'
  }

  /** `generateSlug`: the slug, a dash, and the last four digits of the clock in milliseconds
      (the clock is a parameter). */
  function GenerateSlug(title: string, nowMs: nat): (r: string)
    ensures var n := |Slug(title)|;
            && n + 2 <= |r| <= n + 5
            && r[..n] == Slug(title) && r[n] == '-'
            && r[n + 1..] == LastFour(NatToString(nowMs))
            && AllDigits(r[n + 1..])
  {
    var suffix := LastFour(NatToString(nowMs));
    DigitsSuffix(NatToString(nowMs));
    Stamped(Slug(title), suffix);
    Slug(title) + "-" + suffix
  }

  /** The shape of `${slug}-${timestamp}`. */
  lemma Stamped(slug: string, suffix: string)
    requires 1 <= |suffix| <= 4 && AllDigits(suffix)
    ensures var r := slug + "-" + suffix;
            && |slug| + 2 <= |r| <= |slug| + 5
            && r[..|slug|] == slug && r[|slug|] == '-'
            && r[|slug| + 1..] == suffix
  {
  }

  lemma DigitsSuffix(digits: string)
    requires |digits| >= 1 && forall c :: c in digits ==> '0' <= c <= '9'
    ensures 1 <= |LastFour(digits)| <= 4 && AllDigits(LastFour(digits))
  {
    var suffix := LastFour(digits);
    forall j | 0 <= j < |suffix|
      ensures '0' <= suffix[j] <= '9'
    {
      assert suffix[j] == digits[|digits| - |suffix| + j];
      assert digits[|digits| - |suffix| + j] in digits;
    }
  }
}
