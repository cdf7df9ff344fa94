/** The tag actions: the tag-affinity scorer `getTopInterectedTags` (a frequency count over
    the user's interactions, a stable sort by count and a slice), the paging of `getAllTags`
    and `getQuestionsByTagId`, and `getRelatedTags` over its fixed list. */
module TagActions {
  import opened Wrappers
  import opened Seqs
  import opened Text
  import opened Entities
  import opened Paging

  /** A populated tag reference (`select: "_id name"`). */
  datatype TagRef = TagRef(id: TagId, name: string)

  /** An entry of the scorer's result. */
  datatype TagCount = TagCount(id: TagId, name: string, count: nat)

  // ---- the reference definitions: occurrences counted over the flat list of references ----

  /** Position of the first reference named `name`. */
  function FirstRef(refs: seq<TagRef>, name: string): (r: Option<nat>)
    ensures r.Some? ==> r.value < |refs| && refs[r.value].name == name
    ensures r.Some? ==> forall k :: 0 <= k < r.value ==> refs[k].name != name
    ensures r.None? ==> forall k :: 0 <= k < |refs| ==> refs[k].name != name
    decreases |refs|
  {
    if refs == [] then None
    else
      var init := refs[..|refs| - 1];
      var p := FirstRef(init, name);
      assert forall k :: 0 <= k < |init| ==> init[k] == refs[k];
      if p.Some? then p else if refs[|refs| - 1].name == name then Some(|refs| - 1) else None
  }

  /** Number of references named `name`. */
  function Count(refs: seq<TagRef>, name: string): (r: nat)
    ensures r <= |refs|
    ensures (forall k :: 0 <= k < |refs| ==> refs[k].name != name) ==> r == 0
    decreases |refs|
  {
    if refs == [] then 0
    else
      var init := refs[..|refs| - 1];
      assert forall k :: 0 <= k < |init| ==> init[k] == refs[k];
      Count(init, name) + if refs[|refs| - 1].name == name then 1 else 0
  }

  function Names(refs: seq<TagRef>): set<string> {
    set r | r in refs :: r.name
  }

  function SumCounts(entries: seq<TagCount>): nat
    decreases |entries|
  {
    if entries == [] then 0 else SumCounts(entries[..|entries| - 1]) + entries[|entries| - 1].count
  }

  // ---- the dictionary the loop builds, one reference at a time ----

  /** Position of the entry named `name`, if any. */
  function NameIndex(entries: seq<TagCount>, name: string): (r: Option<nat>)
    ensures r.Some? ==> r.value < |entries| && entries[r.value].name == name
    ensures r.None? ==> forall k :: 0 <= k < |entries| ==> entries[k].name != name
    decreases |entries|
  {
    if entries == [] then None
    else if entries[0].name == name then Some(0)
    else match NameIndex(entries[1..], name)
      case None => None
      case Some(k) => Some(k + 1)
  }

  /** One reference: its name's count goes up by one, or a new entry with count 1 and this
      reference's id is added at the end (object keys keep insertion order). */
  function Bump(entries: seq<TagCount>, ref: TagRef): seq<TagCount> {
    match NameIndex(entries, ref.name)
    case Some(k) => entries[k := entries[k].(count := entries[k].count + 1)]
    case None => entries + [TagCount(ref.id, ref.name, 1)]
  }

  /** The frequency dictionary after all of `refs`, as the list `Object.keys(...).map(...)` makes. */
  function Tally(refs: seq<TagRef>): (r: seq<TagCount>)
    ensures |r| <= |refs|
    decreases |refs|
  {
    if refs == [] then [] else Bump(Tally(refs[..|refs| - 1]), refs[|refs| - 1])
  }

  /** `e` is what the dictionary should hold for its name: the id of the name's first reference
      and the number of references with that name (at least one). */
  predicate Counted(refs: seq<TagRef>, e: TagCount) {
    match FirstRef(refs, e.name)
    case None => false
    case Some(f) => e.id == refs[f].id && e.count == Count(refs, e.name) && e.count >= 1
  }

  lemma {:induction false} SumCountsIncrement(entries: seq<TagCount>, k: nat)
    requires k < |entries|
    ensures SumCounts(entries[k := entries[k].(count := entries[k].count + 1)]) == SumCounts(entries) + 1
    decreases |entries|
  {
    var e := entries[k := entries[k].(count := entries[k].count + 1)];
    var n := |entries| - 1;
    if k < n {
      assert e[..n] == entries[..n][k := entries[k].(count := entries[k].count + 1)];
      SumCountsIncrement(entries[..n], k);
    } else {
      assert e[..n] == entries[..n];
    }
  }

  function EntryNames(entries: seq<TagCount>): set<string> {
    set e | e in entries :: e.name
  }

  predicate DistinctNames(entries: seq<TagCount>) {
    forall p, q :: 0 <= p < q < |entries| ==> entries[p].name != entries[q].name
  }

  /** The name `a` is first referenced before the name `b` is. */
  predicate SeenBefore(refs: seq<TagRef>, a: string, b: string) {
    FirstRef(refs, a).Some? && FirstRef(refs, b).Some? && FirstRef(refs, a).value < FirstRef(refs, b).value
  }

  lemma FirstRefAppend(init: seq<TagRef>, x: TagRef, n: string)
    ensures FirstRef(init + [x], n)
            == if FirstRef(init, n).Some? then FirstRef(init, n) else if x.name == n then Some(|init|) else None
  {
    assert (init + [x])[..|init|] == init;
  }

  lemma CountAppend(init: seq<TagRef>, x: TagRef, n: string)
    ensures Count(init + [x], n) == Count(init, n) + if x.name == n then 1 else 0
  {
    assert (init + [x])[..|init|] == init;
  }

  lemma TallyAppend(init: seq<TagRef>, x: TagRef)
    ensures Tally(init + [x]) == Bump(Tally(init), x)
  {
    assert (init + [x])[..|init|] == init;
  }

  /** No two entries of the tally share a name. */
  lemma {:induction false} TallyDistinct(refs: seq<TagRef>, p: nat, q: nat)
    requires p < q < |Tally(refs)|
    ensures Tally(refs)[p].name != Tally(refs)[q].name
    decreases |refs|
  {
    assert refs != [];
    var init, x := refs[..|refs| - 1], refs[|refs| - 1];
    var t0 := Tally(init);
    match NameIndex(t0, x.name)
    case Some(k) =>
      TallyDistinct(init, p, q);
    case None =>
      if q < |t0| {
        TallyDistinct(init, p, q);
      }
  }

  /** Every referenced name has an entry. */
  lemma {:induction false} TallyCovers(refs: seq<TagRef>, j: nat)
    requires j < |refs|
    ensures NameIndex(Tally(refs), refs[j].name).Some?
    decreases |refs|
  {
    var init, x := refs[..|refs| - 1], refs[|refs| - 1];
    var t0, t := Tally(init), Tally(refs);
    var n := refs[j].name;
    if j < |init| {
      assert init[j] == refs[j];
      TallyCovers(init, j);
      var k0 := NameIndex(t0, n).value;
      match NameIndex(t0, x.name)
      case Some(k) =>
        assert t[k0].name == n;
      case None =>
        assert t[k0].name == n;
    } else {
      match NameIndex(t0, x.name)
      case Some(k) =>
        assert t[k].name == n;
      case None =>
        assert t[|t0|].name == n;
    }
  }

  /** A name without an entry has not been referenced. */
  lemma TallyAbsent(refs: seq<TagRef>, n: string)
    requires NameIndex(Tally(refs), n).None?
    ensures FirstRef(refs, n).None? && Count(refs, n) == 0
  {
    if FirstRef(refs, n).Some? {
      TallyCovers(refs, FirstRef(refs, n).value);
      assert false;
    }
  }

  /** Each entry holds its name's first id and its number of references. */
  lemma {:induction false} TallyEntry(refs: seq<TagRef>, p: nat)
    requires p < |Tally(refs)|
    ensures Counted(refs, Tally(refs)[p])
    decreases |refs|
  {
    assert refs != [];
    var init, x := refs[..|refs| - 1], refs[|refs| - 1];
    assert refs == init + [x];
    var t0, t := Tally(init), Tally(refs);
    var n := t[p].name;
    FirstRefAppend(init, x, n);
    CountAppend(init, x, n);
    match NameIndex(t0, x.name)
    case Some(k) =>
      TallyEntry(init, p);
      if p < k {
        TallyDistinct(init, p, k);
      } else if k < p {
        TallyDistinct(init, k, p);
      }
    case None =>
      if p < |t0| {
        TallyEntry(init, p);
      } else {
        TallyAbsent(init, x.name);
      }
  }

  /** The entries come in order of their names' first references. */
  lemma {:induction false} TallyOrder(refs: seq<TagRef>, p: nat, q: nat)
    requires p < q < |Tally(refs)|
    ensures SeenBefore(refs, Tally(refs)[p].name, Tally(refs)[q].name)
    decreases |refs|
  {
    assert refs != [];
    var init, x := refs[..|refs| - 1], refs[|refs| - 1];
    assert refs == init + [x];
    var t0, t := Tally(init), Tally(refs);
    TallyEntry(refs, p);
    TallyEntry(refs, q);
    FirstRefAppend(init, x, t[p].name);
    FirstRefAppend(init, x, t[q].name);
    match NameIndex(t0, x.name)
    case Some(k) =>
      TallyOrder(init, p, q);
    case None =>
      if q < |t0| {
        TallyOrder(init, p, q);
      } else {
        TallyEntry(init, p);
        TallyAbsent(init, x.name);
      }
  }

  /** A list of entries with distinct names has as many names as entries. */
  lemma {:induction false} DistinctNamesCard(t: seq<TagCount>)
    requires DistinctNames(t)
    ensures |EntryNames(t)| == |t|
    decreases |t|
  {
    if t != [] {
      var n := |t| - 1;
      var init := t[..n];
      DistinctNamesCard(init);
      assert EntryNames(t) == EntryNames(init) + {t[n].name} by {
        assert t == init + [t[n]];
      }
      assert t[n].name !in EntryNames(init);
    }
  }

  /** The entries' names are exactly the referenced names, so there are as many entries as
      distinct names. */
  lemma TallyNames(refs: seq<TagRef>)
    ensures DistinctNames(Tally(refs))
    ensures EntryNames(Tally(refs)) == Names(refs)
    ensures |Tally(refs)| == |Names(refs)|
  {
    var t := Tally(refs);
    forall p, q | 0 <= p < q < |t|
      ensures t[p].name != t[q].name
    {
      TallyDistinct(refs, p, q);
    }
    forall n | n in EntryNames(t)
      ensures n in Names(refs)
    {
      var e :| e in t && e.name == n;
      var p :| 0 <= p < |t| && t[p] == e;
      TallyEntry(refs, p);
      assert refs[FirstRef(refs, n).value] in refs;
    }
    forall n | n in Names(refs)
      ensures n in EntryNames(t)
    {
      var r :| r in refs && r.name == n;
      var j :| 0 <= j < |refs| && refs[j] == r;
      TallyCovers(refs, j);
      assert t[NameIndex(t, n).value] in t;
    }
    DistinctNamesCard(t);
  }

  /** The counts add up to the number of references. */
  lemma {:induction false} TallySum(refs: seq<TagRef>)
    ensures SumCounts(Tally(refs)) == |refs|
    decreases |refs|
  {
    if refs != [] {
      var init, x := refs[..|refs| - 1], refs[|refs| - 1];
      TallySum(init);
      var t0 := Tally(init);
      assert Tally(refs) == Bump(t0, x);
      match NameIndex(t0, x.name)
      case Some(k) =>
        SumCountsIncrement(t0, k);
      case None =>
        var t := t0 + [TagCount(x.id, x.name, 1)];
        assert t[..|t| - 1] == t0;
        assert SumCounts(t) == SumCounts(t0) + 1;
    }
  }

  // ---- the stable sort `sort((a, b) => b.count - a.count)` ----

  /** Where an insertion into a list sorted by descending count puts `x`: before the first entry
      whose count is at most `x.count`. */
  function InsertPos(x: TagCount, sorted: seq<TagCount>): (m: nat)
    ensures m <= |sorted|
    ensures forall k :: 0 <= k < m ==> sorted[k].count > x.count
    ensures m < |sorted| ==> sorted[m].count <= x.count
    decreases |sorted|
  {
    if sorted == [] || sorted[0].count <= x.count then 0 else 1 + InsertPos(x, sorted[1..])
  }

  function Insert(x: TagCount, sorted: seq<TagCount>): seq<TagCount> {
    var m := InsertPos(x, sorted);
    sorted[..m] + [x] + sorted[m..]
  }

  predicate SortedDesc(s: seq<TagCount>) {
    forall i, j :: 0 <= i < j < |s| ==> s[i].count >= s[j].count
  }

  /** `a` comes before `b` in `s`. */
  ghost predicate Before(s: seq<TagCount>, a: TagCount, b: TagCount) {
    exists p, q :: 0 <= p < q < |s| && s[p] == a && s[q] == b
  }

  /** The sort the source calls on the entries: stable, descending by count. */
  function SortByCountDesc(s: seq<TagCount>): (r: seq<TagCount>)
    ensures SortedDesc(r)
    ensures multiset(r) == multiset(s)
    ensures forall i, j :: 0 <= i < j < |r| && r[i].count == r[j].count ==> Before(s, r[i], r[j])
    decreases |s|
  {
    if s == [] then []
    else
      var rest := SortByCountDesc(s[1..]);
      assert s == [s[0]] + s[1..];
      InsertSorted(s[0], rest);
      InsertTies(s[0], rest, s);
      Insert(s[0], rest)
  }

  /** Where each entry of `Insert(x, sorted)` comes from. */
  lemma InsertAt(x: TagCount, sorted: seq<TagCount>)
    ensures var r, m := Insert(x, sorted), InsertPos(x, sorted);
            && |r| == |sorted| + 1 && r[m] == x
            && (forall k :: 0 <= k < m ==> r[k] == sorted[k])
            && (forall k :: m < k < |r| ==> r[k] == sorted[k - 1])
  {
  }

  lemma InsertMultiset(x: TagCount, sorted: seq<TagCount>)
    ensures multiset(Insert(x, sorted)) == multiset(sorted) + multiset{x}
  {
    var m := InsertPos(x, sorted);
    assert sorted == sorted[..m] + sorted[m..];
  }

  lemma InsertSorted(x: TagCount, sorted: seq<TagCount>)
    requires SortedDesc(sorted)
    ensures SortedDesc(Insert(x, sorted))
    ensures multiset(Insert(x, sorted)) == multiset(sorted) + multiset{x}
  {
    InsertAt(x, sorted);
    InsertMultiset(x, sorted);
    var r, m := Insert(x, sorted), InsertPos(x, sorted);
    forall i, j | 0 <= i < j < |r|
      ensures r[i].count >= r[j].count
    {
      if j == m {
        assert r[i] == sorted[i];
      } else if i == m {
        assert r[j] == sorted[j - 1] && sorted[m].count <= x.count;
      } else if i < m && m < j {
        assert r[i] == sorted[i] && r[j] == sorted[j - 1];
      } else if j < m {
        assert r[i] == sorted[i] && r[j] == sorted[j];
      } else {
        assert r[i] == sorted[i - 1] && r[j] == sorted[j - 1];
      }
    }
  }

  /** Inserting the first entry of `s` in front of its ties keeps ties in the order of `s`. */
  lemma InsertTies(x: TagCount, rest: seq<TagCount>, s: seq<TagCount>)
    requires s != [] && s[0] == x
    requires multiset(rest) == multiset(s[1..])
    requires forall i, j :: 0 <= i < j < |rest| && rest[i].count == rest[j].count ==> Before(s[1..], rest[i], rest[j])
    ensures var r := Insert(x, rest);
            forall i, j :: 0 <= i < j < |r| && r[i].count == r[j].count ==> Before(s, r[i], r[j])
  {
    InsertAt(x, rest);
    InsertMultiset(x, rest);
    var r, m := Insert(x, rest), InsertPos(x, rest);
    forall i, j | 0 <= i < j < |r| && r[i].count == r[j].count
      ensures Before(s, r[i], r[j])
    {
      if i == m {
        assert r[j] == rest[j - 1] && rest[j - 1] in multiset(s[1..]);
        var q :| 0 <= q < |s[1..]| && s[1..][q] == r[j];
        assert s[0] == r[i] && s[q + 1] == r[j];
      } else if j == m {
        assert false;
      } else {
        var i', j' := if i < m then i else i - 1, if j < m then j else j - 1;
        assert r[i] == rest[i'] && r[j] == rest[j'];
        var p, q :| 0 <= p < q < |s[1..]| && s[1..][p] == rest[i'] && s[1..][q] == rest[j'];
        assert s[p + 1] == r[i] && s[q + 1] == r[j];
      }
    }
  }

  // ---- the scorer ----

  /** `populate("tags")` of one interaction: ids whose tag exists, in order, with the tag's name. */
  function PopulateRefs(tags: seq<Tag>, ids: seq<TagId>): seq<TagRef>
    decreases |ids|
  {
    if ids == [] then []
    else
      var head := match TagIndex(tags, ids[0])
        case Some(k) => [TagRef(tags[k].id, tags[k].name)]
        case None => [];
      head + PopulateRefs(tags, ids[1..])
  }

  /** `Interaction.find({ user })` with populated tags: one group of references per interaction. */
  function UserRefGroups(interactions: seq<Interaction>, tags: seq<Tag>, user: UserId): seq<seq<TagRef>> {
    var mine := Filter(interactions, (i: Interaction) => i.user == user);
    seq(|mine|, k requires 0 <= k < |mine| => PopulateRefs(tags, mine[k].tags))
  }

  function Flatten(groups: seq<seq<TagRef>>): seq<TagRef>
    decreases |groups|
  {
    if groups == [] then [] else Flatten(groups[..|groups| - 1]) + groups[|groups| - 1]
  }

  lemma FlattenStep(groups: seq<seq<TagRef>>, i: nat)
    requires i < |groups|
    ensures Flatten(groups[..i + 1]) == Flatten(groups[..i]) + groups[i]
  {
    assert groups[..i + 1][..i] == groups[..i];
  }

  /** The result for a known user: the tallied references, sorted, then `slice(0, limit)`. The
      `.filter` the source applies in between keeps every entry (its callback returns an object,
      which is truthy), so it does not appear. */
  function TopTags(refs: seq<TagRef>, limit: int): (r: seq<TagCount>)
    ensures var s := SortByCountDesc(Tally(refs)); |r| <= |s| && r == s[..|r|]
    ensures SortedDesc(r)
    ensures DistinctNames(r)
    ensures forall p :: 0 <= p < |r| ==> Counted(refs, r[p])
    ensures forall p, q :: 0 <= p < q < |r| && r[p].count == r[q].count ==> SeenBefore(refs, r[p].name, r[q].name)
    ensures 0 <= limit ==> |r| == if limit < |Names(refs)| then limit else |Names(refs)|
  {
    var sorted := SortByCountDesc(Tally(refs));
    var r := SliceTo(sorted, limit);
    assert forall p :: 0 <= p < |r| ==> r[p] == sorted[p];
    SortedTallyEntries(refs);
    SortedTallyTies(refs);
    SortedTallyDistinct(refs);
    r
  }

  /** The kept entries are the most used: every referenced name left out is used no more often
      than any name kept. */
  lemma TopTagsHighest(refs: seq<TagRef>, limit: int)
    ensures var r := TopTags(refs, limit);
            forall p, n :: 0 <= p < |r| && n in Names(refs) && n !in EntryNames(r) ==> r[p].count >= Count(refs, n)
  {
    var r := TopTags(refs, limit);
    var t := Tally(refs);
    var s := SortByCountDesc(t);
    TallyNames(refs);
    forall p, n | 0 <= p < |r| && n in Names(refs) && n !in EntryNames(r)
      ensures r[p].count >= Count(refs, n)
    {
      assert n in EntryNames(t);
      var a :| 0 <= a < |t| && t[a].name == n;
      TallyEntry(refs, a);
      assert t[a] in multiset(s);
      SortedPrefixHighest(s, |r|, t[a], p);
    }
  }

  /** In a list sorted by descending count, an entry outside a prefix counts no more than any
      entry of the prefix. */
  lemma SortedPrefixHighest(s: seq<TagCount>, m: nat, e: TagCount, p: nat)
    requires SortedDesc(s) && p < m <= |s| && e in s && e !in s[..m]
    ensures s[p].count >= e.count
  {
    var q :| 0 <= q < |s| && s[q] == e;
    assert q >= m;
  }

  /** Each entry of the sorted tally counts its name's occurrences and carries its first id. */
  lemma SortedTallyEntries(refs: seq<TagRef>)
    ensures var r := SortByCountDesc(Tally(refs));
            forall p :: 0 <= p < |r| ==> Counted(refs, r[p])
  {
    var t := Tally(refs);
    var r := SortByCountDesc(t);
    forall p | 0 <= p < |r|
      ensures Counted(refs, r[p])
    {
      assert r[p] in multiset(t);
      var a :| 0 <= a < |t| && t[a] == r[p];
      TallyEntry(refs, a);
    }
  }

  /** Entries with equal counts stay in order of first occurrence. */
  lemma SortedTallyTies(refs: seq<TagRef>)
    ensures var r := SortByCountDesc(Tally(refs));
            forall p, q :: 0 <= p < q < |r| && r[p].count == r[q].count ==> SeenBefore(refs, r[p].name, r[q].name)
  {
    var t := Tally(refs);
    var r := SortByCountDesc(t);
    forall p, q | 0 <= p < q < |r| && r[p].count == r[q].count
      ensures SeenBefore(refs, r[p].name, r[q].name)
    {
      assert Before(t, r[p], r[q]);
      var a, b :| 0 <= a < b < |t| && t[a] == r[p] && t[b] == r[q];
      TallyOrder(refs, a, b);
    }
  }

  /** The sorted tally has one entry per distinct name. */
  lemma SortedTallyDistinct(refs: seq<TagRef>)
    ensures DistinctNames(SortByCountDesc(Tally(refs)))
    ensures |SortByCountDesc(Tally(refs))| == |Names(refs)|
  {
    TallyNames(refs);
    PermutationKeepsDistinct(SortByCountDesc(Tally(refs)), Tally(refs));
  }

  /** A permutation of a list with distinct names has distinct names and the same length. */
  lemma PermutationKeepsDistinct(a: seq<TagCount>, b: seq<TagCount>)
    requires multiset(a) == multiset(b) && DistinctNames(b)
    ensures DistinctNames(a) && |a| == |b|
  {
    assert |a| == |multiset(a)| == |multiset(b)| == |b|;
    forall p, q | 0 <= p < q < |a|
      ensures a[p].name != a[q].name
    {
      if a[p].name == a[q].name {
        assert a[p] in multiset(b) && a[q] in multiset(b);
        var x :| 0 <= x < |b| && b[x] == a[p];
        var y :| 0 <= y < |b| && b[y] == a[q];
        assert x == y;
        MultisetTwoPositions(a, p, q);
        DistinctNamesOnce(b, x);
      }
    }
  }

  /** With distinct names, each entry occurs once. */
  lemma {:induction false} DistinctNamesOnce(t: seq<TagCount>, a: nat)
    requires a < |t|
    requires DistinctNames(t)
    ensures multiset(t)[t[a]] == 1
    decreases |t|
  {
    var n := |t| - 1;
    assert t == t[..n] + [t[n]];
    if a < n {
      DistinctNamesOnce(t[..n], a);
      assert t[n] != t[a];
    } else {
      assert t[n] !in t[..n];
    }
  }

  /** `getTopInterectedTags`: an unknown user is an error raised before anything is counted;
      otherwise the populated interactions are counted, and the entries are sorted by descending
      count and sliced (`limit` defaults to 2). */
  method TopInteractedTags(users: seq<User>, interactions: seq<Interaction>, tags: seq<Tag>,
                           userId: UserId, limit: Option<int>) returns (r: Result<seq<TagCount>, Error>)
    ensures UserIndex(users, userId).None? ==> r == Err(UserNotFound)
    ensures UserIndex(users, userId).Some? ==>
              r == Ok(TopTags(Flatten(UserRefGroups(interactions, tags, userId)), limit.GetOr(2)))
  {
    if UserIndex(users, userId).None? {
      return Err(UserNotFound);
    }
    var entries := CountTags(UserRefGroups(interactions, tags, userId));
    r := Ok(SliceTo(SortByCountDesc(entries), limit.GetOr(2)));
  }

  /** The nested loops of `getTopInterectedTags`: for each interaction, for each of its tags, the
      first id seen for the name is kept and the name's count goes up (a new name is added to the
      keys with count 1); then the keys are mapped, in insertion order, to their entries. */
  method CountTags(groups: seq<seq<TagRef>>) returns (entries: seq<TagCount>)
    ensures entries == Tally(Flatten(groups))
  {
    var freq: map<string, nat> := map[];
    var idOf: map<string, TagId> := map[];
    var keys: seq<string> := [];
    var i := 0;
    ghost var done: seq<TagRef> := [];
    while i < |groups|
      invariant 0 <= i <= |groups|
      invariant done == Flatten(groups[..i])
      invariant Dictionaries(done, keys, freq, idOf)
    {
      var group := groups[i];
      var j := 0;
      ghost var before := done;
      while j < |group|
        invariant 0 <= j <= |group|
        invariant done == before + group[..j]
        invariant Dictionaries(done, keys, freq, idOf)
      {
        var tag := group[j];
        if tag.name !in freq {
          DictionariesAdd(done, tag, keys, freq, idOf);
        } else {
          DictionariesBump(done, tag, keys, freq, idOf);
        }
        if tag.name !in idOf {
          idOf := idOf[tag.name := tag.id];
        }
        if tag.name !in freq {
          freq := freq[tag.name := 1];
          keys := keys + [tag.name];
        } else {
          freq := freq[tag.name := freq[tag.name] + 1];
        }
        PrefixStep(group, j);
        done := done + [tag];
        j := j + 1;
      }
      assert group[..j] == group;
      FlattenStep(groups, i);
      i := i + 1;
    }
    assert groups[..i] == groups;
    entries := seq(|keys|, k requires 0 <= k < |keys| => TagCount(idOf[keys[k]], keys[k], freq[keys[k]]));
  }

  lemma PrefixStep<T>(s: seq<T>, j: nat)
    requires j < |s|
    ensures s[..j + 1] == s[..j] + [s[j]]
  {
  }

  /** The loop invariant: `keys`, `freq` and `idOf` are the dictionary `Tally` describes for the
      references processed so far. */
  ghost predicate Dictionaries(done: seq<TagRef>, keys: seq<string>, freq: map<string, nat>, idOf: map<string, TagId>) {
    var t := Tally(done);
    && (forall n :: n in freq <==> n in keys)
    && (forall n :: n in idOf <==> n in keys)
    && Entries(t, keys, freq, idOf)
  }

  /** One iteration of the inner loop keeps the invariant.
      A name seen before: its count goes up by one. */
  lemma DictionariesBump(done: seq<TagRef>, tag: TagRef, keys: seq<string>,
                         freq: map<string, nat>, idOf: map<string, TagId>)
    requires Dictionaries(done, keys, freq, idOf) && tag.name in freq
    ensures tag.name in idOf
    ensures Dictionaries(done + [tag], keys, freq[tag.name := freq[tag.name] + 1], idOf)
  {
    var t := Tally(done);
    TallyAppend(done, tag);
    var k0 :| 0 <= k0 < |keys| && keys[k0] == tag.name;
    assert t[k0].name == tag.name;
    var k := NameIndex(t, tag.name).value;
    assert Bump(t, tag) == t[k := t[k].(count := t[k].count + 1)];
    forall j | 0 <= j < |keys| && j != k
      ensures keys[j] != keys[k]
    {
      if j < k {
        TallyDistinct(done, j, k);
      } else {
        TallyDistinct(done, k, j);
      }
    }
    EntriesBump(t, keys, freq, idOf, k);
  }

  /** A new name: it is appended to the keys with count 1 and this reference's id. */
  lemma DictionariesAdd(done: seq<TagRef>, tag: TagRef, keys: seq<string>,
                        freq: map<string, nat>, idOf: map<string, TagId>)
    requires Dictionaries(done, keys, freq, idOf) && tag.name !in freq
    ensures tag.name !in idOf
    ensures Dictionaries(done + [tag], keys + [tag.name], freq[tag.name := 1], idOf[tag.name := tag.id])
  {
    var t := Tally(done);
    TallyAppend(done, tag);
    assert forall k :: 0 <= k < |keys| ==> t[k].name == keys[k] && keys[k] != tag.name;
    assert NameIndex(t, tag.name).None?;
    assert Tally(done + [tag]) == t + [TagCount(tag.id, tag.name, 1)];
    EntriesAppend(t, keys, freq, idOf, TagCount(tag.id, tag.name, 1));
  }

  /** Entry `k` of the tally is the `k`-th key with its id and count from the two maps. */
  ghost predicate Entries(t: seq<TagCount>, keys: seq<string>, freq: map<string, nat>, idOf: map<string, TagId>) {
    && |keys| == |t|
    && forall k :: 0 <= k < |keys| ==>
         keys[k] in freq && keys[k] in idOf && t[k] == TagCount(idOf[keys[k]], keys[k], freq[keys[k]])
  }

  /** Raising the count of the `k`-th key, whose name no other key has, raises its entry's count. */
  lemma EntriesBump(t: seq<TagCount>, keys: seq<string>, freq: map<string, nat>,
                    idOf: map<string, TagId>, k: nat)
    requires Entries(t, keys, freq, idOf) && k < |keys|
    requires forall j :: 0 <= j < |keys| && j != k ==> keys[j] != keys[k]
    ensures Entries(t[k := t[k].(count := t[k].count + 1)], keys, freq[keys[k] := freq[keys[k]] + 1], idOf)
  {
  }

  /** Appending a new name to the keys and both maps appends its entry. */
  lemma EntriesAppend(t: seq<TagCount>, keys: seq<string>, freq: map<string, nat>,
                      idOf: map<string, TagId>, c: TagCount)
    requires Entries(t, keys, freq, idOf) && c.name !in keys
    ensures Entries(t + [c], keys + [c.name], freq[c.name := c.count], idOf[c.name := c.id])
  {
    var t', keys' := t + [c], keys + [c.name];
    var freq', idOf' := freq[c.name := c.count], idOf[c.name := c.id];
    forall k | 0 <= k < |keys'|
      ensures keys'[k] in freq' && keys'[k] in idOf' && t'[k] == TagCount(idOf'[keys'[k]], keys'[k], freq'[keys'[k]])
    {
      if k < |keys| {
        assert keys'[k] == keys[k] && t'[k] == t[k] && keys[k] != c.name;
      }
    }
  }

  // ---- getAllTags ----

  /** The tag search clause (`name` contains the query, ignoring case; empty matches all). */
  predicate TagMatches(t: Tag, searchQuery: Option<string>) {
    match searchQuery
    case None => true
    case Some(s) => s == "" || ContainsIgnoreCase(t.name, s)
  }

  function TagSearch(tags: seq<Tag>, searchQuery: Option<string>): seq<Tag> {
    Filter(tags, (t: Tag) => TagMatches(t, searchQuery))
  }

  /** `getAllTags` over the tags in the order the filter sorts them (`page` 1 and `pageSize` 4
      by default): the "popular" branch pages the aggregate and never reports a next page; the
      other branches page by count. */
  function GetAllTags(tags: seq<Tag>, searchQuery: Option<string>, filter: Option<string>,
                      page: Option<int>, pageSize: Option<int>): (r: Page<Tag>)
    requires page.GetOr(1) >= 1 && pageSize.GetOr(4) >= 1
    ensures |r.items| <= pageSize.GetOr(4)
    ensures forall t :: t in r.items ==> t in tags && TagMatches(t, searchQuery)
    ensures r.items == CountPage(TagSearch(tags, searchQuery), page.GetOr(1), pageSize.GetOr(4)).items
    ensures filter == Some("popular") ==> !r.isNext
    ensures filter != Some("popular") ==>
              (r.isNext <==> |TagSearch(tags, searchQuery)| > page.GetOr(1) * pageSize.GetOr(4))
  {
    var all := TagSearch(tags, searchQuery);
    var page, pageSize := page.GetOr(1), pageSize.GetOr(4);
    PopularPageNeverNext(all, page, pageSize);
    CountPageNext(all, page, pageSize);
    if filter == Some("popular") then PopularPage(all, page, pageSize) else CountPage(all, page, pageSize)
  }

  // ---- getQuestionsByTagId ----

  datatype TagQuestions = TagQuestions(tagTitle: string, questions: seq<Question>, isNext: bool)

  /** The populate `match`: the title contains the query, ignoring case (no query matches all). */
  predicate TitleMatches(q: Question, searchQuery: Option<string>) {
    match searchQuery
    case None => true
    case Some(s) => s == "" || ContainsIgnoreCase(q.title, s)
  }

  /** The tag's questions that pass the title search, in the order of `questions` (newest first). */
  function TagQuestionList(questions: seq<Question>, tag: Tag, searchQuery: Option<string>): seq<Question> {
    Filter(questions, (q: Question) => q.id in tag.questions && TitleMatches(q, searchQuery))
  }

  /** `getQuestionsByTagId` (`page` 1 and `pageSize` 10 by default): an unknown tag is an error;
      otherwise an over-fetched page of the tag's questions, returned untrimmed. */
  function GetQuestionsByTagId(tags: seq<Tag>, questions: seq<Question>, tagId: TagId, searchQuery: Option<string>,
                               page: Option<int>, pageSize: Option<int>): (r: Result<TagQuestions, Error>)
    requires page.GetOr(1) >= 1 && pageSize.GetOr(10) >= 1
    ensures TagIndex(tags, tagId).None? <==> r == Err(TagNotFound)
    ensures r.Err? ==> r.error == TagNotFound
    ensures r.Ok? ==>
              var tag := tags[TagIndex(tags, tagId).value];
              var all := TagQuestionList(questions, tag, searchQuery);
              && r.value.tagTitle == tag.name
              && |r.value.questions| <= pageSize.GetOr(10) + 1
              && r.value.questions == OverFetchPage(all, page.GetOr(1), pageSize.GetOr(10)).items
              && (forall q :: q in r.value.questions ==> q in questions && q.id in tag.questions && TitleMatches(q, searchQuery))
              && (r.value.isNext <==> |all| > page.GetOr(1) * pageSize.GetOr(10))
              && (r.value.isNext <==> |r.value.questions| == pageSize.GetOr(10) + 1)
  {
    match TagIndex(tags, tagId)
    case None => Err(TagNotFound)
    case Some(k) =>
      var all := TagQuestionList(questions, tags[k], searchQuery);
      var p := OverFetchPage(all, page.GetOr(1), pageSize.GetOr(10));
      OverFetchShowsNextPageItem(all, page.GetOr(1), pageSize.GetOr(10));
      CountPageNext(all, page.GetOr(1), pageSize.GetOr(10));
      assert forall q :: q in p.items ==> q in all;
      Ok(TagQuestions(tags[k].name, p.items, p.isNext))
  }

  // ---- getRelatedTags ----

  datatype RelatedTag = RelatedTag(id: string, name: string, questionCount: nat)

  /** The fixed list `getRelatedTags` draws from. */
  const MockRelatedTags: seq<RelatedTag> := [
    RelatedTag("1", "javascript", 120), RelatedTag("2", "react", 85),
    RelatedTag("3", "typescript", 64), RelatedTag("4", "nextjs", 42),
    RelatedTag("5", "tailwindcss", 38), RelatedTag("6", "node.js", 32),
    RelatedTag("7", "mongodb", 28), RelatedTag("8", "css", 25),
    RelatedTag("9", "html", 22), RelatedTag("10", "redux", 18)
  ]

  /** The list without the entries whose id is `tagId`, in order. */
  function OtherTags(list: seq<RelatedTag>, tagId: string): seq<RelatedTag> {
    Filter(list, (t: RelatedTag) => t.id != tagId)
  }

  /** The body of `getRelatedTags` over a list: `list.filter(tag => tag._id !== tagId)` then
      `slice(0, limit)`. */
  function RelatedTags(list: seq<RelatedTag>, tagId: string, limit: int): (r: seq<RelatedTag>)
    ensures forall t :: t in r ==> t in list && t.id != tagId
    ensures IsSubsequence(r, list)
    ensures |r| <= |OtherTags(list, tagId)| && r == OtherTags(list, tagId)[..|r|]
    ensures 0 <= limit ==>
              |r| == if limit < |OtherTags(list, tagId)| then limit else |OtherTags(list, tagId)|
  {
    var others := OtherTags(list, tagId);
    var r := SliceTo(others, limit);
    SubsequenceOfPrefix(others, list, |r|);
    r
  }

  /** `getRelatedTags` (`limit` 5 by default) draws from the fixed list. */
  function GetRelatedTags(tagId: string, limit: Option<int>): (r: seq<RelatedTag>)
    ensures forall t :: t in r ==> t.id != tagId
    ensures 0 <= limit.GetOr(5) ==> |r| <= limit.GetOr(5)
  {
    RelatedTags(MockRelatedTags, tagId, limit.GetOr(5))
  }

  /** An id outside the list removes nothing, so the default call returns the first five. */
  lemma RelatedTagsUnknownId(tagId: string)
    requires forall t :: t in MockRelatedTags ==> t.id != tagId
    ensures GetRelatedTags(tagId, None) == MockRelatedTags[..5]
  {
    FilterKeepsAll(MockRelatedTags, (t: RelatedTag) => t.id != tagId);
  }
}
