/** The pure side of the question actions: the tag find-or-create loop of `createQuestion`,
    the collection updates of `deleteQuestion`, and the `getQuestions` and
    `getRecommendedQuestions` queries. The store methods that apply the updates live in
    module Store. */
module QuestionActions {
  import opened Wrappers
  import opened Seqs
  import opened Text
  import opened Entities
  import opened Paging

  // ---- createQuestion: find or create each tag ----

  /** The tag `Tag.findOneAndUpdate({ name: /^name$/i }, ...)` finds: the first whose name
      equals `name` ignoring case. */
  function FindTagByName(tags: seq<Tag>, name: string): Option<nat> {
    FirstIndex(tags, (t: Tag) => EqualsIgnoreCase(t.name, name))
  }

  datatype Upsert = Upsert(tags: seq<Tag>, id: TagId, nextId: Id)

  /** One upsert of the loop: a matching tag gets `qid` pushed onto its `questions`; otherwise a
      tag with this exact spelling, a fresh id and `questions = [qid]` is inserted. */
  function UpsertTag(tags: seq<Tag>, name: string, qid: QuestionId, nextId: Id): (r: Upsert)
    ensures FindTagByName(tags, name).Some? ==>
              |r.tags| == |tags| && r.nextId == nextId && r.id == tags[FindTagByName(tags, name).value].id
    ensures FindTagByName(tags, name).None? ==>
              |r.tags| == |tags| + 1 && r.nextId == nextId + 1 && r.id == nextId && r.tags[|tags|].name == name
  {
    match FindTagByName(tags, name)
    case Some(k) => Upsert(tags[k := tags[k].(questions := tags[k].questions + [qid])], tags[k].id, nextId)
    case None => Upsert(tags + [Tag(nextId, name, [qid])], nextId, nextId + 1)
  }

  /** `id` names a tag of `tags` whose name matches `name` ignoring case and which lists `qid`. */
  ghost predicate ResolvesTo(tags: seq<Tag>, id: TagId, name: string, qid: QuestionId) {
    exists k :: 0 <= k < |tags| && tags[k].id == id && EqualsIgnoreCase(tags[k].name, name) && qid in tags[k].questions
  }

  /** One upsert keeps the tag collection valid, pushes `qid` onto exactly the tag it returns,
      and returns the existing match when there is one. */
  lemma UpsertTagStep(tags: seq<Tag>, name: string, qid: QuestionId, nextId: Id)
    requires ValidTags(tags, nextId)
    ensures var u := UpsertTag(tags, name, qid, nextId);
            && ValidTags(u.tags, u.nextId)
            && nextId <= u.nextId
            && |tags| <= |u.tags| <= |tags| + 1
            && (forall k :: 0 <= k < |tags| ==>
                  u.tags[k].id == tags[k].id && u.tags[k].name == tags[k].name
                  && u.tags[k].questions == tags[k].questions + (if tags[k].id == u.id then [qid] else []))
            && (|u.tags| == |tags| + 1 ==> u.tags[|tags|] == Tag(nextId, name, [qid]) && u.id == nextId)
            && ResolvesTo(u.tags, u.id, name, qid)
            && (forall k :: 0 <= k < |tags| && EqualsIgnoreCase(tags[k].name, name) ==> u.id == tags[k].id)
  {
    var u := UpsertTag(tags, name, qid, nextId);
    match FindTagByName(tags, name)
    case Some(k0) =>
      assert EqualsIgnoreCase(tags[k0].name, name);
      assert u.tags[k0].id == u.id && qid in u.tags[k0].questions;
      forall k | 0 <= k < |tags| && EqualsIgnoreCase(tags[k].name, name)
        ensures u.id == tags[k].id
      {
        assert EqualsIgnoreCase(tags[k].name, tags[k0].name) && EqualsIgnoreCase(tags[k0].name, tags[k].name);
        assert k == k0;
      }
    case None =>
      assert u.tags[|tags|] == Tag(nextId, name, [qid]);
      forall k | 0 <= k < |tags|
        ensures !EqualsIgnoreCase(tags[k].name, name)
      {
        assert !(((t: Tag) => EqualsIgnoreCase(t.name, name))(tags[k]));
      }
  }

  datatype Resolution = Resolution(tags: seq<Tag>, ids: seq<TagId>, nextId: Id)

  /** The loop of `createQuestion` over the tag names, in order: each name is upserted into
      the collection left by the names before it, and its tag id is collected. */
  function ResolveTags(tags: seq<Tag>, names: seq<string>, qid: QuestionId, nextId: Id): (r: Resolution)
    ensures |r.ids| == |names|
    ensures nextId <= r.nextId <= nextId + |names|
    ensures |tags| <= |r.tags| == |tags| + (r.nextId - nextId)
    decreases |names|
  {
    if names == [] then Resolution(tags, [], nextId)
    else
      var prev := ResolveTags(tags, names[..|names| - 1], qid, nextId);
      var u := UpsertTag(prev.tags, names[|names| - 1], qid, prev.nextId);
      Resolution(u.tags, prev.ids + [u.id], u.nextId)
  }

  /** What the loop of `createQuestion` establishes, starting from `tags`:
      - the collection stays valid and only grows, and one id per name is collected;
      - each collected id names a tag matching its name (ignoring case) that lists `qid`;
      - a name that matched a tag already present resolves to that tag;
      - every tag present before keeps its id and name, and gains `qid` once per name
        resolved to it;
      - every tag added has a fresh id, is named with the exact spelling of one of the names, and lists `qid` once per name resolved to it. */
  ghost predicate Resolved(tags: seq<Tag>, names: seq<string>, qid: QuestionId, nextId: Id, res: Resolution) {
    ResolvedIds(tags, names, qid, nextId, res) && ResolvedTags(tags, names, qid, nextId, res)
  }

  /** The first half of `Resolved`: validity, sizes, and what each collected id names. */
  ghost predicate ResolvedIds(tags: seq<Tag>, names: seq<string>, qid: QuestionId, nextId: Id, res: Resolution) {
    && ValidTags(res.tags, res.nextId) && nextId <= res.nextId
    && |tags| <= |res.tags| && |res.ids| == |names|
    && (forall j :: 0 <= j < |names| ==> ResolvesTo(res.tags, res.ids[j], names[j], qid))
    && (forall j, k :: 0 <= j < |names| && 0 <= k < |tags| && EqualsIgnoreCase(tags[k].name, names[j]) ==>
          res.ids[j] == tags[k].id)
  }

  /** The second half of `Resolved`: what became of the tags present before and of those added. */
  ghost predicate ResolvedTags(tags: seq<Tag>, names: seq<string>, qid: QuestionId, nextId: Id, res: Resolution) {
    && |tags| <= |res.tags|
    && (forall k :: 0 <= k < |tags| ==>
          res.tags[k].id == tags[k].id && res.tags[k].name == tags[k].name
          && res.tags[k].questions == tags[k].questions + Copies(qid, multiset(res.ids)[tags[k].id]))
    && (forall k :: |tags| <= k < |res.tags| ==>
          nextId <= res.tags[k].id
          && res.tags[k].name in names
          && res.tags[k].questions == Copies(qid, multiset(res.ids)[res.tags[k].id]))
  }

  /** Every id collected so far names a tag of the collection, so it is below `nextId`. */
  lemma ResolvedIdsBelow(tags: seq<Tag>, names: seq<string>, qid: QuestionId, nextId: Id, res: Resolution)
    requires Resolved(tags, names, qid, nextId, res)
    ensures forall j :: 0 <= j < |res.ids| ==> res.ids[j] < res.nextId
    ensures multiset(res.ids)[res.nextId] == 0
  {
    forall j | 0 <= j < |res.ids|
      ensures res.ids[j] < res.nextId
    {
      assert ResolvesTo(res.tags, res.ids[j], names[j], qid);
      var k :| 0 <= k < |res.tags| && res.tags[k].id == res.ids[j] && EqualsIgnoreCase(res.tags[k].name, names[j])
               && qid in res.tags[k].questions;
    }
    assert res.nextId !in res.ids;
  }

  /** The loop of `createQuestion` resolves every name as described by `Resolved`. */
  lemma {:induction false} ResolveTagsSound(tags: seq<Tag>, names: seq<string>, qid: QuestionId, nextId: Id)
    requires ValidTags(tags, nextId)
    ensures Resolved(tags, names, qid, nextId, ResolveTags(tags, names, qid, nextId))
    decreases |names|
  {
    if names != [] {
      var init := names[..|names| - 1];
      var name := names[|names| - 1];
      assert names == init + [name];
      ResolveTagsSound(tags, init, qid, nextId);
      ResolveStep(tags, init, name, qid, nextId, ResolveTags(tags, init, qid, nextId));
    }
  }

  /** One more name: the upsert of `name` into what the names before it left. */
  lemma ResolveStep(tags: seq<Tag>, init: seq<string>, name: string, qid: QuestionId, nextId: Id, prev: Resolution)
    requires Resolved(tags, init, qid, nextId, prev)
    ensures var u := UpsertTag(prev.tags, name, qid, prev.nextId);
            Resolved(tags, init + [name], qid, nextId, Resolution(u.tags, prev.ids + [u.id], u.nextId))
  {
    ResolveStepIds(tags, init, name, qid, nextId, prev);
    ResolveStepTags(tags, init, name, qid, nextId, prev);
  }

  lemma ResolveStepIds(tags: seq<Tag>, init: seq<string>, name: string, qid: QuestionId, nextId: Id, prev: Resolution)
    requires Resolved(tags, init, qid, nextId, prev)
    ensures var u := UpsertTag(prev.tags, name, qid, prev.nextId);
            ResolvedIds(tags, init + [name], qid, nextId, Resolution(u.tags, prev.ids + [u.id], u.nextId))
  {
    UpsertTagStep(prev.tags, name, qid, prev.nextId);
    var u := UpsertTag(prev.tags, name, qid, prev.nextId);
    StepResolves(init, name, qid, prev.tags, prev.ids, u.tags, u.id);
    StepMatches(init, name, tags, prev.tags, prev.ids, u.id);
  }

  lemma ResolveStepTags(tags: seq<Tag>, init: seq<string>, name: string, qid: QuestionId, nextId: Id, prev: Resolution)
    requires Resolved(tags, init, qid, nextId, prev)
    ensures var u := UpsertTag(prev.tags, name, qid, prev.nextId);
            ResolvedTags(tags, init + [name], qid, nextId, Resolution(u.tags, prev.ids + [u.id], u.nextId))
  {
    ResolvedIdsBelow(tags, init, qid, nextId, prev);
    UpsertTagStep(prev.tags, name, qid, prev.nextId);
    var u := UpsertTag(prev.tags, name, qid, prev.nextId);
    StepOldTags(tags, qid, prev.tags, prev.ids, u.tags, u.id);
    StepNewTags(init, name, init + [name], qid, nextId, |tags|, prev.tags, prev.ids, prev.ids + [u.id], prev.nextId, u.tags, u.id);
  }

  /** A name resolved before stays resolved: ids and names are kept and `qid` is not removed. */
  lemma StepResolves(init: seq<string>, name: string, qid: QuestionId,
                     before: seq<Tag>, ids: seq<TagId>, after: seq<Tag>, id: TagId)
    requires |ids| == |init|
    requires forall j :: 0 <= j < |init| ==> ResolvesTo(before, ids[j], init[j], qid)
    requires |before| <= |after|
    requires forall k :: 0 <= k < |before| ==>
               after[k].id == before[k].id && after[k].name == before[k].name
               && (qid in before[k].questions ==> qid in after[k].questions)
    requires ResolvesTo(after, id, name, qid)
    ensures forall j :: 0 <= j < |init| + 1 ==> ResolvesTo(after, (ids + [id])[j], (init + [name])[j], qid)
  {
    forall j | 0 <= j < |init| + 1
      ensures ResolvesTo(after, (ids + [id])[j], (init + [name])[j], qid)
    {
      if j < |init| {
        var k :| 0 <= k < |before| && before[k].id == ids[j] && EqualsIgnoreCase(before[k].name, init[j])
                 && qid in before[k].questions;
        assert after[k].id == ids[j] && EqualsIgnoreCase(after[k].name, init[j]) && qid in after[k].questions;
      }
    }
  }

  /** A name matching a tag present from the start resolves to that tag. */
  lemma StepMatches(init: seq<string>, name: string, tags: seq<Tag>, before: seq<Tag>, ids: seq<TagId>, id: TagId)
    requires |ids| == |init| && |tags| <= |before|
    requires forall j, k :: 0 <= j < |init| && 0 <= k < |tags| && EqualsIgnoreCase(tags[k].name, init[j]) ==>
               ids[j] == tags[k].id
    requires forall k :: 0 <= k < |tags| ==> before[k].id == tags[k].id && before[k].name == tags[k].name
    requires forall k :: 0 <= k < |before| && EqualsIgnoreCase(before[k].name, name) ==> id == before[k].id
    ensures forall j, k :: 0 <= j < |init| + 1 && 0 <= k < |tags| && EqualsIgnoreCase(tags[k].name, (init + [name])[j]) ==>
              (ids + [id])[j] == tags[k].id
  {
    forall j, k | 0 <= j < |init| + 1 && 0 <= k < |tags| && EqualsIgnoreCase(tags[k].name, (init + [name])[j])
      ensures (ids + [id])[j] == tags[k].id
    {
      if j < |init| {
        assert (init + [name])[j] == init[j] && (ids + [id])[j] == ids[j];
      } else {
        assert EqualsIgnoreCase(before[k].name, name);
      }
    }
  }

  /** A tag present from the start gains `qid` once more exactly when the name resolves to it. */
  lemma StepOldTags(tags: seq<Tag>, qid: QuestionId, before: seq<Tag>, ids: seq<TagId>, after: seq<Tag>, id: TagId)
    requires |tags| <= |before| <= |after|
    requires forall k :: 0 <= k < |tags| ==>
               before[k].id == tags[k].id && before[k].name == tags[k].name
               && before[k].questions == tags[k].questions + Copies(qid, multiset(ids)[tags[k].id])
    requires forall k :: 0 <= k < |before| ==>
               after[k].id == before[k].id && after[k].name == before[k].name
               && after[k].questions == before[k].questions + (if before[k].id == id then [qid] else [])
    ensures forall k :: 0 <= k < |tags| ==>
              after[k].id == tags[k].id && after[k].name == tags[k].name
              && after[k].questions == tags[k].questions + Copies(qid, multiset(ids + [id])[tags[k].id])
  {
    forall k | 0 <= k < |tags|
      ensures after[k].questions == tags[k].questions + Copies(qid, multiset(ids + [id])[tags[k].id])
    {
      var m := multiset(ids)[tags[k].id];
      CopiesAppend(qid, m);
      assert multiset(ids + [id])[tags[k].id] == m + (if tags[k].id == id then 1 else 0);
      if tags[k].id == id {
        assert after[k].questions == tags[k].questions + Copies(qid, m) + [qid];
      }
    }
  }

  /** A tag added by the loop has a fresh id, the spelling of a name resolved to it, and
      `qid` once per such name. */
  lemma StepNewTags(init: seq<string>, name: string, names: seq<string>, qid: QuestionId, nextId: Id, n: nat,
                    before: seq<Tag>, ids: seq<TagId>, newIds: seq<TagId>, bNext: Id, after: seq<Tag>, id: TagId)
    requires names == init + [name] && newIds == ids + [id]
    requires |ids| == |init| && n <= |before| <= |after| <= |before| + 1
    requires nextId <= bNext && multiset(ids)[bNext] == 0
    requires forall k :: n <= k < |before| ==>
               nextId <= before[k].id
               && before[k].name in init
               && before[k].questions == Copies(qid, multiset(ids)[before[k].id])
    requires forall k :: 0 <= k < |before| ==>
               after[k].id == before[k].id && after[k].name == before[k].name
               && after[k].questions == before[k].questions + (if before[k].id == id then [qid] else [])
    requires |after| == |before| + 1 ==> after[|before|] == Tag(bNext, name, [qid]) && id == bNext
    ensures forall k :: n <= k < |after| ==>
              nextId <= after[k].id
              && (after[k].name in names)
              && after[k].questions == Copies(qid, multiset(newIds)[after[k].id])
  {
    forall k | n <= k < |after|
      ensures nextId <= after[k].id
      ensures after[k].name in names
      ensures after[k].questions == Copies(qid, multiset(newIds)[after[k].id])
    {
      var m := multiset(ids)[after[k].id];
      assert multiset(newIds)[after[k].id] == m + (if after[k].id == id then 1 else 0);
      if k < |before| {
        CopiesAppend(qid, m);
      } else {
        assert Copies(qid, 1) == [qid];
      }
    }
  }

  // ---- deleteQuestion ----

  /** `Question.deleteOne({ _id: id })`: the first question with that id goes; with unique ids
      none is left, and every other question stays, in order. */
  function RemoveQuestion(questions: seq<Question>, id: QuestionId): (r: seq<Question>)
    ensures |r| == |questions| - (if QuestionIndex(questions, id).Some? then 1 else 0)
    ensures IsSubsequence(r, questions)
    ensures forall q :: q in questions && q.id != id ==> q in r
    ensures UniqueQuestionIds(questions) ==> UniqueQuestionIds(r) && forall q :: q in r ==> q.id != id
  {
    match QuestionIndex(questions, id)
    case None =>
      SubsequenceOfSelf(questions);
      questions
    case Some(k) =>
      var r := questions[..k] + questions[k + 1..];
      assert forall i :: 0 <= i < |r| ==> r[i] == questions[if i < k then i else i + 1];
      assert forall q :: q in questions && q.id != id ==> q in r by {
        forall q | q in questions && q.id != id
          ensures q in r
        {
          var i :| 0 <= i < |questions| && questions[i] == q;
          assert i != k;
          assert r[if i < k then i else i - 1] == q;
        }
      }
      RemoveAtIsSubsequence(questions, k);
      r
  }

  /** `Answer.deleteMany({ question: id })`. */
  function RemoveAnswersOf(answers: seq<Answer>, id: QuestionId): (r: seq<Answer>)
    ensures forall a :: a in r <==> a in answers && a.question != id
    ensures IsSubsequence(r, answers)
  {
    Filter(answers, (a: Answer) => a.question != id)
  }

  /** `Interaction.deleteMany({ question: id })`. */
  function RemoveInteractionsOf(interactions: seq<Interaction>, id: QuestionId): (r: seq<Interaction>)
    ensures forall i :: i in r <==> i in interactions && i.question != Some(id)
    ensures IsSubsequence(r, interactions)
  {
    Filter(interactions, (i: Interaction) => i.question != Some(id))
  }

  /** `Tag.updateMany({ questions: id }, { $pull: { questions: id } })`: no tag lists `id`
      afterwards, and every other entry of every tag keeps its multiplicity. */
  function PullQuestionFromTags(tags: seq<Tag>, id: QuestionId): (r: seq<Tag>)
    ensures |r| == |tags|
    ensures forall k :: 0 <= k < |r| ==>
              r[k].id == tags[k].id && r[k].name == tags[k].name && id !in r[k].questions
    ensures forall k, x :: 0 <= k < |r| && x != id ==>
              multiset(r[k].questions)[x] == multiset(tags[k].questions)[x]
  {
    seq(|tags|, k requires 0 <= k < |tags| => tags[k].(questions := Pull(tags[k].questions, id)))
  }

  // ---- getQuestions ----

  /** The search clause: an absent or empty query matches everything; otherwise the title or
      the content must contain it, ignoring case. */
  predicate MatchesSearch(title: string, content: string, searchQuery: Option<string>) {
    match searchQuery
    case None => true
    case Some(s) => s == "" || ContainsIgnoreCase(title, s) || ContainsIgnoreCase(content, s)
  }

  function SearchResults(questions: seq<Question>, searchQuery: Option<string>): seq<Question> {
    Filter(questions, (q: Question) => MatchesSearch(q.title, q.content, searchQuery))
  }

  /** `getQuestions`: search, then a count-based page (`page` defaults to 1, `pageSize` to 20)
      over the questions in the order given. */
  function GetQuestions(questions: seq<Question>, searchQuery: Option<string>,
                        page: Option<int>, pageSize: Option<int>): (r: Page<Question>)
    requires page.GetOr(1) >= 1 && pageSize.GetOr(20) >= 1
    ensures |r.items| <= pageSize.GetOr(20)
    ensures forall q :: q in r.items ==> q in questions && MatchesSearch(q.title, q.content, searchQuery)
    ensures r.isNext <==> |SearchResults(questions, searchQuery)| > page.GetOr(1) * pageSize.GetOr(20)
    ensures r.items == CountPage(SearchResults(questions, searchQuery), page.GetOr(1), pageSize.GetOr(20)).items
    ensures searchQuery.None? ==> r.items == CountPage(questions, page.GetOr(1), pageSize.GetOr(20)).items
  {
    var all := SearchResults(questions, searchQuery);
    CountPageNext(all, page.GetOr(1), pageSize.GetOr(20));
    assert searchQuery.None? ==> all == questions by {
      if searchQuery.None? {
        FilterKeepsAll(questions, (q: Question) => MatchesSearch(q.title, q.content, searchQuery));
      }
    }
    CountPage(all, page.GetOr(1), pageSize.GetOr(20))
  }

  // ---- getRecommendedQuestions ----

  /** The distinct tag ids of the user's interactions; populating the tags drops ids whose tag
      no longer exists. */
  function UserTagIds(interactions: seq<Interaction>, tags: seq<Tag>, user: UserId): set<TagId> {
    set i, t | i in interactions && t in i.tags && i.user == user && (exists tg :: tg in tags && tg.id == t) :: t
  }

  /** The query: a tag in common (`$in`), another author (`$ne`) and the search clause. */
  predicate Recommendable(q: Question, tagIds: set<TagId>, user: UserId, searchQuery: Option<string>) {
    (exists t :: t in q.tags && t in tagIds) && q.author != user && MatchesSearch(q.title, q.content, searchQuery)
  }

  function Recommendations(questions: seq<Question>, tagIds: set<TagId>, user: UserId,
                           searchQuery: Option<string>): seq<Question> {
    Filter(questions, (q: Question) => Recommendable(q, tagIds, user, searchQuery))
  }

  /** `getRecommendedQuestions`: the user is looked up by clerk id (an error when absent); then a
      count-based page (`page` 1, `pageSize` 10 by default) of the questions sharing a tag with
      the user's interactions and written by someone else. */
  function GetRecommendedQuestions(users: seq<User>, interactions: seq<Interaction>, tags: seq<Tag>,
                                   questions: seq<Question>, clerkId: string, searchQuery: Option<string>,
                                   page: Option<int>, pageSize: Option<int>): (r: Result<Page<Question>, Error>)
    requires page.GetOr(1) >= 1 && pageSize.GetOr(10) >= 1
    ensures UserIndexByClerk(users, clerkId).None? <==> r == Err(UserNotFound)
    ensures r.Err? ==> r.error == UserNotFound
    ensures r.Ok? ==>
              var user := users[UserIndexByClerk(users, clerkId).value];
              && |r.value.items| <= pageSize.GetOr(10)
              && forall q :: q in r.value.items ==>
                   q in questions && q.author != user.id && MatchesSearch(q.title, q.content, searchQuery)
                   && exists t, i :: t in q.tags && i in interactions && i.user == user.id && t in i.tags
    ensures r.Ok? ==>
              var user := users[UserIndexByClerk(users, clerkId).value];
              var all := Recommendations(questions, UserTagIds(interactions, tags, user.id), user.id, searchQuery);
              && r.value.items == CountPage(all, page.GetOr(1), pageSize.GetOr(10)).items
              && (r.value.isNext <==> |all| > page.GetOr(1) * pageSize.GetOr(10))
  {
    match UserIndexByClerk(users, clerkId)
    case None => Err(UserNotFound)
    case Some(k) =>
      var tagIds := UserTagIds(interactions, tags, users[k].id);
      var all := Recommendations(questions, tagIds, users[k].id, searchQuery);
      var p := CountPage(all, page.GetOr(1), pageSize.GetOr(10));
      CountPageNext(all, page.GetOr(1), pageSize.GetOr(10));
      Ok(p)
  }

  /** A user without interactions gets an empty page with no next page. */
  lemma RecommendedWithoutInteractions(users: seq<User>, interactions: seq<Interaction>, tags: seq<Tag>,
                                       questions: seq<Question>, clerkId: string, searchQuery: Option<string>,
                                       page: Option<int>, pageSize: Option<int>)
    requires page.GetOr(1) >= 1 && pageSize.GetOr(10) >= 1
    requires UserIndexByClerk(users, clerkId).Some?
    requires forall i :: i in interactions ==> i.user != users[UserIndexByClerk(users, clerkId).value].id
    ensures GetRecommendedQuestions(users, interactions, tags, questions, clerkId, searchQuery, page, pageSize)
            == Ok(Page([], false))
  {
    var user := users[UserIndexByClerk(users, clerkId).value];
    assert UserTagIds(interactions, tags, user.id) == {};
    NoTagsNoRecommendations(questions, user.id, searchQuery);
    var none: seq<Question> := [];
    assert CountPage(none, page.GetOr(1), pageSize.GetOr(10)) == Page(none, false);
  }

  /** Without tags of interest no question is recommendable. */
  lemma NoTagsNoRecommendations(questions: seq<Question>, user: UserId, searchQuery: Option<string>)
    ensures Recommendations(questions, {}, user, searchQuery) == []
  {
  }
}
