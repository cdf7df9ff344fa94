/** The document store and the mutating actions: `upvoteQuestion`, `downvoteQuestion`,
    `createQuestion`, `deleteQuestion`, `toggleSaveQuestion` and `deleteUser`. Each
    collection is a sequence in natural order; fresh ObjectIds come from a counter. */
module Store {
  import opened Wrappers
  import opened Seqs
  import opened Entities
  import opened Votes
  import opened QuestionActions
  import opened UserActions

  /** The store's invariant: ids are unique per collection, tag names are unique ignoring case,
      and the id counter is above every question and tag id. */
  ghost predicate Consistent(users: seq<User>, questions: seq<Question>, tags: seq<Tag>, nextId: Id) {
    && UniqueUserIds(users)
    && UniqueQuestionIds(questions)
    && ValidTags(tags, nextId)
    && (forall k :: 0 <= k < |questions| ==> questions[k].id < nextId)
  }

  /** Dropping questions (keeping the others in order) keeps the invariant. */
  lemma FewerQuestionsConsistent(users: seq<User>, questions: seq<Question>, tags: seq<Tag>, nextId: Id,
                                 kept: seq<Question>)
    requires Consistent(users, questions, tags, nextId) && IsSubsequence(kept, questions)
    ensures Consistent(users, kept, tags, nextId)
  {
    SubsequenceUnique(kept, questions, (q: Question) => q.id);
    SubsequenceMembers(kept, questions);
    forall k | 0 <= k < |kept|
      ensures kept[k].id < nextId
    {
      assert kept[k] in questions;
    }
  }

  /** Removing one user keeps the invariant. */
  lemma RemoveUserConsistent(users: seq<User>, questions: seq<Question>, tags: seq<Tag>, nextId: Id, k: nat)
    requires Consistent(users, questions, tags, nextId) && k < |users|
    ensures Consistent(users[..k] + users[k + 1..], questions, tags, nextId)
  {
    RemoveAtIsSubsequence(users, k);
    SubsequenceUnique(users[..k] + users[k + 1..], users, (u: User) => u.id);
  }

  /** Changing documents without changing their ids or names keeps the invariant. */
  lemma SameKeysConsistent(users: seq<User>, questions: seq<Question>, tags: seq<Tag>, nextId: Id,
                           users': seq<User>, questions': seq<Question>, tags': seq<Tag>)
    requires Consistent(users, questions, tags, nextId)
    requires |users'| == |users| && forall k :: 0 <= k < |users| ==> users'[k].id == users[k].id
    requires |questions'| == |questions| && forall k :: 0 <= k < |questions| ==> questions'[k].id == questions[k].id
    requires |tags'| == |tags| && forall k :: 0 <= k < |tags| ==> tags'[k].id == tags[k].id && tags'[k].name == tags[k].name
    ensures Consistent(users', questions', tags', nextId)
  {
  }

  /** `createQuestion` keeps the invariant: the new question's id is the counter, and the tag
      loop leaves the tag collection valid with the counter only grown. */
  lemma CreateConsistent(users: seq<User>, questions: seq<Question>, tags: seq<Tag>, nextId: Id,
                         q: Question, names: seq<string>)
    requires Consistent(users, questions, tags, nextId) && q.id == nextId
    ensures var res := ResolveTags(tags, names, nextId, nextId + 1);
            Consistent(IncReputation(users, q.author, 5), questions + [q.(tags := res.ids)], res.tags, res.nextId)
  {
    ResolvedTagsValid(tags, names, nextId, nextId + 1);
    AppendFreshQuestion(questions, q.(tags := ResolveTags(tags, names, nextId, nextId + 1).ids), nextId);
  }

  /** The tag loop of `createQuestion` leaves the tag collection valid and the counter grown. */
  lemma ResolvedTagsValid(tags: seq<Tag>, names: seq<string>, qid: QuestionId, nextId: Id)
    requires ValidTags(tags, nextId)
    ensures var res := ResolveTags(tags, names, qid, nextId);
            ValidTags(res.tags, res.nextId) && nextId <= res.nextId
  {
    ResolveTagsSound(tags, names, qid, nextId);
  }

  /** Appending a question whose id is the counter keeps question ids unique and below the
      grown counter. */
  lemma AppendFreshQuestion(questions: seq<Question>, q: Question, nextId: Id)
    requires UniqueQuestionIds(questions) && (forall k :: 0 <= k < |questions| ==> questions[k].id < nextId)
    requires q.id == nextId
    ensures UniqueQuestionIds(questions + [q])
    ensures forall k :: 0 <= k < |questions + [q]| ==> (questions + [q])[k].id < nextId + 1
  {
    var questions' := questions + [q];
    forall i, j | 0 <= i < j < |questions'|
      ensures questions'[i].id != questions'[j].id
    {
      assert questions'[i] == questions[i];
    }
  }

  /** The loop of `createQuestion` over the tag names: each name is upserted into the tags the
      previous upserts left, and the tag ids are collected in order. */
  method UpsertTags(tags: seq<Tag>, names: seq<string>, qid: QuestionId, nextId: Id) returns (res: Resolution)
    ensures res == ResolveTags(tags, names, qid, nextId)
  {
    var current, counter: Id := tags, nextId;
    var ids: seq<TagId> := [];
    var i := 0;
    while i < |names|
      invariant 0 <= i <= |names|
      invariant Resolution(current, ids, counter) == ResolveTags(tags, names[..i], qid, nextId)
    {
      var u := UpsertTag(current, names[i], qid, counter);
      assert names[..i + 1][..i] == names[..i];
      current, counter := u.tags, u.nextId;
      ids := ids + [u.id];
      i := i + 1;
    }
    assert names[..i] == names;
    res := Resolution(current, ids, counter);
  }

  class Database {
    var users: seq<User>
    var questions: seq<Question>
    var answers: seq<Answer>
    var tags: seq<Tag>
    var interactions: seq<Interaction>
    var nextId: Id

    /** Ids are unique per collection, tag names are unique ignoring case, and the counter is
        above every question and tag id. */
    ghost predicate Valid()
      reads this
    {
      Consistent(users, questions, tags, nextId)
    }

    /** A store holding only the given users. */
    constructor(users0: seq<User>)
      requires UniqueUserIds(users0)
      ensures Valid()
      ensures users == users0 && questions == [] && answers == [] && tags == [] && interactions == []
    {
      users := users0;
      questions := [];
      answers := [];
      tags := [];
      interactions := [];
      nextId := 0;
    }

    /** `upvoteQuestion`: an unknown question is an error and nothing changes; otherwise the
        ballots get the upvote update, the voter gains 2 (loses 2 when undoing) and the author
        gains 10 (loses 10 when undoing). */
    method UpvoteQuestion(questionId: QuestionId, userId: UserId, hasAlreadyUpvoted: bool, hasAlreadyDownvoted: bool)
      returns (r: Outcome<Error>)
      requires Valid()
      modifies this
      ensures Valid()
      ensures QuestionIndex(old(questions), questionId).None? ==>
                r == Fail(QuestionNotFound) && questions == old(questions) && users == old(users)
      ensures QuestionIndex(old(questions), questionId).Some? ==>
                var k := QuestionIndex(old(questions), questionId).value;
                var q := old(questions)[k];
                var b := Votes.Upvote(Ballots(q.upvotes, q.downvotes), userId, hasAlreadyUpvoted, hasAlreadyDownvoted);
                && r == Pass
                && questions == old(questions)[k := q.(upvotes := b.upvotes, downvotes := b.downvotes)]
                && users == IncReputation(IncReputation(old(users), userId, VoterDelta(hasAlreadyUpvoted)),
                                          q.author, AuthorDelta(hasAlreadyUpvoted))
      ensures answers == old(answers) && tags == old(tags) && interactions == old(interactions)
      ensures nextId == old(nextId)
    {
      var found := QuestionIndex(questions, questionId);
      if found.None? {
        return Fail(QuestionNotFound);
      }
      var k := found.value;
      var q := questions[k];
      var b := Votes.Upvote(Ballots(q.upvotes, q.downvotes), userId, hasAlreadyUpvoted, hasAlreadyDownvoted);
      ghost var users0, questions0 := users, questions;
      questions := questions[k := q.(upvotes := b.upvotes, downvotes := b.downvotes)];
      users := IncReputation(users, userId, VoterDelta(hasAlreadyUpvoted));
      ghost var users1 := users;
      users := IncReputation(users, q.author, AuthorDelta(hasAlreadyUpvoted));
      SameKeysConsistent(users0, questions0, tags, nextId, users1, questions, tags);
      SameKeysConsistent(users1, questions, tags, nextId, users, questions, tags);
      r := Pass;
    }

    /** `downvoteQuestion`: the mirror image of `UpvoteQuestion`, undoing when the voter has
        already downvoted. */
    method DownvoteQuestion(questionId: QuestionId, userId: UserId, hasAlreadyUpvoted: bool, hasAlreadyDownvoted: bool)
      returns (r: Outcome<Error>)
      requires Valid()
      modifies this
      ensures Valid()
      ensures QuestionIndex(old(questions), questionId).None? ==>
                r == Fail(QuestionNotFound) && questions == old(questions) && users == old(users)
      ensures QuestionIndex(old(questions), questionId).Some? ==>
                var k := QuestionIndex(old(questions), questionId).value;
                var q := old(questions)[k];
                var b := Votes.Downvote(Ballots(q.upvotes, q.downvotes), userId, hasAlreadyUpvoted, hasAlreadyDownvoted);
                && r == Pass
                && questions == old(questions)[k := q.(upvotes := b.upvotes, downvotes := b.downvotes)]
                && users == IncReputation(IncReputation(old(users), userId, VoterDelta(hasAlreadyDownvoted)),
                                          q.author, AuthorDelta(hasAlreadyDownvoted))
      ensures answers == old(answers) && tags == old(tags) && interactions == old(interactions)
      ensures nextId == old(nextId)
    {
      var found := QuestionIndex(questions, questionId);
      if found.None? {
        return Fail(QuestionNotFound);
      }
      var k := found.value;
      var q := questions[k];
      var b := Votes.Downvote(Ballots(q.upvotes, q.downvotes), userId, hasAlreadyUpvoted, hasAlreadyDownvoted);
      ghost var users0, questions0 := users, questions;
      questions := questions[k := q.(upvotes := b.upvotes, downvotes := b.downvotes)];
      users := IncReputation(users, userId, VoterDelta(hasAlreadyDownvoted));
      ghost var users1 := users;
      users := IncReputation(users, q.author, AuthorDelta(hasAlreadyDownvoted));
      SameKeysConsistent(users0, questions0, tags, nextId, users1, questions, tags);
      SameKeysConsistent(users1, questions, tags, nextId, users, questions, tags);
      r := Pass;
    }

    /** `createQuestion`: the question is created with a fresh id, each tag name is found
        (ignoring case) or created in turn and lists the question, the question gets the
        collected tag ids, an "ask_question" interaction is recorded and the author gains 5. */
    method CreateQuestion(title: string, content: string, tagNames: seq<string>, author: UserId)
      returns (qid: QuestionId)
      requires Valid()
      modifies this
      ensures Valid()
      ensures qid == old(nextId)
      ensures forall q :: q in old(questions) ==> q.id != qid
      ensures forall t :: t in old(tags) ==> t.id != qid
      ensures var res := ResolveTags(old(tags), tagNames, qid, qid + 1);
              && tags == res.tags && nextId == res.nextId
              && questions == old(questions) + [Question(qid, title, content, res.ids, 0, [], [], author)]
              && interactions == old(interactions) + [Interaction(author, AskQuestion, Some(qid), None, res.ids)]
      ensures users == IncReputation(old(users), author, 5)
      ensures answers == old(answers)
    {
      qid := nextId;
      CreateConsistent(users, questions, tags, qid, Question(qid, title, content, [], 0, [], [], author), tagNames);
      var created := Question(qid, title, content, [], 0, [], [], author);
      // Each upsert sees the tags the previous ones left; the collection is written back after.
      var resolution := UpsertTags(tags, tagNames, qid, qid + 1);
      var tagDocuments := resolution.ids;
      assert created.tags + tagDocuments == tagDocuments;
      questions := questions + [created.(tags := created.tags + tagDocuments)];
      tags, nextId := resolution.tags, resolution.nextId;
      interactions := interactions + [Interaction(author, AskQuestion, Some(qid), None, tagDocuments)];
      users := IncReputation(users, author, 5);
    }

    /** `deleteQuestion`: the question goes, with its answers and interactions, and its id is
        pulled from every tag. A missing question is not an error. */
    method DeleteQuestion(questionId: QuestionId)
      requires Valid()
      modifies this
      ensures Valid()
      ensures questions == RemoveQuestion(old(questions), questionId)
      ensures answers == RemoveAnswersOf(old(answers), questionId)
      ensures interactions == RemoveInteractionsOf(old(interactions), questionId)
      ensures tags == PullQuestionFromTags(old(tags), questionId)
      ensures users == old(users) && nextId == old(nextId)
    {
      ghost var questions0, tags0 := questions, tags;
      questions := RemoveQuestion(questions, questionId);
      FewerQuestionsConsistent(users, questions0, tags0, nextId, questions);
      answers := RemoveAnswersOf(answers, questionId);
      interactions := RemoveInteractionsOf(interactions, questionId);
      tags := PullQuestionFromTags(tags, questionId);
      SameKeysConsistent(users, questions, tags0, nextId, users, questions, tags);
    }

    /** `toggleSaveQuestion`: an unknown user is an error and nothing changes; otherwise the
        question id is pulled from the user's `saved` array when present and added otherwise. */
    method ToggleSaveQuestion(userId: UserId, questionId: QuestionId) returns (r: Outcome<Error>)
      requires Valid()
      modifies this
      ensures Valid()
      ensures UserIndex(old(users), userId).None? ==> r == Fail(UserNotFound) && users == old(users)
      ensures UserIndex(old(users), userId).Some? ==>
                var k := UserIndex(old(users), userId).value;
                r == Pass && users == old(users)[k := old(users)[k].(saved := ToggleSaved(old(users)[k].saved, questionId))]
      ensures questions == old(questions) && answers == old(answers) && tags == old(tags)
      ensures interactions == old(interactions) && nextId == old(nextId)
    {
      var found := UserIndex(users, userId);
      if found.None? {
        return Fail(UserNotFound);
      }
      var k := found.value;
      users := users[k := users[k].(saved := ToggleSaved(users[k].saved, questionId))];
      r := Pass;
    }

    /** `deleteUser`: an unknown clerk id is an error and nothing changes; otherwise the first
        user with that clerk id is removed and returned, with every question they wrote. Their
        answers, interactions and tag entries stay. */
    method DeleteUser(clerkId: string) returns (r: Result<User, Error>)
      requires Valid()
      modifies this
      ensures Valid()
      ensures UserIndexByClerk(old(users), clerkId).None? ==>
                r == Err(UserNotFound) && users == old(users) && questions == old(questions)
      ensures UserIndexByClerk(old(users), clerkId).Some? ==>
                var k := UserIndexByClerk(old(users), clerkId).value;
                && r == Ok(old(users)[k])
                && users == old(users)[..k] + old(users)[k + 1..]
                && questions == RemoveQuestionsBy(old(questions), old(users)[k].id)
      ensures answers == old(answers) && tags == old(tags) && interactions == old(interactions)
      ensures nextId == old(nextId)
    {
      var found := UserIndexByClerk(users, clerkId);
      if found.None? {
        return Err(UserNotFound);
      }
      var k := found.value;
      var user := users[k];
      ghost var users0, questions0 := users, questions;
      questions := RemoveQuestionsBy(questions, user.id);
      FewerQuestionsConsistent(users, questions0, tags, nextId, questions);
      users := users[..k] + users[k + 1..];
      RemoveUserConsistent(users0, questions, tags, nextId, k);
      r := Ok(user);
    }
  }
}
