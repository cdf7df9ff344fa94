/** The documents of the store (users, questions, answers, tags, interactions),
    the find-by-key lookups the actions use, and the `$inc` of a user's reputation. */
module Entities {
  import opened Wrappers
  import opened Seqs
  import opened Text

  /** A document id (Mongo ObjectId); fresh ids come from a counter in the store. */
  type Id = nat
  type UserId = Id
  type QuestionId = Id
  type AnswerId = Id
  type TagId = Id

  /** `saved` is an array: `$addToSet` and `$pull` keep it duplicate-free only if it started so. */
  datatype User = User(id: UserId, clerkId: string, name: string, username: string,
                       reputation: int, saved: seq<QuestionId>)

  datatype Question = Question(id: QuestionId, title: string, content: string, tags: seq<TagId>,
                               views: nat, upvotes: seq<UserId>, downvotes: seq<UserId>,
                               author: UserId)

  datatype Answer = Answer(id: AnswerId, question: QuestionId, author: UserId)

  datatype Tag = Tag(id: TagId, name: string, questions: seq<QuestionId>)

  datatype Action = AskQuestion | AnswerQuestion | Upvote | Downvote | View | Save

  datatype Interaction = Interaction(user: UserId, action: Action, question: Option<QuestionId>,
                                     answer: Option<AnswerId>, tags: seq<TagId>)

  /** The errors the actions throw. */
  datatype Error = QuestionNotFound | UserNotFound | TagNotFound

  // ---- lookups (first match in natural order) ----

  function UserIndex(users: seq<User>, id: UserId): Option<nat> {
    FirstIndex(users, (u: User) => u.id == id)
  }

  function UserIndexByClerk(users: seq<User>, clerkId: string): Option<nat> {
    FirstIndex(users, (u: User) => u.clerkId == clerkId)
  }

  function QuestionIndex(questions: seq<Question>, id: QuestionId): Option<nat> {
    FirstIndex(questions, (q: Question) => q.id == id)
  }

  function TagIndex(tags: seq<Tag>, id: TagId): Option<nat> {
    FirstIndex(tags, (t: Tag) => t.id == id)
  }

  // ---- uniqueness of ids ----

  ghost predicate UniqueUserIds(users: seq<User>) {
    forall i, j :: 0 <= i < j < |users| ==> users[i].id != users[j].id
  }

  ghost predicate UniqueQuestionIds(questions: seq<Question>) {
    forall i, j :: 0 <= i < j < |questions| ==> questions[i].id != questions[j].id
  }

  ghost predicate UniqueAnswerIds(answers: seq<Answer>) {
    forall i, j :: 0 <= i < j < |answers| ==> answers[i].id != answers[j].id
  }

  ghost predicate UniqueTagIds(tags: seq<Tag>) {
    forall i, j :: 0 <= i < j < |tags| ==> tags[i].id != tags[j].id
  }

  /** Tag names are unique ignoring case (tags are found by a case-insensitive name match). */
  ghost predicate UniqueTagNames(tags: seq<Tag>) {
    forall i, j :: 0 <= i < j < |tags| ==> !EqualsIgnoreCase(tags[i].name, tags[j].name)
  }

  /** The tag collection's invariant: unique ids, unique names, ids below the next fresh id. */
  ghost predicate ValidTags(tags: seq<Tag>, nextId: Id) {
    UniqueTagIds(tags) && UniqueTagNames(tags) && forall k :: 0 <= k < |tags| ==> tags[k].id < nextId
  }

  /** `User.findByIdAndUpdate(id, { $inc: { reputation: delta } })`: the user with that id gains
      `delta`; when there is no such user nothing changes (no upsert, no error). */
  function IncReputation(users: seq<User>, id: UserId, delta: int): (r: seq<User>)
    ensures |r| == |users|
    ensures forall k :: 0 <= k < |r| ==> r[k].id == users[k].id
  {
    match UserIndex(users, id)
    case None => users
    case Some(k) => users[k := users[k].(reputation := users[k].reputation + delta)]
  }

  /** With unique ids, `IncReputation` changes exactly the reputation of the user with that id. */
  lemma IncReputationAt(users: seq<User>, id: UserId, delta: int, k: nat)
    requires UniqueUserIds(users) && k < |users|
    ensures IncReputation(users, id, delta)[k]
         == if users[k].id == id then users[k].(reputation := users[k].reputation + delta) else users[k]
  {
    match UserIndex(users, id)
    case None =>
    case Some(j) =>
      assert users[j].id == id;
  }

  /** The reputation bookkeeping of one vote (voter first, then author): each user's reputation
      moves by the deltas addressed to it, and they add up when the voter is the author. */
  lemma {:induction false} TwoIncrements(users: seq<User>, voter: UserId, vd: int, author: UserId, ad: int, k: nat)
    requires UniqueUserIds(users) && k < |users|
    ensures var r := IncReputation(IncReputation(users, voter, vd), author, ad);
            |r| == |users|
            && r[k] == users[k].(reputation := users[k].reputation
                                  + (if users[k].id == voter then vd else 0)
                                  + (if users[k].id == author then ad else 0))
  {
    var mid := IncReputation(users, voter, vd);
    IncReputationAt(users, voter, vd, k);
    assert UniqueUserIds(mid);
    IncReputationAt(mid, author, ad, k);
  }
}
