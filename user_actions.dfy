/** The user actions: the saved-question toggle, the unique-username generator, the
    `deleteUser` cascade and the paging of the user-centred list queries. The store method
    that applies the toggle and the deletion lives in the `Store` module. */
module UserActions {
  import opened Wrappers
  import opened Seqs
  import opened Text
  import opened Entities
  import opened Paging

  // ---- toggleSaveQuestion ----

  /** The new `saved` array: `$pull` when the id is saved, `$addToSet` otherwise. */
  function ToggleSaved(saved: seq<QuestionId>, qid: QuestionId): (r: seq<QuestionId>)
    ensures qid in r <==> qid !in saved
    ensures forall x :: x != qid ==> multiset(r)[x] == multiset(saved)[x]
    ensures qid in saved ==> IsSubsequence(r, saved)
    ensures qid !in saved ==> r == saved + [qid]
  {
    if qid in saved then Pull(saved, qid) else AddToSet(saved, qid)
  }

  /** A duplicate-free `saved` array stays duplicate-free. */
  lemma ToggleSavedNoDuplicates(saved: seq<QuestionId>, qid: QuestionId)
    requires NoDuplicates(saved)
    ensures NoDuplicates(ToggleSaved(saved, qid))
  {
    var r: seq<QuestionId> := ToggleSaved(saved, qid);
    forall i, j | 0 <= i < j < |r|
      ensures r[i] != r[j]
    {
      if r[i] == r[j] {
        MultisetTwoPositions(r, i, j);
        if r[i] != qid {
          assert multiset(saved)[r[i]] >= 2;
          var a :| 0 <= a < |saved| && saved[a] == r[i];
          NoDuplicatesOnce(saved, a);
        }
        assert false;
      }
    }
  }

  /** Toggling twice restores membership; on a duplicate-free array it restores the same ids,
      each as often as before (the id may move to the end). */
  lemma ToggleSavedTwice(saved: seq<QuestionId>, qid: QuestionId)
    ensures qid in ToggleSaved(ToggleSaved(saved, qid), qid) <==> qid in saved
    ensures NoDuplicates(saved) ==> multiset(ToggleSaved(ToggleSaved(saved, qid), qid)) == multiset(saved)
  {
    var once: seq<QuestionId> := ToggleSaved(saved, qid);
    var twice: seq<QuestionId> := ToggleSaved(once, qid);
    if NoDuplicates(saved) {
      if qid in saved {
        var a :| 0 <= a < |saved| && saved[a] == qid;
        NoDuplicatesOnce(saved, a);
        assert multiset(twice)[qid] == 1;
      } else {
        assert multiset(twice)[qid] == 0;
      }
      assert forall x :: multiset(twice)[x] == multiset(saved)[x];
    }
  }

  /** In a duplicate-free sequence every element occurs once. */
  lemma {:induction false} NoDuplicatesOnce<T>(s: seq<T>, a: nat)
    requires a < |s| && NoDuplicates(s)
    ensures multiset(s)[s[a]] == 1
    decreases |s|
  {
    var n := |s| - 1;
    assert s == s[..n] + [s[n]];
    if a < n {
      NoDuplicatesOnce(s[..n], a);
      assert s[n] != s[a];
    } else {
      assert s[n] !in s[..n];
    }
  }

  // ---- generateUniqueUsername ----

  predicate IsAsciiAlnum(c: char) {
    ('a' <= c <= 'z') || ('A' <= c <= 'Z') || ('0' <= c <= '9')
  }

  /** The template `${firstName}${lastName ? lastName : ''}`: a null first name prints as
      "null", a null or empty last name adds nothing. */
  function FullName(first: Option<string>, last: Option<string>): string {
    first.GetOr("null") + last.GetOr("")
  }

  predicate NotSpace(c: char) {
    !IsSpace(c)
  }

  /** `replace(/\s+/g, '')`. */
  function RemoveSpaces(s: string): string {
    Filter(s, NotSpace)
  }

  /** `replace(/[^a-zA-Z0-9]/g, '')`. */
  function KeepAlnum(s: string): string {
    Filter(s, IsAsciiAlnum)
  }

  /** The base username: the full name lowercased, without whitespace and without anything
      outside `[a-zA-Z0-9]`. */
  function BaseUsername(first: Option<string>, last: Option<string>): (r: string)
    ensures forall c :: c in r ==> IsAsciiLowerOrDigit(c)
    ensures |r| <= |FullName(first, last)|
    ensures IsSubsequence(r, Lower(FullName(first, last)))
    ensures r == Filter(Lower(FullName(first, last)), IsAsciiAlnum)
  {
    var lowered := Lower(FullName(first, last));
    var spaced := RemoveSpaces(lowered);
    var r := KeepAlnum(spaced);
    SubsequenceTrans(r, spaced, lowered);
    assert forall c :: IsAsciiAlnum(c) ==> NotSpace(c);
    FilterSubsumed(lowered, NotSpace, IsAsciiAlnum);
    r
  }

  /** `IsSubsequence` is transitive. */
  lemma {:induction false} SubsequenceTrans<T>(a: seq<T>, b: seq<T>, c: seq<T>)
    requires IsSubsequence(a, b) && IsSubsequence(b, c)
    ensures IsSubsequence(a, c)
    decreases |c|
  {
    if a != [] && b != [] && c != [] {
      if b[0] == c[0] {
        if a[0] == b[0] {
          SubsequenceTrans(a[1..], b[1..], c[1..]);
        } else {
          SubsequenceTrans(a, b[1..], c[1..]);
        }
      } else {
        SubsequenceTrans(a, b, c[1..]);
        if a[0] == c[0] {
          SubsequenceDropHead(a, c[1..]);
        }
      }
    }
  }

  lemma LowerConcat(a: string, b: string)
    ensures Lower(a + b) == Lower(a) + Lower(b)
  {
  }

  /** Lowercasing leaves a string without ASCII capitals as it is. */
  lemma LowerKeepsPlain(s: string)
    requires forall c :: c in s ==> !IsAsciiUpper(c)
    ensures Lower(s) == s
  {
    forall i | 0 <= i < |s|
      ensures Lower(s)[i] == s[i]
    {
      assert s[i] in s;
    }
  }

  /** A name already made of lowercase letters and digits is the base username unchanged. */
  lemma BaseUsernamePlain(first: Option<string>, last: Option<string>)
    requires forall c :: c in FullName(first, last) ==> IsAsciiLowerOrDigit(c)
    ensures BaseUsername(first, last) == FullName(first, last)
  {
    var name := FullName(first, last);
    LowerKeepsPlain(name);
    FilterKeepsAll(name, NotSpace);
    FilterKeepsAll(name, IsAsciiAlnum);
  }

  /** A missing first name contributes the word "null" in front. */
  lemma BaseUsernameNullFirst(last: Option<string>)
    ensures BaseUsername(None, last) == "null" + BaseUsername(Some(""), last)
  {
    var l := last.GetOr("");
    assert FullName(None, last) == "null" + l;
    assert FullName(Some(""), last) == l;
    CleanKeepsPlainPrefix("null", l);
  }

  /** Lowercasing and the two removals keep a prefix of lowercase letters and digits whole. */
  lemma CleanKeepsPlainPrefix(pre: string, rest: string)
    requires forall c :: c in pre ==> IsAsciiLowerOrDigit(c)
    ensures KeepAlnum(RemoveSpaces(Lower(pre + rest))) == pre + KeepAlnum(RemoveSpaces(Lower(rest)))
  {
    LowerConcat(pre, rest);
    LowerKeepsPlain(pre);
    FilterKeptPrefix(pre, Lower(rest), NotSpace);
    FilterKeptPrefix(pre, RemoveSpaces(Lower(rest)), IsAsciiAlnum);
  }

  /** The n-th name tried: the base, then the base followed by 1, 2, ... */
  function Candidate(base: string, n: nat): string {
    if n == 0 then base else base + NatToString(n)
  }

  /** Different attempts try different names. */
  lemma CandidateInjective(base: string, m: nat, n: nat)
    requires Candidate(base, m) == Candidate(base, n)
    ensures m == n
  {
    if m > 0 && n > 0 {
      var a, b := Candidate(base, m), Candidate(base, n);
      assert NatToString(m) == a[|base|..] == b[|base|..] == NatToString(n);
      NatToStringInjective(m, n);
    }
  }

  /** The names tried in the first `n` attempts. */
  function Candidates(base: string, n: nat): set<string> {
    set j | 0 <= j < n :: Candidate(base, j)
  }

  lemma {:induction false} CandidatesCard(base: string, n: nat)
    ensures |Candidates(base, n)| == n
  {
    if n > 0 {
      CandidatesCard(base, n - 1);
      CandidatesSplit(base, n);
      CandidateNew(base, n - 1);
    }
  }

  /** The first `n + 1` attempts are the first `n` and the `n`-th. */
  lemma CandidatesSplit(base: string, n: nat)
    requires n > 0
    ensures Candidates(base, n) == Candidates(base, n - 1) + {Candidate(base, n - 1)}
  {
  }

  /** Attempt `n` tries a name none of the earlier attempts tried. */
  lemma CandidateNew(base: string, n: nat)
    ensures Candidate(base, n) !in Candidates(base, n)
  {
    if Candidate(base, n) in Candidates(base, n) {
      var j :| 0 <= j < n && Candidate(base, j) == Candidate(base, n);
      CandidateInjective(base, j, n);
    }
  }

  /** The usernames `User.findOne({ username })` finds. */
  function Usernames(users: seq<User>): set<string> {
    set u | u in users :: u.username
  }

  /** `generateUniqueUsername`: try the base, then the base with 1, 2, ... appended, and return
      the first name no user has. */
  method GenerateUniqueUsername(first: Option<string>, last: Option<string>, users: seq<User>)
    returns (username: string)
    ensures username !in Usernames(users)
    ensures exists n :: username == Candidate(BaseUsername(first, last), n)
                        && Candidates(BaseUsername(first, last), n) <= Usernames(users)
  {
    var base := BaseUsername(first, last);
    var taken := Usernames(users);
    username := base;
    var counter := 1;
    while true
      invariant 1 <= counter
      invariant username == Candidate(base, counter - 1)
      invariant Candidates(base, counter - 1) <= taken
      decreases |taken| - (counter - 1)
    {
      if username !in taken {
        assert username == Candidate(base, counter - 1) && Candidates(base, counter - 1) <= taken;
        return;
      }
      ProbeStep(base, counter, taken);
      username := base + NatToString(counter);
      counter := counter + 1;
    }
  }

  /** A taken candidate extends the taken prefix of attempts, which cannot outgrow `taken`. */
  lemma ProbeStep(base: string, counter: nat, taken: set<string>)
    requires 1 <= counter && Candidates(base, counter - 1) <= taken && Candidate(base, counter - 1) in taken
    ensures Candidates(base, counter) <= taken
    ensures counter <= |taken|
  {
    assert Candidates(base, counter) == Candidates(base, counter - 1) + {Candidate(base, counter - 1)};
    CandidatesCard(base, counter);
    SubsetCard(Candidates(base, counter), taken);
  }

  lemma SubsetCard<T>(a: set<T>, b: set<T>)
    requires a <= b
    ensures |a| <= |b|
  {
    assert b == a + (b - a);
  }

  // ---- deleteUser ----

  /** `Question.deleteMany({ author })`. */
  function RemoveQuestionsBy(questions: seq<Question>, author: UserId): (r: seq<Question>)
    ensures forall q :: q in r <==> q in questions && q.author != author
    ensures IsSubsequence(r, questions)
  {
    Filter(questions, (q: Question) => q.author != author)
  }

  // ---- the paged user queries ----

  /** The title search of `getSavedQuestions` (an empty query matches everything). */
  predicate TitleSearch(q: Question, searchQuery: Option<string>) {
    match searchQuery
    case None => true
    case Some(s) => s == "" || ContainsIgnoreCase(q.title, s)
  }

  /** The saved questions that still exist and pass the search, in the order given. */
  function SavedMatches(questions: seq<Question>, saved: seq<QuestionId>, searchQuery: Option<string>): seq<Question> {
    Filter(questions, (q: Question) => q.id in saved && TitleSearch(q, searchQuery))
  }

  /** `getSavedQuestions` (`page` 1, `pageSize` 1 by default): an unknown clerk id is an error;
      otherwise an over-fetched page of the saved questions, returned untrimmed. */
  function GetSavedQuestions(users: seq<User>, questions: seq<Question>, clerkId: string,
                             searchQuery: Option<string>, page: Option<int>, pageSize: Option<int>)
    : (r: Result<Page<Question>, Error>)
    requires page.GetOr(1) >= 1 && pageSize.GetOr(1) >= 1
    ensures UserIndexByClerk(users, clerkId).None? <==> r == Err(UserNotFound)
    ensures r.Err? ==> r.error == UserNotFound
    ensures r.Ok? ==>
              var user := users[UserIndexByClerk(users, clerkId).value];
              var all := SavedMatches(questions, user.saved, searchQuery);
              && |r.value.items| <= pageSize.GetOr(1) + 1
              && r.value.items == OverFetchPage(all, page.GetOr(1), pageSize.GetOr(1)).items
              && (forall q :: q in r.value.items ==> q in questions && q.id in user.saved && TitleSearch(q, searchQuery))
              && (r.value.isNext <==> |all| > page.GetOr(1) * pageSize.GetOr(1))
              && (r.value.isNext <==> |r.value.items| == pageSize.GetOr(1) + 1)
  {
    match UserIndexByClerk(users, clerkId)
    case None => Err(UserNotFound)
    case Some(k) =>
      var all := SavedMatches(questions, users[k].saved, searchQuery);
      var p := OverFetchPage(all, page.GetOr(1), pageSize.GetOr(1));
      OverFetchShowsNextPageItem(all, page.GetOr(1), pageSize.GetOr(1));
      CountPageNext(all, page.GetOr(1), pageSize.GetOr(1));
      assert forall q :: q in p.items ==> q in all;
      Ok(p)
  }

  /** The name/username search of `getAllUsers`; an empty query is falsy and filters nothing. */
  predicate UserMatches(u: User, searchQuery: Option<string>) {
    match searchQuery
    case None => true
    case Some(s) => s == "" || ContainsIgnoreCase(u.name, s) || ContainsIgnoreCase(u.username, s)
  }

  function UserSearch(users: seq<User>, searchQuery: Option<string>): seq<User> {
    Filter(users, (u: User) => UserMatches(u, searchQuery))
  }

  /** `getAllUsers` (`page` 1, `pageSize` 10 by default): a count-based page of the matching
      users, in the order given. */
  function GetAllUsers(users: seq<User>, searchQuery: Option<string>, page: Option<int>, pageSize: Option<int>)
    : (r: Page<User>)
    requires page.GetOr(1) >= 1 && pageSize.GetOr(10) >= 1
    ensures |r.items| <= pageSize.GetOr(10)
    ensures forall u :: u in r.items ==> u in users && UserMatches(u, searchQuery)
    ensures r.items == CountPage(UserSearch(users, searchQuery), page.GetOr(1), pageSize.GetOr(10)).items
    ensures r.isNext <==> |UserSearch(users, searchQuery)| > page.GetOr(1) * pageSize.GetOr(10)
  {
    var all := UserSearch(users, searchQuery);
    CountPageNext(all, page.GetOr(1), pageSize.GetOr(10));
    CountPage(all, page.GetOr(1), pageSize.GetOr(10))
  }

  /** A page of a user's posts with the total they have. */
  datatype UserPosts<T> = UserPosts(total: nat, items: seq<T>, isNext: bool)

  function QuestionsBy(questions: seq<Question>, author: UserId): seq<Question> {
    Filter(questions, (q: Question) => q.author == author)
  }

  function AnswersBy(answers: seq<Answer>, author: UserId): seq<Answer> {
    Filter(answers, (a: Answer) => a.author == author)
  }

  /** `getUserQuestion` (`page` 1, `pageSize` 1 by default): the number of questions the user
      wrote and a count-based page of them, in the order given. */
  function GetUserQuestions(questions: seq<Question>, userId: UserId, page: Option<int>, pageSize: Option<int>)
    : (r: UserPosts<Question>)
    requires page.GetOr(1) >= 1 && pageSize.GetOr(1) >= 1
    ensures r.total == |QuestionsBy(questions, userId)|
    ensures |r.items| <= pageSize.GetOr(1)
    ensures forall q :: q in r.items ==> q in questions && q.author == userId
    ensures r.items == CountPage(QuestionsBy(questions, userId), page.GetOr(1), pageSize.GetOr(1)).items
    ensures r.isNext <==> r.total > page.GetOr(1) * pageSize.GetOr(1)
  {
    var all := QuestionsBy(questions, userId);
    var p := CountPage(all, page.GetOr(1), pageSize.GetOr(1));
    CountPageNext(all, page.GetOr(1), pageSize.GetOr(1));
    UserPosts(|all|, p.items, p.isNext)
  }

  /** `getUserAnswers` (`page` 1, `pageSize` 5 by default): the number of answers the user wrote
      and a count-based page of them, in the order given. */
  function GetUserAnswers(answers: seq<Answer>, userId: UserId, page: Option<int>, pageSize: Option<int>)
    : (r: UserPosts<Answer>)
    requires page.GetOr(1) >= 1 && pageSize.GetOr(5) >= 1
    ensures r.total == |AnswersBy(answers, userId)|
    ensures |r.items| <= pageSize.GetOr(5)
    ensures forall a :: a in r.items ==> a in answers && a.author == userId
    ensures r.items == CountPage(AnswersBy(answers, userId), page.GetOr(1), pageSize.GetOr(5)).items
    ensures r.isNext <==> r.total > page.GetOr(1) * pageSize.GetOr(5)
  {
    var all := AnswersBy(answers, userId);
    var p := CountPage(all, page.GetOr(1), pageSize.GetOr(5));
    CountPageNext(all, page.GetOr(1), pageSize.GetOr(5));
    UserPosts(|all|, p.items, p.isNext)
  }
}
