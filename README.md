# A verified model of the Q&A server actions

This project models the core of a Stack Overflow–style question-and-answer web application
(Next.js server actions over a MongoDB store) and proves properties of that model in Dafny.

What is modelled:

- **The document store** (`Store.Database`). Each collection is a sequence in natural order:
  users, questions, answers, tags and interactions. A counter hands out fresh ObjectIds. Its
  methods are the mutating actions:
  - `upvoteQuestion` and `downvoteQuestion`: the vote ledger and the reputation deltas;
  - `createQuestion`: the tag find-or-create loop, the interaction record and the +5 reputation;
  - `deleteQuestion`: the cascade to answers, interactions and tags;
  - `toggleSaveQuestion`;
  - `deleteUser`: the user and their questions.
  `Valid()` is the store's invariant, and every method keeps it: ids are unique per collection,
  tag names are unique ignoring case, and the counter is above every question and tag id.
- **The vote ledger** (`Votes`): the `$pull` / `$push` / `$addToSet` update each vote sends to a
  question's `upvotes` and `downvotes` arrays. It is driven by the caller's `hasAlreadyUpvoted`
  and `hasAlreadyDownvoted` flags. The module also gives the reputation deltas and relates both
  to the three-state table none / up / down.
- **The list queries**:
  - `getQuestions`, `getRecommendedQuestions`, `getAllTags`, `getQuestionsByTagId`,
    `getSavedQuestions`, `getAllUsers`, `getUserQuestion` and `getUserAnswers`;
  - their two paging strategies (`Paging`): count-based, and over-fetching `pageSize + 1`.
- **The tag-affinity scorer** `getTopInterectedTags` (`TagActions`). It counts with a frequency
  dictionary in two nested loops (`CountTags`), does a stable sort by descending count, and
  slices. It is proved against a reference definition: each entry holds its name's first id and
  its number of occurrences, ties keep first-occurrence order, and there is one entry per
  distinct name.
- **`getRelatedTags`** over its fixed list, and **`generateUniqueUsername`**. For the latter
  the model covers the base-username cleaning and the probe loop, which returns the first free
  candidate.
- **The helpers** of `lib/utils.ts` (`Utils`): `getUserBadge`, `getTimestamp`, `assignBadges`,
  `processJobTitle` and `generateSlug`.
- **The tag field of the question form** (`QuestionForm.TagField`): the Enter-key handler and
  the tag removal.

The clock is a parameter of `GetTimestamp` and `GenerateSlug`. The badge table
`BADGE_CRITERIA` lives in a file that is not part of this model, so it is a parameter of
`AssignBadges`.

A vote in the opposite direction ("flip") is one request. It gives the voter +2 and the author
+10; it is not a net-zero change (`Votes.Transition`, `Store.Database.UpvoteQuestion`).

## Model

| member | source | states |
|---|---|---|
| Entities.IncReputation | lib/actions/question.action.ts:171-177 | `$inc` on a user by id keeps the collection's length and every document's id |
| Entities.IncReputationAt | lib/actions/question.action.ts:171-177 | with unique ids, exactly the user with that id gains the delta and every other user is unchanged; an unknown id changes nothing |
| Entities.TwoIncrements | lib/actions/question.action.ts:170-177 | after the voter's and the author's increments, each user moved by the deltas addressed to them, summed when the voter is the author |
| Paging.Window | lib/actions/question.action.ts:59-60 | `.skip(s).limit(l)` returns at most `l` items, the items from position `s` on, in order, and its length is the remaining count capped by `l` |
| Paging.CountPage | lib/actions/question.action.ts:27-63 | a count-based page has at most `pageSize` items; they are the matches from position `(page-1)*pageSize` on, in order, as many as remain up to `pageSize` |
| Paging.CountPageNext | lib/actions/question.action.ts:63 | `isNext = total > skip + returned` holds iff the matches exceed `page * pageSize`, iff the next page is non-empty |
| Paging.CountPagesCover | lib/actions/question.action.ts:27-60 | the first `n` pages, concatenated, are exactly the first `n * pageSize` matches (no overlap, no gap) |
| Paging.SkipStep | lib/actions/question.action.ts:27 | `skip = (page-1)*pageSize` is non-negative and page `n` ends where page `n+1` starts |
| Paging.CountPageExample | lib/actions/question.action.ts:63 | with 23 matches and pages of 10: page 1 is full with a next page, page 3 has 3 items and none after, page 4 is empty |
| Paging.OverFetchPage | lib/actions/tag.actions.ts:143-155 | the over-fetched page has at most `pageSize + 1` items; they are the matches from position `(page-1)*pageSize` on, in order, as many as remain up to `pageSize + 1` |
| Paging.OverFetchShowsNextPageItem | lib/actions/tag.actions.ts:144-155 | the over-fetch flag agrees with the count-based one, but when it is set the returned list holds `pageSize + 1` items, the last of which is also the first item of the next page |
| Paging.TrimmedOverFetchPage | lib/actions/tag.actions.ts:144-154 | an over-fetched page trimmed to `pageSize` is exactly the count-based page, flag included |
| Paging.PopularPage | lib/actions/tag.actions.ts:89-114 | the "popular" aggregate after `$skip`/`$limit` has at most `pageSize` tags, all drawn from the matches; its always-false `isNext` is stated by `PopularPageNeverNext` |
| Paging.PopularPageNeverNext | lib/actions/tag.actions.ts:89-114 | the "popular" branch compares an already limited list with `skip + pageSize`, so `isNext` is always false, while its items are the count-based page's |
| Votes.Upvote | lib/actions/question.action.ts:153-163 | undo removes every copy of the voter from `upvotes`; a flip adds one upvote copy and removes the voter from `downvotes`; a fresh vote puts the voter in `upvotes` once; no other voter's multiplicities change |
| Votes.Downvote | lib/actions/question.action.ts:190-201 | the mirror image of `Upvote` for `downvotes` |
| Votes.DownvoteMirrorsUpvote | lib/actions/question.action.ts:185-201 | downvoting equals upvoting with the two arrays and the two flags exchanged |
| Votes.VoterDelta | lib/actions/question.action.ts:171-173 | the voter's `$inc` is +2 or -2, negative exactly when the vote undoes itself (same at lines 210-212) |
| Votes.AuthorDelta | lib/actions/question.action.ts:175-177 | the author's `$inc` is +10 or -10, negative exactly when the vote undoes itself, and always five times the voter's (same at lines 213-215) |
| Votes.VoteFollowsTable | lib/actions/question.action.ts:153-177 | with truthful flags the voter stays in at most one array at most once, and the new state and both reputation deltas are those of the none/up/down transition table |
| Votes.VoteSequenceExclusive | lib/actions/question.action.ts:153-163 | after any sequence of truthfully flagged votes the voter is in at most one array, at most once |
| Votes.PullAppended | lib/actions/question.action.ts:155-162 | `$pull` of a value just appended to an array without it gives back the array |
| Votes.FreshVoteThenUndo | lib/actions/question.action.ts:153-177 | a fresh vote followed by its undo restores both arrays and the voter's and author's deltas cancel |
| Votes.StaleFlagsDuplicate | lib/actions/question.action.ts:156-160 | with a stale "already downvoted" flag, a voter already in `upvotes` ends up there twice, because the flip branch pushes |
| QuestionActions.UpsertTagStep | lib/actions/question.action.ts:85-90 | one upsert keeps the tag collection valid, pushes the question onto exactly the tag it returns, returns the existing case-insensitive match when there is one, and otherwise creates a tag with the exact spelling and a fresh id |
| QuestionActions.UpsertTag | lib/actions/question.action.ts:85-89 | a name matching an existing tag ignoring case returns that tag's id and adds no tag; otherwise one tag with the exact spelling is appended under the next fresh id, which is consumed; the validity and the question push are stated by `UpsertTagStep` |
| QuestionActions.ResolveTags | lib/actions/question.action.ts:84-91 | the reference definition of the tag loop: one id per name, and the counter advances by exactly the number of tags created; `ResolveTagsSound` states the rest |
| QuestionActions.ResolveTagsSound | lib/actions/question.action.ts:84-91 | after the loop: one tag id per name, each naming a tag that matches the name ignoring case and lists the question; old tags keep id and name and gain the question once per name resolved to them; new tags have fresh ids and one of the names |
| QuestionActions.ResolvedIdsBelow | lib/actions/question.action.ts:84-91 | every collected tag id is below the counter, so the counter's value is not among them |
| QuestionActions.ResolveStep | lib/actions/question.action.ts:84-91 | the loop's property carries over from the first names to one more name |
| QuestionActions.RemoveQuestion | lib/actions/question.action.ts:227-229 | `deleteOne` removes one question when the id exists, keeps every other question in order, and with unique ids leaves none with that id |
| QuestionActions.RemoveAnswersOf | lib/actions/question.action.ts:230 | exactly the answers of other questions remain, in order |
| QuestionActions.RemoveInteractionsOf | lib/actions/question.action.ts:231 | exactly the interactions about other questions remain, in order |
| QuestionActions.PullQuestionFromTags | lib/actions/question.action.ts:232-239 | no tag lists the question afterwards; ids, names and every other entry's multiplicity are unchanged |
| QuestionActions.GetQuestions | lib/actions/question.action.ts:21-65 | at most `pageSize` (20) questions, all matching the search; the items are the count-based page of the matching questions (of all questions without a search); `isNext` iff the matches exceed `page * pageSize` |
| QuestionActions.GetRecommendedQuestions | lib/actions/question.action.ts:278-336 | an unknown clerk id is an error; otherwise at most `pageSize` (10) questions, each sharing a tag with one of the user's interactions, written by someone else and matching the search; the items are the count-based page of the recommendable questions, and `isNext` iff those exceed `page * pageSize` |
| QuestionActions.RecommendedWithoutInteractions | lib/actions/question.action.ts:289-328 | a user without interactions gets an empty page with no next page |
| QuestionActions.NoTagsNoRecommendations | lib/actions/question.action.ts:304-309 | with no tag of interest the `$in` clause matches no question |
| TagActions.TallyDistinct | lib/actions/tag.actions.ts:24-45 | no two entries of the frequency dictionary share a name |
| TagActions.Tally | lib/actions/tag.actions.ts:24-45 | the reference frequency dictionary has at most one entry per reference; its contents are stated by `TallyDistinct`, `TallyCovers`, `TallyEntry`, `TallyOrder`, `TallyNames` and `TallySum` |
| TagActions.TallyCovers | lib/actions/tag.actions.ts:26-39 | every referenced tag name has an entry |
| TagActions.TallyEntry | lib/actions/tag.actions.ts:29-36 | each entry holds the id of its name's first reference and its number of references (at least one) |
| TagActions.TallyOrder | lib/actions/tag.actions.ts:41-45 | the entries come in the order in which their names were first referenced |
| TagActions.TallyNames | lib/actions/tag.actions.ts:41-45 | the entries' names are exactly the referenced names, so there is one entry per distinct name |
| TagActions.TallySum | lib/actions/tag.actions.ts:32-36 | the counts add up to the number of references |
| TagActions.SortByCountDesc | lib/actions/tag.actions.ts:47 | the sort orders by descending count, is a permutation, and keeps entries with equal counts in their original order (stable) |
| TagActions.InsertSorted | lib/actions/tag.actions.ts:47 | inserting into a list sorted by descending count keeps it sorted and adds exactly that entry |
| TagActions.InsertTies | lib/actions/tag.actions.ts:47 | the insertion step keeps ties in their original order |
| TagActions.TopTags | lib/actions/tag.actions.ts:41-53 | the result is a prefix of the tally sorted by descending count, has distinct names, counts each name's occurrences with its first id, breaks ties by first occurrence, and has `min(limit, distinct names)` entries |
| TagActions.PermutationKeepsDistinct | lib/actions/tag.actions.ts:47 | sorting does not duplicate or lose a name |
| TagActions.TopTagsHighest | lib/actions/tag.actions.ts:47-53 | every referenced name left out of the result is used no more often than any name kept: the result holds the most used tags |
| TagActions.SortedPrefixHighest | lib/actions/tag.actions.ts:47-53 | in a list sorted by descending count, an entry outside a prefix counts no more than any entry in it |
| TagActions.TopInteractedTags | lib/actions/tag.actions.ts:11-58 | an unknown user is an error; otherwise the result is `TopTags` of the user's populated interaction tags with `limit` 2 by default |
| TagActions.CountTags | lib/actions/tag.actions.ts:24-45 | the nested loops over interactions and tags build exactly the reference tally of the flattened references |
| TagActions.DictionariesBump | lib/actions/tag.actions.ts:32-36 | a name already in the dictionary: raising its count keeps the dictionaries equal to the tally |
| TagActions.DictionariesAdd | lib/actions/tag.actions.ts:29-34 | a new name: recording its id and count 1 keeps the dictionaries equal to the tally |
| TagActions.GetAllTags | lib/actions/tag.actions.ts:61-123 | at most `pageSize` (4) tags, all matching the search; the items are the count-based page; the "popular" filter never reports a next page, the others iff the matches exceed `page * pageSize` |
| TagActions.GetQuestionsByTagId | lib/actions/tag.actions.ts:129-161 | an unknown tag is an error; otherwise the tag's name and the over-fetched page (up to `pageSize + 1`) of its questions matching the title search; `isNext` iff there are more than `page * pageSize`, iff the list holds `pageSize + 1` |
| TagActions.RelatedTags | lib/actions/tag.actions.ts:194-198 | the result excludes the given id, is an in-order prefix of the list without it, and has `min(limit, remaining)` entries |
| TagActions.GetRelatedTags | lib/actions/tag.actions.ts:178-198 | the action over its fixed list with `limit` 5 by default: no entry has the given id and there are at most `limit` entries; the exact prefix is stated by `RelatedTags` |
| TagActions.RelatedTagsUnknownId | lib/actions/tag.actions.ts:178-198 | for an id not in the fixed list, the default call returns its first five entries |
| UserActions.ToggleSaved | lib/actions/user.action.ts:174-185 | the question is saved afterwards iff it was not before; other ids keep their multiplicity; removal keeps order, adding appends |
| UserActions.ToggleSavedNoDuplicates | lib/actions/user.action.ts:174-185 | a duplicate-free `saved` array stays duplicate-free |
| UserActions.ToggleSavedTwice | lib/actions/user.action.ts:174-185 | toggling twice restores membership, and on a duplicate-free array restores every id's multiplicity |
| UserActions.BaseUsername | lib/actions/user.action.ts:141-144 | the base username is exactly the ASCII letters and digits of the lowercased full name, in order (removing whitespace first changes nothing); so it consists of `[a-z0-9]` and is an in-order selection of the lowercased name |
| UserActions.BaseUsernamePlain | lib/actions/user.action.ts:141-144 | a full name already made of lowercase letters and digits is kept unchanged |
| UserActions.BaseUsernameNullFirst | lib/actions/user.action.ts:141 | a missing first name contributes "null" in front |
| UserActions.CleanKeepsPlainPrefix | lib/actions/user.action.ts:142-144 | the cleaning keeps a prefix of lowercase letters and digits whole |
| UserActions.CandidateInjective | lib/actions/user.action.ts:146-159 | different attempts try different usernames |
| UserActions.CandidatesCard | lib/actions/user.action.ts:146-161 | the first `n` attempts try `n` distinct usernames, which bounds the probe loop by the number of users |
| UserActions.ProbeStep | lib/actions/user.action.ts:150-161 | each taken candidate extends the run of taken attempts, and that run can be no longer than the set of usernames, so the probe loop ends |
| UserActions.GenerateUniqueUsername | lib/actions/user.action.ts:139-162 | the result is taken by no user, and it is the first candidate (base, base1, base2, ...) that is free |
| UserActions.RemoveQuestionsBy | lib/actions/user.action.ts:86 | exactly the questions of other authors remain, in order |
| UserActions.GetSavedQuestions | lib/actions/user.action.ts:193-244 | an unknown clerk id is an error; otherwise the over-fetched page (up to `pageSize + 1`, 1 + 1) of the existing saved questions matching the title search; `isNext` iff there are more than `page * pageSize`, iff the list holds `pageSize + 1` |
| UserActions.GetAllUsers | lib/actions/user.action.ts:97-137 | the items are the count-based page (at most `pageSize`, 10) of the users matching the name or username search; `isNext` iff the matches exceed `page * pageSize` |
| UserActions.GetUserQuestions | lib/actions/user.action.ts:275-294 | the total is the user's number of questions; the items are the count-based page (at most `pageSize`, 1) of them; `isNext` iff the total exceeds `page * pageSize` |
| UserActions.GetUserAnswers | lib/actions/user.action.ts:296-315 | the total is the user's number of answers; the items are the count-based page (at most `pageSize`, 5) of them; `isNext` iff the total exceeds `page * pageSize` |
| Store.FewerQuestionsConsistent | lib/actions/question.action.ts:227-229 | dropping questions, the rest in order, keeps the store invariant |
| Store.RemoveUserConsistent | lib/actions/user.action.ts:79 | removing one user keeps the store invariant |
| Store.CreateConsistent | lib/actions/question.action.ts:72-103 | creating a question with the counter's id, resolving its tags and crediting the author keeps the store invariant |
| Store.UpsertTags | lib/actions/question.action.ts:82-91 | the loop over the tag names computes the resolution the reference definition describes (whose properties `ResolveTagsSound` proves) |
| Store.Database.UpvoteQuestion | lib/actions/question.action.ts:148-183 | an unknown question is an error and changes nothing; otherwise exactly that question's arrays get the upvote update, the voter moves by ±2 and the author by ±10 (minus when undoing), nothing else changes, and the invariant holds |
| Store.Database.DownvoteQuestion | lib/actions/question.action.ts:185-221 | the mirror image of `UpvoteQuestion`, with undo decided by `hasAlreadyDownvoted` |
| Store.Database.CreateQuestion | lib/actions/question.action.ts:72-109 | the question gets an id that no existing question or tag has, and the resolved tag ids; each tag name is found or created and lists it; an "ask_question" interaction with those tags is recorded; the author gains 5; the invariant holds |
| Store.Database.DeleteQuestion | lib/actions/question.action.ts:223-245 | the question, its answers and its interactions go, its id is pulled from every tag, users are untouched, and the invariant holds |
| Store.Database.ToggleSaveQuestion | lib/actions/user.action.ts:165-191 | an unknown user is an error and changes nothing; otherwise only that user's `saved` array is toggled |
| Store.Database.DeleteUser | lib/actions/user.action.ts:74-94 | an unknown clerk id is an error and changes nothing; otherwise the first user with it is removed and returned with all their questions; answers, interactions and tags stay |
| Utils.GetUserBadge | lib/utils.ts:193-198 | gold iff reputation is at least 5000, silver iff 1000 to 4999, bronze iff 500 to 999, none below 500 |
| Utils.BadgeMonotone | lib/utils.ts:193-198 | more reputation never earns a lower badge |
| Utils.BadgeRankCountsThresholds | lib/utils.ts:193-198 | the badge's rank is the number of thresholds (500, 1000, 5000) reached |
| Utils.UnitFor | lib/utils.ts:40-68 | the unit chosen for a time difference is the one whose range contains it, for each of the seven ranges |
| Utils.FloorDiv | lib/utils.ts:48 | `Math.floor(d / u)` is the largest count whose multiple does not exceed `d`, negative differences included |
| Utils.Bucket | lib/utils.ts:38-68 | the elapsed time is shown in the unit of its range, with the floor of the difference over that unit |
| Utils.BucketRanges | lib/utils.ts:47-68 | the shown count stays within its unit's range (minutes 1–59, hours 1–23, days 1–6, weeks 1–4, months 1–12) |
| Utils.BucketMonotone | lib/utils.ts:47-68 | a longer elapsed time never shows as a smaller one |
| Utils.UnitWord | lib/utils.ts:49 | the unit word is singular exactly when the count is 1, plural otherwise |
| Utils.GetTimestamp | lib/utils.ts:21-69 | "Unknown time" for a falsy argument, "Invalid date" for an unparsable one, otherwise the count, the unit word and "ago" of the elapsed bucket |
| Utils.TimestampExamples | lib/utils.ts:47-64 | 90 seconds shows as 1 minute, two hours as 2 hours, 45 days as 1 month |
| Utils.Increment | lib/utils.ts:142 | the badge's counter goes up by one and the others are unchanged |
| Utils.AssignBadges | lib/utils.ts:129-147 | the counters equal, for each badge, the number of (criterion, level) pairs whose threshold the criterion's count reaches |
| Utils.EarnedOnce | lib/utils.ts:140-144 | with a table listing each level once, one criterion earns a badge at most once, and exactly when its count reaches that level's threshold |
| Utils.AwardedBound | lib/utils.ts:136-145 | no badge is awarded more often than there are criteria |
| Utils.EarnedMonotone | lib/utils.ts:141 | a higher count never earns fewer badges |
| Utils.Split | lib/utils.ts:154 | `split(" ")` returns at least one piece and no piece contains the separator |
| Utils.SplitJoin | lib/utils.ts:154-169 | joining the pieces of a split with the separator gives back the string |
| Utils.JoinSplit | lib/utils.ts:154-169 | splitting a join of separator-free words gives back the words |
| Utils.ProcessJobTitle | lib/utils.ts:149-171 | a missing title, or one whose every word is "undefined" or "null" in any case, gives "No Job Title" |
| Utils.ProcessJobTitleUnchanged | lib/utils.ts:153-170 | a title without such words comes back unchanged |
| Utils.ProcessJobTitleClean | lib/utils.ts:156-170 | when some word is kept, the result's words are exactly the title's kept words, in order, and none is "undefined" or "null"; when none is kept, the result is "No Job Title" |
| Utils.ProcessJobTitleDropsNull | lib/utils.ts:156-170 | "null Engineer" gives "Engineer" |
| Utils.ProcessJobTitleOnlyNull | lib/utils.ts:153-168 | "Null" gives "No Job Title" |
| Utils.SplitTwoWords | lib/utils.ts:156 | two words without spaces, joined by one space, split back into the two words |
| Utils.CollapseRuns | lib/utils.ts:209-210 | `replace(/p+/g, c)` is empty iff its input is, and never leaves `c` directly followed by a character of the run class |
| Utils.CollapseRunsKeeps | lib/utils.ts:209-210 | collapsing keeps a character class that the replacement character belongs to |
| Utils.CollapseRunsNoRuns | lib/utils.ts:209-210 | a string without runs to collapse is unchanged |
| Utils.Slug | lib/utils.ts:206-211 | a slug consists of `[a-z0-9_-]` and never holds two dashes in a row |
| Utils.SlugIdempotent | lib/utils.ts:206-211 | the slug of a slug is itself |
| Utils.SlugTwoWords | lib/utils.ts:206-211 | two words of lowercase letters and digits separated by a space become the two words joined by a dash |
| Utils.SpaceBecomesDash | lib/utils.ts:208-209 | the space between two such words becomes one dash |
| Utils.DashStays | lib/utils.ts:210 | a single dash between two such words is left as it is |
| Utils.CollapseRunsPlainPrefix | lib/utils.ts:209-210 | a prefix without run characters passes through the run replacement unchanged |
| Utils.SlugOfSlugChars | lib/utils.ts:206-211 | a string of slug characters without a double dash is its own slug |
| Utils.LastFour | lib/utils.ts:214 | `slice(-4)` is the last four characters, or the whole string when shorter |
| Utils.GenerateSlug | lib/utils.ts:204-216 | the result is the slug, a dash, and the last four characters (fewer when shorter) of the clock's decimal form, which are digits |
| Text.Trim | lib/utils.ts:211 | trimming leaves no whitespace at either end and keeps a string without whitespace |
| Text.Lower | lib/utils.ts:207 | lowercasing keeps the length and lowercases each character |
| Text.NatToString | lib/utils.ts:214 | the decimal form of a number is a non-empty string of digits, of length 1 iff the number is below 10 |
| Text.NatToStringInjective | lib/actions/user.action.ts:159 | different numbers have different decimal forms |
| QuestionForm.ClassifyEntry | components/forms/Question.tsx:74-95 | Enter in the tags field with a non-blank trimmed value: too long iff over 15 characters, added iff new, duplicate iff present; any other key press is ignored |
| QuestionForm.TagField.HandleInputKeyDown | components/forms/Question.tsx:74-96 | an added tag is appended and the input and error are cleared; a long one only sets the error message; anything else changes nothing; the tags stay duplicate-free |
| QuestionForm.TagField.HandleTagRemove | components/forms/Question.tsx:98-101 | every copy of the tag is removed, the others keep their order, and the input and error are unchanged |
| QuestionForm.AppendKeepsNoDuplicates | components/forms/Question.tsx:87-88 | appending a value not yet present keeps the tags duplicate-free |
| QuestionForm.AddThenRemove | components/forms/Question.tsx:87-101 | removing a tag just added gives back the tags before it |
| QuestionForm.LengthLimitInclusive | components/forms/Question.tsx:81-86 | the limit is inclusive: 15 characters are accepted, 16 refused, although the message says "less than 15" |

## Left out

- Database I/O, connections, `revalidatePath`, logging and the re-thrown errors of the `catch` blocks: the actions are pure functions or store methods, and errors are `Result` / `Outcome` values.
- The sort orders of the queries (`newest`, `frequent`, `popular`, `name`, `recent`, `old`, `new_users`, `top_contributors`, `most_voted` and the rest) are not modelled. Each query takes its collection already in the order its sort gives.
- GetQuestions: the `unanswered` filter clause is not modelled, because the question record has no `answers` array.
- Search clauses are case-insensitive substring tests. The query string is not interpreted as a regular expression, so special characters match literally.
- Text.Lower: case folding is ASCII-only. JavaScript's `toLowerCase` also folds other letters (the Kelvin sign U+212A becomes "k"), so `UserActions.BaseUsername` and `Utils.Slug` drop characters the source would keep after lowering; search clauses fold the same way.
- QuestionActions.UpsertTag / Store.Database.CreateQuestion: the tag lookup is modelled as equality ignoring case. The source builds the pattern `^${tag}$` from the raw name (lib/actions/question.action.ts:86), so a name with regular-expression metacharacters matches more (the name "node.js" also finds an existing "nodexjs"), and an invalid pattern such as "c++" throws after the question was created (lines 77-81), leaving it without tags. The model assumes tag names hold no metacharacters.
- TagActions.Tally / TagActions.TopTags: the frequency dictionary is modelled as ordered by first insertion. A JavaScript object lists integer-like keys ("42", "2024") first, in numeric order (lib/actions/tag.actions.ts:41), which changes the tie order among equal counts, and names that are `Object.prototype` members ("constructor", "toString") find a truthy value at lines 29 and 32, so their id is never recorded and their count becomes `NaN`. The model assumes tag names are neither integer-like nor prototype member names.
- `populate`: references whose document no longer exists are dropped, and populated fields are not copied into results. Questions carry the ids of their tags and author.
- Paging requires `page >= 1` and `pageSize >= 1` after defaults. MongoDB's error on a negative skip and its "no limit" reading of `limit(0)` are not modelled.
- Dates: parsing of the `createdAt` string or `Date` is not modelled. `GetTimestamp` receives the outcome (absent, unparsable, or an instant in milliseconds) and the current time.
- `Date.now()` in `generateSlug` is a parameter.
- AssignBadges: the `BADGE_CRITERIA` table is not part of this model. It is a parameter whose levels are assumed to be gold, silver or bronze. A criterion type missing from the table is excluded by a precondition, where the source would throw a `TypeError`.
- Tag length in the form is counted in characters, not UTF-16 code units.
- HandleInputKeyDown: the `form.trigger()` validation on a duplicate is left out. It revalidates the form but changes no tag.
- Store.Database.DeleteUser: answers, interactions and tag entries of the deleted user's questions stay, as the source leaves them.
- Concurrency: each action runs atomically. The source's separate updates (a crash between the vote update and the reputation increments) are not modelled.
- `getQuestionById`, `editQuestion`, `getHotQuestions`, `getFeaturedQuestions`, `getTopPopularTags`, `getUserById`, `createUser`, `updateUser`, `getUserInfo` and the remaining helpers of `lib/utils.ts` lie outside the modelled core.

## Findings

| source | as written | input that shows it | evidently intended | confidence | as-written member | corrected member |
|---|---|---|---|---|---|---|
| lib/actions/tag.actions.ts:144-156 (same pattern at lib/actions/user.action.ts:227-238) | fetches `pageSize + 1` questions to detect a next page and returns all of them | 11 matches, `page` 1, `pageSize` 10: page 1 shows 11 questions and page 2 shows the 11th again | return only the first `pageSize` items, which then equal the count-based page | high (not executed) | Paging.OverFetchShowsNextPageItem | Paging.TrimmedOverFetchPage |
| lib/actions/tag.actions.ts:106-113 | `isNext = totalTags.length > skipAmount + pageSize`, where `totalTags` is already skipped and limited to `pageSize` | 5 tags, `filter` "popular", `page` 1, `pageSize` 4: a second page exists but `isNext` is false | compare the number of matching tags with `skip + pageSize` (count-based `isNext`) | high (not executed) | Paging.PopularPageNeverNext | Paging.CountPageNext |
