/** The vote ledger of `upvoteQuestion` / `downvoteQuestion`: the update each sends to a
    question's `upvotes` and `downvotes` arrays, driven by the caller's `hasAlreadyUpvoted` and
    `hasAlreadyDownvoted` flags, and the reputation deltas for the voter and the author.
    The arrays are sequences, not sets: the flip branch uses `$push`, so stale flags can
    produce duplicates. */
module Votes {
  import opened Seqs
  import opened Entities

  datatype Ballots = Ballots(upvotes: seq<UserId>, downvotes: seq<UserId>)

  datatype Direction = Up | Down

  /** The update document of `upvoteQuestion`. */
  function Upvote(b: Ballots, voter: UserId, hasAlreadyUpvoted: bool, hasAlreadyDownvoted: bool): (r: Ballots)
    ensures forall w :: w != voter ==>
              multiset(r.upvotes)[w] == multiset(b.upvotes)[w] && multiset(r.downvotes)[w] == multiset(b.downvotes)[w]
    ensures hasAlreadyUpvoted ==> voter !in r.upvotes && r.downvotes == b.downvotes
    ensures !hasAlreadyUpvoted && hasAlreadyDownvoted ==>
              multiset(r.upvotes)[voter] == multiset(b.upvotes)[voter] + 1 && voter !in r.downvotes
    ensures !hasAlreadyUpvoted && !hasAlreadyDownvoted ==>
              voter in r.upvotes && r.downvotes == b.downvotes
              && multiset(r.upvotes)[voter] == if voter in b.upvotes then multiset(b.upvotes)[voter] else 1
  {
    if hasAlreadyUpvoted then
      Ballots(Pull(b.upvotes, voter), b.downvotes)
    else if hasAlreadyDownvoted then
      Ballots(b.upvotes + [voter], Pull(b.downvotes, voter))
    else
      Ballots(AddToSet(b.upvotes, voter), b.downvotes)
  }

  /** The update document of `downvoteQuestion`. */
  function Downvote(b: Ballots, voter: UserId, hasAlreadyUpvoted: bool, hasAlreadyDownvoted: bool): (r: Ballots)
    ensures forall w :: w != voter ==>
              multiset(r.upvotes)[w] == multiset(b.upvotes)[w] && multiset(r.downvotes)[w] == multiset(b.downvotes)[w]
    ensures hasAlreadyDownvoted ==> voter !in r.downvotes && r.upvotes == b.upvotes
    ensures !hasAlreadyDownvoted && hasAlreadyUpvoted ==>
              multiset(r.downvotes)[voter] == multiset(b.downvotes)[voter] + 1 && voter !in r.upvotes
    ensures !hasAlreadyDownvoted && !hasAlreadyUpvoted ==>
              voter in r.downvotes && r.upvotes == b.upvotes
              && multiset(r.downvotes)[voter] == if voter in b.downvotes then multiset(b.downvotes)[voter] else 1
  {
    if hasAlreadyDownvoted then
      Ballots(b.upvotes, Pull(b.downvotes, voter))
    else if hasAlreadyUpvoted then
      Ballots(Pull(b.upvotes, voter), b.downvotes + [voter])
    else
      Ballots(b.upvotes, AddToSet(b.downvotes, voter))
  }

  function Vote(b: Ballots, voter: UserId, d: Direction, hasAlreadyUpvoted: bool, hasAlreadyDownvoted: bool): Ballots {
    match d
    case Up => Upvote(b, voter, hasAlreadyUpvoted, hasAlreadyDownvoted)
    case Down => Downvote(b, voter, hasAlreadyUpvoted, hasAlreadyDownvoted)
  }

  /** A vote undoes itself when the voter already holds a vote in the same direction. */
  function Undoing(d: Direction, hasAlreadyUpvoted: bool, hasAlreadyDownvoted: bool): bool {
    if d == Up then hasAlreadyUpvoted else hasAlreadyDownvoted
  }

  /** The voter's `$inc`. */
  function VoterDelta(undoing: bool): (r: int)
    ensures r < 0 <==> undoing
    ensures r == 2 || r == -2
  {
    if undoing then -2 else 2
  }

  /** The author's `$inc`. */
  function AuthorDelta(undoing: bool): (r: int)
    ensures r < 0 <==> undoing
    ensures r == 10 || r == -10
    ensures r == 5 * VoterDelta(undoing)
  {
    if undoing then -10 else 10
  }

  function Swap(b: Ballots): Ballots { Ballots(b.downvotes, b.upvotes) }

  /** Downvoting is upvoting with the two arrays and the two flags exchanged. */
  lemma DownvoteMirrorsUpvote(b: Ballots, voter: UserId, hasUp: bool, hasDown: bool)
    ensures Downvote(b, voter, hasUp, hasDown) == Swap(Upvote(Swap(b), voter, hasDown, hasUp))
  {
  }

  // ---- the three-state machine ----

  datatype VoterState = NoVote | UpVoted | DownVoted

  datatype Step = Step(next: VoterState, voterDelta: int, authorDelta: int)

  /** The intended transition table: same direction toggles off (-2/-10), anything else
      lands on the requested direction (+2/+10), a flip included. */
  function Transition(s: VoterState, d: Direction): Step {
    match (s, d)
    case (NoVote, Up) => Step(UpVoted, 2, 10)
    case (NoVote, Down) => Step(DownVoted, 2, 10)
    case (UpVoted, Up) => Step(NoVote, -2, -10)
    case (UpVoted, Down) => Step(DownVoted, 2, 10)
    case (DownVoted, Up) => Step(UpVoted, 2, 10)
    case (DownVoted, Down) => Step(NoVote, -2, -10)
  }

  /** The voter is in at most one of the arrays, at most once. */
  ghost predicate AtMostOnce(b: Ballots, voter: UserId) {
    multiset(b.upvotes)[voter] + multiset(b.downvotes)[voter] <= 1
  }

  /** The caller's flags match what is stored. */
  ghost predicate FlagsAgree(b: Ballots, voter: UserId, hasUp: bool, hasDown: bool) {
    hasUp == (voter in b.upvotes) && hasDown == (voter in b.downvotes)
  }

  ghost function StateOf(b: Ballots, voter: UserId): VoterState {
    if voter in b.upvotes then UpVoted else if voter in b.downvotes then DownVoted else NoVote
  }

  /** With truthful flags, a vote keeps the voter in at most one array at most once, and the
      new membership and both reputation deltas are those of the transition table. */
  lemma VoteFollowsTable(b: Ballots, voter: UserId, d: Direction, hasUp: bool, hasDown: bool)
    requires AtMostOnce(b, voter) && FlagsAgree(b, voter, hasUp, hasDown)
    ensures var r := Vote(b, voter, d, hasUp, hasDown);
            var t := Transition(StateOf(b, voter), d);
            && AtMostOnce(r, voter)
            && StateOf(r, voter) == t.next
            && VoterDelta(Undoing(d, hasUp, hasDown)) == t.voterDelta
            && AuthorDelta(Undoing(d, hasUp, hasDown)) == t.authorDelta
  {
  }

  /** Votes cast with the flags a client reads from the stored arrays. */
  function VoteSequence(b: Ballots, voter: UserId, ds: seq<Direction>): Ballots
    decreases |ds|
  {
    if ds == [] then b
    else VoteSequence(Vote(b, voter, ds[0], voter in b.upvotes, voter in b.downvotes), voter, ds[1..])
  }

  /** Mutual exclusion holds after any sequence of truthfully flagged votes. */
  lemma {:induction false} VoteSequenceExclusive(b: Ballots, voter: UserId, ds: seq<Direction>)
    requires AtMostOnce(b, voter)
    ensures AtMostOnce(VoteSequence(b, voter, ds), voter)
    decreases |ds|
  {
    if ds != [] {
      VoteFollowsTable(b, voter, ds[0], voter in b.upvotes, voter in b.downvotes);
      VoteSequenceExclusive(Vote(b, voter, ds[0], voter in b.upvotes, voter in b.downvotes), voter, ds[1..]);
    }
  }

  lemma PullAppended(s: seq<UserId>, x: UserId)
    requires x !in s
    ensures Pull(s + [x], x) == s
  {
    PullAppend(s, x, x);
  }

  /** A fresh vote followed by its undo restores both arrays, and the reputation deltas cancel. */
  lemma FreshVoteThenUndo(b: Ballots, voter: UserId, d: Direction)
    requires voter !in b.upvotes && voter !in b.downvotes
    ensures var once := Vote(b, voter, d, false, false);
            && Vote(once, voter, d, voter in once.upvotes, voter in once.downvotes) == b
            && VoterDelta(Undoing(d, false, false)) + VoterDelta(Undoing(d, voter in once.upvotes, voter in once.downvotes)) == 0
            && AuthorDelta(Undoing(d, false, false)) + AuthorDelta(Undoing(d, voter in once.upvotes, voter in once.downvotes)) == 0
  {
    if d == Up {
      PullAppended(b.upvotes, voter);
    } else {
      PullAppended(b.downvotes, voter);
    }
  }

  /** Stale flags: a voter who already upvoted but is reported as having downvoted gets a
      second entry in `upvotes`, since the flip branch pushes instead of adding to a set. */
  lemma StaleFlagsDuplicate()
    ensures Upvote(Ballots([7], []), 7, false, true).upvotes == [7, 7]
  {
    assert Pull([], 7) == [];
  }
}
