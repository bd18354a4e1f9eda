/** The proposal-side command handlers of the portal's root component:
    close, edit, visibility toggle and casting a vote. (Create prepends a
    proposal and reorder replaces the whole collection; the class in module
    App does both directly.) */
module VoteCommands {
  import opened Types
  import opened Seqs

  /** The tally of a proposal agrees with its voter list: one vote per voter,
      no voter twice. */
  predicate TallyConsistent(v: VoteItem)
  {
    v.totalVotes == |v.votedUserIds| && DistinctBy(v.votedUserIds, (x: string) => x)
  }

  /** The sum of the option counts of a proposal. */
  function SumCounts(options: seq<VoteOption>): nat
  {
    if options == [] then 0 else options[0].count + SumCounts(options[1..])
  }

  /** How many options carry the id `optionId`. */
  function CountWithId(options: seq<VoteOption>, optionId: string): nat
  {
    if options == [] then 0
    else (if options[0].id == optionId then 1 else 0) + CountWithId(options[1..], optionId)
  }

  /** An id carried by exactly one option is counted once. */
  lemma {:induction false} CountWithDistinctId(options: seq<VoteOption>, k: nat)
    requires DistinctBy(options, OptionKey) && k < |options|
    ensures CountWithId(options, options[k].id) == 1
  {
    var t := options[1..];
    assert DistinctBy(t, OptionKey) by {
      forall i, j | 0 <= i < j < |t| ensures OptionKey(t[i]) != OptionKey(t[j]) {
        assert t[i] == options[i + 1] && t[j] == options[j + 1];
      }
    }
    if k == 0 {
      AbsentIdCounted(t, options[0].id);
    } else {
      assert t[k - 1] == options[k];
      CountWithDistinctId(t, k - 1);
    }
  }

  /** An id that no option carries is counted zero times. */
  lemma {:induction false} AbsentIdCounted(options: seq<VoteOption>, optionId: string)
    requires forall j :: 0 <= j < |options| ==> options[j].id != optionId
    ensures CountWithId(options, optionId) == 0
  {
    if options != [] {
      AbsentIdCounted(options[1..], optionId);
    }
  }

  /** Options that all start at zero sum to zero. */
  lemma {:induction false} ZeroCounts(options: seq<VoteOption>)
    requires forall j :: 0 <= j < |options| ==> options[j].count == 0
    ensures SumCounts(options) == 0
  {
    if options != [] {
      ZeroCounts(options[1..]);
    }
  }

  // ------------------------------------------------------------------ close

  /** The proposals with id `id` become closed; nothing else changes. */
  function CloseVote(votes: seq<VoteItem>, id: string): (r: seq<VoteItem>)
    ensures |r| == |votes|
    ensures forall i :: 0 <= i < |r| ==>
              && r[i].status == (if votes[i].id == id then Closed else votes[i].status)
              && r[i].(status := votes[i].status) == votes[i]
  {
    seq(|votes|, i requires 0 <= i < |votes| =>
      if votes[i].id == id then votes[i].(status := Closed) else votes[i])
  }

  /** Closing twice is closing once. */
  lemma CloseVoteIdempotent(votes: seq<VoteItem>, id: string)
    ensures CloseVote(CloseVote(votes, id), id) == CloseVote(votes, id)
  {
    var once := CloseVote(votes, id);
    var twice := CloseVote(once, id);
    forall i | 0 <= i < |once| ensures twice[i] == once[i] {
      assert twice[i].(status := once[i].status) == once[i];
    }
  }

  // ------------------------------------------------------------------- edit

  /** The fields the proposal editor sends; `None` leaves a field as it was. */
  datatype VoteEdit = VoteEdit(title: Option<string>, description: Option<string>, deadline: Option<string>)

  /** The proposals with id `id` take the supplied title, description and
      deadline; status, options, counts, voters, visibility and order never
      change. */
  function EditVote(votes: seq<VoteItem>, id: string, edit: VoteEdit): (r: seq<VoteItem>)
    ensures |r| == |votes|
    ensures forall i :: 0 <= i < |r| && votes[i].id == id ==>
              && r[i].title == Pick(edit.title, votes[i].title)
              && r[i].description == Pick(edit.description, votes[i].description)
              && r[i].deadline == Pick(edit.deadline, votes[i].deadline)
    ensures forall i :: 0 <= i < |r| && votes[i].id != id ==> r[i] == votes[i]
    ensures forall i :: 0 <= i < |r| ==>
              r[i].(title := votes[i].title, description := votes[i].description,
                    deadline := votes[i].deadline) == votes[i]
  {
    seq(|votes|, i requires 0 <= i < |votes| =>
      if votes[i].id == id
      then votes[i].(title := Pick(edit.title, votes[i].title),
                     description := Pick(edit.description, votes[i].description),
                     deadline := Pick(edit.deadline, votes[i].deadline))
      else votes[i])
  }

  // ------------------------------------------------------------- visibility

  /** A proposal is listed unless its flag is explicitly false. */
  predicate IsListed(v: VoteItem)
  {
    v.isVisible != Some(false)
  }

  /** `!isVisible`: an absent flag counts as false, so it becomes true. */
  function Negated(flag: Option<bool>): bool
  {
    match flag
    case Some(b) => !b
    case None => true
  }

  /** The target's flag becomes present and negated; nothing else changes.
      A target whose flag was present changes from listed to hidden or back;
      one whose flag was absent stays listed. */
  function ToggleVisibility(votes: seq<VoteItem>, id: string): (r: seq<VoteItem>)
    ensures |r| == |votes|
    ensures forall i :: 0 <= i < |r| && votes[i].id == id ==>
              && r[i].isVisible.Some?
              && (votes[i].isVisible.Some? ==> IsListed(r[i]) == !IsListed(votes[i]))
              && (votes[i].isVisible.None? ==> IsListed(r[i]))
    ensures forall i :: 0 <= i < |r| ==> r[i].(isVisible := votes[i].isVisible) == votes[i]
    ensures forall i :: 0 <= i < |r| && votes[i].id != id ==> r[i] == votes[i]
  {
    seq(|votes|, i requires 0 <= i < |votes| =>
      if votes[i].id == id then votes[i].(isVisible := Some(Negated(votes[i].isVisible))) else votes[i])
  }

  /** Two toggles restore a present flag. */
  lemma ToggleTwice(votes: seq<VoteItem>, id: string)
    requires forall v :: v in votes && v.id == id ==> v.isVisible.Some?
    ensures ToggleVisibility(ToggleVisibility(votes, id), id) == votes
  {
    var once := ToggleVisibility(votes, id);
    var twice := ToggleVisibility(once, id);
    forall i | 0 <= i < |votes| ensures twice[i] == votes[i] {
      if votes[i].id == id {
        assert votes[i] in votes;
        assert twice[i].(isVisible := votes[i].isVisible) == votes[i];
      }
    }
  }

  // ------------------------------------------------------------ cast a vote

  /** Adds one to the count of every option whose id is `optionId`. */
  function Tally(options: seq<VoteOption>, optionId: string): (r: seq<VoteOption>)
    ensures |r| == |options|
    ensures forall j :: 0 <= j < |r| ==>
              && r[j].count == (if options[j].id == optionId then options[j].count + 1 else options[j].count)
              && r[j].(count := options[j].count) == options[j]
  {
    seq(|options|, j requires 0 <= j < |options| =>
      if options[j].id == optionId then options[j].(count := options[j].count + 1) else options[j])
  }

  /** A proposal after `voterId` has voted for `optionId` on it: the voter is
      then on the list; a voter already there changes nothing; a first vote
      raises the total by one, appends the voter, tallies the options and
      touches no other field. */
  function Ballot(v: VoteItem, optionId: string, voterId: string): (r: VoteItem)
    ensures voterId in r.votedUserIds
    ensures voterId in v.votedUserIds ==> r == v
    ensures voterId !in v.votedUserIds ==>
              && r.totalVotes == v.totalVotes + 1
              && r.votedUserIds == v.votedUserIds + [voterId]
              && r.options == Tally(v.options, optionId)
              && r.(totalVotes := v.totalVotes, votedUserIds := v.votedUserIds, options := v.options) == v
  {
    if voterId in v.votedUserIds then v
    else v.(totalVotes := v.totalVotes + 1,
            votedUserIds := v.votedUserIds + [voterId],
            options := Tally(v.options, optionId))
  }

  /** A voter already on the list changes nothing. A first vote adds exactly
      one to the total, appends the voter once, adds one to the chosen
      option's count (even when no option has that id, the total still
      grows), keeps every option's id and caption, and changes no other field
      of the proposal; proposals with another id are untouched. Neither status nor role is checked here. */
  function CastVote(votes: seq<VoteItem>, voteId: string, optionId: string, voterId: string): (r: seq<VoteItem>)
    ensures |r| == |votes|
    ensures forall i :: 0 <= i < |r| && (votes[i].id != voteId || voterId in votes[i].votedUserIds) ==>
              r[i] == votes[i]
    ensures forall i :: 0 <= i < |r| && votes[i].id == voteId && voterId !in votes[i].votedUserIds ==>
              && r[i].totalVotes == votes[i].totalVotes + 1
              && r[i].votedUserIds == votes[i].votedUserIds + [voterId]
              && |r[i].options| == |votes[i].options|
              && (forall j :: 0 <= j < |r[i].options| ==>
                    r[i].options[j].count
                      == votes[i].options[j].count + (if votes[i].options[j].id == optionId then 1 else 0))
              && (forall j :: 0 <= j < |r[i].options| ==>
                    r[i].options[j].(count := votes[i].options[j].count) == votes[i].options[j])
              && r[i].options == Tally(votes[i].options, optionId)
              && r[i].(totalVotes := votes[i].totalVotes, votedUserIds := votes[i].votedUserIds,
                       options := votes[i].options) == votes[i]
  {
    seq(|votes|, i requires 0 <= i < |votes| =>
      if votes[i].id == voteId then Ballot(votes[i], optionId, voterId) else votes[i])
  }

  /** Voting again, for any option, changes nothing: casting is idempotent
      per proposal and voter. */
  lemma CastVoteIdempotent(votes: seq<VoteItem>, voteId: string, o1: string, o2: string, voterId: string)
    ensures CastVote(CastVote(votes, voteId, o1, voterId), voteId, o2, voterId)
            == CastVote(votes, voteId, o1, voterId)
  {
    var once := CastVote(votes, voteId, o1, voterId);
    var twice := CastVote(once, voteId, o2, voterId);
    forall i | 0 <= i < |once| ensures twice[i] == once[i] {
      if votes[i].id == voteId && voterId !in votes[i].votedUserIds {
        assert once[i].votedUserIds[|votes[i].votedUserIds|] == voterId;
      }
    }
  }

  /** Casting keeps every proposal's tally consistent with its voter list. */
  lemma CastVoteKeepsTally(votes: seq<VoteItem>, voteId: string, optionId: string, voterId: string)
    requires forall v :: v in votes ==> TallyConsistent(v)
    ensures forall v :: v in CastVote(votes, voteId, optionId, voterId) ==> TallyConsistent(v)
  {
    var r := CastVote(votes, voteId, optionId, voterId);
    forall v | v in r ensures TallyConsistent(v) {
      var i :| 0 <= i < |r| && r[i] == v;
      assert votes[i] in votes;
      if votes[i].id == voteId && voterId !in votes[i].votedUserIds {
        var ids := votes[i].votedUserIds;
        assert !KeyIn(ids, (x: string) => x, voterId);
        DistinctByAppend(ids, voterId, (x: string) => x);
      }
    }
  }

  /** Every status is what it was: casting a vote never reopens or closes. */
  lemma CastVoteKeepsStatus(votes: seq<VoteItem>, voteId: string, optionId: string, voterId: string)
    ensures forall i :: 0 <= i < |votes| ==>
              CastVote(votes, voteId, optionId, voterId)[i].status == votes[i].status
  {
  }

  /** The option counts grow by the number of options carrying the chosen id. */
  lemma {:induction false} TallySum(options: seq<VoteOption>, optionId: string)
    ensures SumCounts(Tally(options, optionId)) == SumCounts(options) + CountWithId(options, optionId)
  {
    if options != [] {
      var r := Tally(options, optionId);
      assert r[1..] == Tally(options[1..], optionId);
      TallySum(options[1..], optionId);
    }
  }

  /** When exactly one option has the chosen id, a first vote keeps
      "total = sum of counts". */
  lemma BallotKeepsSum(v: VoteItem, optionId: string, voterId: string)
    requires v.totalVotes == SumCounts(v.options) && CountWithId(v.options, optionId) == 1
    ensures Ballot(v, optionId, voterId).totalVotes == SumCounts(Ballot(v, optionId, voterId).options)
  {
    TallySum(v.options, optionId);
  }

  /** When no option has the chosen id, a first vote still raises the total,
      so the total exceeds the sum of counts. */
  lemma BallotUnknownOption(v: VoteItem, optionId: string, voterId: string)
    requires v.totalVotes == SumCounts(v.options) && CountWithId(v.options, optionId) == 0
    requires voterId !in v.votedUserIds
    ensures Ballot(v, optionId, voterId).totalVotes == SumCounts(Ballot(v, optionId, voterId).options) + 1
  {
    TallySum(v.options, optionId);
  }

  /** Closing is terminal: no command on a proposal's fields reopens it,
      and none of them touches a tally. */
  lemma ClosedStaysClosed(votes: seq<VoteItem>, id: string, edit: VoteEdit, optionId: string, voterId: string)
    ensures forall i :: 0 <= i < |votes| && votes[i].status == Closed ==>
              && CloseVote(votes, id)[i].status == Closed
              && EditVote(votes, id, edit)[i].status == Closed
              && ToggleVisibility(votes, id)[i].status == Closed
              && CastVote(votes, id, optionId, voterId)[i].status == Closed
    ensures forall i :: 0 <= i < |votes| && TallyConsistent(votes[i]) ==>
              && TallyConsistent(CloseVote(votes, id)[i])
              && TallyConsistent(EditVote(votes, id, edit)[i])
              && TallyConsistent(ToggleVisibility(votes, id)[i])
  {
  }
}
