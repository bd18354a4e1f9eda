/** The resident's dashboard: the verification gate, the open proposals,
    whether the resident has voted, who else has, the result percentages
    and the password form's length check. */
module OwnerView {
  import opened Types
  import opened Seqs
  import opened Format
  import opened UserCommands
  import opened VoteCommands
  import opened Feeds

  /** The proposals shown to `current`: none until it is verified, then the
      open ones of the feed it is given, in the feed's order. */
  function ProposalsShown(current: User, feed: seq<VoteItem>): (r: seq<VoteItem>)
    ensures current.status != Verified ==> r == []
    ensures current.status == Verified ==> forall v :: v in r <==> v in feed && IsActive(v)
    ensures current.status == Verified ==> Selects(r, feed, IsActive)
  {
    if current.status != Verified then []
    else
      FilterSelects(feed, IsActive);
      Filter(feed, IsActive)
  }

  /** A verified resident sees exactly the visitors' feed. */
  lemma VerifiedSeesPublicFeed(current: User, votes: seq<VoteItem>)
    requires current.status == Verified
    ensures ProposalsShown(current, OwnerFeed(votes)) == PublicFeed(votes)
  {
    PublicFeedIsActiveOwnerFeed(votes);
  }

  /** Whether `userId` is on the proposal's voter list, at some position. */
  function HasVoted(v: VoteItem, userId: string): (b: bool)
    ensures b <==> exists k :: 0 <= k < |v.votedUserIds| && v.votedUserIds[k] == userId
  {
    userId in v.votedUserIds
  }

  /** After casting, the voter has voted on every proposal with that id;
      on other proposals nothing changed. */
  lemma HasVotedAfterCast(votes: seq<VoteItem>, voteId: string, optionId: string, voterId: string)
    ensures var r := CastVote(votes, voteId, optionId, voterId);
            forall i :: 0 <= i < |votes| ==>
              && (votes[i].id == voteId ==> HasVoted(r[i], voterId))
              && (votes[i].id != voteId ==> r[i] == votes[i])
  {
    var r := CastVote(votes, voteId, optionId, voterId);
    forall i | 0 <= i < |votes| && votes[i].id == voteId ensures HasVoted(r[i], voterId) {
      if voterId !in votes[i].votedUserIds {
        assert r[i].votedUserIds[|votes[i].votedUserIds|] == voterId;
      }
    }
  }

  /** The voter list: empty until the resident has voted; then every user
      whose id is among the voters, in the order of the user collection. */
  function VotersList(v: VoteItem, current: User, allUsers: seq<User>): (r: seq<User>)
    ensures !HasVoted(v, current.id) ==> r == []
    ensures HasVoted(v, current.id) ==> forall u :: u in r <==> u in allUsers && u.id in v.votedUserIds
    ensures HasVoted(v, current.id) ==> Selects(r, allUsers, VotedOn(v))
  {
    if HasVoted(v, current.id) then
      FilterSelects(allUsers, VotedOn(v));
      Filter(allUsers, VotedOn(v))
    else []
  }

  /** Whether a user's id is on the proposal's voter list. */
  function VotedOn(v: VoteItem): User -> bool
  {
    (u: User) => u.id in v.votedUserIds
  }

  /** Once the resident has voted, the resident is on the list. */
  lemma VoterSeesSelf(votes: seq<VoteItem>, k: nat, optionId: string, current: User, allUsers: seq<User>)
    requires k < |votes| && current in allUsers
    ensures current in VotersList(CastVote(votes, votes[k].id, optionId, current.id)[k], current, allUsers)
  {
    HasVotedAfterCast(votes, votes[k].id, optionId, current.id);
  }

  /** `Math.round(count / total * 100)`, with 0 when nobody has voted. */
  function OptionPercent(opt: VoteOption, total: nat): (r: nat)
    ensures total == 0 ==> r == 0
    ensures total > 0 ==> 2 * total * r <= 200 * opt.count + total < 2 * total * (r + 1)
  {
    if total > 0 then RoundPercent(opt.count, total) else 0
  }

  /** Every count is part of the sum. */
  lemma {:induction false} CountAtMostSum(options: seq<VoteOption>, j: nat)
    requires j < |options|
    ensures options[j].count <= SumCounts(options)
  {
    if j > 0 {
      assert options[1..][j - 1] == options[j];
      CountAtMostSum(options[1..], j - 1);
    }
  }

  /** When the total equals the sum of the counts, every percentage is at
      most 100. */
  lemma OptionPercentAtMost100(v: VoteItem, j: nat)
    requires j < |v.options| && v.totalVotes == SumCounts(v.options)
    ensures OptionPercent(v.options[j], v.totalVotes) <= 100
  {
    CountAtMostSum(v.options, j);
    if v.totalVotes > 0 {
      RoundPercentAtMost100(v.options[j].count, v.totalVotes);
    }
  }

  const MinPasswordLength: nat := 6

  /** The password form hands on a new password only when it has at least
      six characters. */
  function PasswordChangeRequest(newPassword: string): (r: Option<string>)
    ensures r.Some? <==> |newPassword| >= MinPasswordLength
    ensures r.Some? ==> r.value == newPassword
  {
    if |newPassword| < MinPasswordLength then None else Some(newPassword)
  }
}
