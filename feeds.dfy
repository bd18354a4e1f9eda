/** The views the portal's root component derives on every render: the
    public feed, the owner feed (filter, then a stable sort by `order`) and
    the landing-page statistics. */
module Feeds {
  import opened Types
  import opened Seqs
  import opened Format
  import opened VoteCommands
  import opened UserCommands

  predicate IsActive(v: VoteItem)
  {
    v.status == Active
  }

  /** Shown to visitors: listed and still open. */
  predicate IsPublic(v: VoteItem)
  {
    IsListed(v) && IsActive(v)
  }

  predicate SortedByOrder(s: seq<VoteItem>)
  {
    forall i, j :: 0 <= i < j < |s| ==> OrderKey(s[i]) <= OrderKey(s[j])
  }

  /** The proposals whose sort key is `k`. */
  function HasOrder(k: int): VoteItem -> bool
  {
    (v: VoteItem) => OrderKey(v) == k
  }

  // ------------------------------------------------------------ stable sort

  /** Places `x` before the first element whose key is not smaller. */
  function InsertByOrder(x: VoteItem, s: seq<VoteItem>): (r: seq<VoteItem>)
    ensures |r| == |s| + 1
    ensures multiset(r) == multiset(s) + multiset{x}
  {
    if s == [] || OrderKey(x) <= OrderKey(s[0]) then [x] + s
    else
      assert s == [s[0]] + s[1..];
      [s[0]] + InsertByOrder(x, s[1..])
  }

  /** Every key of `s` is at least `lo`. */
  predicate KeysAtLeast(s: seq<VoteItem>, lo: int)
  {
    forall i :: 0 <= i < |s| ==> lo <= OrderKey(s[i])
  }

  lemma {:induction false} SortedCons(a: VoteItem, t: seq<VoteItem>)
    requires SortedByOrder(t) && KeysAtLeast(t, OrderKey(a))
    ensures SortedByOrder([a] + t)
  {
    forall i, j | 0 <= i < j < |[a] + t| ensures OrderKey(([a] + t)[i]) <= OrderKey(([a] + t)[j]) {
      assert ([a] + t)[j] == t[j - 1];
      if i > 0 {
        assert ([a] + t)[i] == t[i - 1];
      }
    }
  }

  lemma {:induction false} InsertKeysAtLeast(x: VoteItem, s: seq<VoteItem>, lo: int)
    requires KeysAtLeast(s, lo) && lo <= OrderKey(x)
    ensures KeysAtLeast(InsertByOrder(x, s), lo)
  {
    if s != [] && OrderKey(x) > OrderKey(s[0]) {
      InsertKeysAtLeast(x, s[1..], lo);
    }
  }

  /** Insertion keeps a sorted sequence sorted. */
  lemma {:induction false} InsertSorted(x: VoteItem, s: seq<VoteItem>)
    requires SortedByOrder(s)
    ensures SortedByOrder(InsertByOrder(x, s))
  {
    if s == [] || OrderKey(x) <= OrderKey(s[0]) {
      SortedCons(x, s);
    } else {
      assert SortedByOrder(s[1..]);
      InsertSorted(x, s[1..]);
      InsertKeysAtLeast(x, s[1..], OrderKey(s[0]));
      SortedCons(s[0], InsertByOrder(x, s[1..]));
    }
  }

  /** `sort((a, b) => (a.order ?? 0) - (b.order ?? 0))` as an insertion sort:
      ascending by key, a permutation of the input. */
  function SortByOrder(s: seq<VoteItem>): (r: seq<VoteItem>)
    ensures |r| == |s|
    ensures multiset(r) == multiset(s)
    ensures SortedByOrder(r)
  {
    if s == [] then [] else
      assert s == [s[0]] + s[1..];
      InsertSorted(s[0], SortByOrder(s[1..]));
      InsertByOrder(s[0], SortByOrder(s[1..]))
  }

  lemma {:induction false} FilterCons(a: VoteItem, t: seq<VoteItem>, p: VoteItem -> bool)
    ensures Filter([a] + t, p) == (if p(a) then [a] else []) + Filter(t, p)
  {
    assert ([a] + t)[1..] == t;
  }

  /** The head of a sorted sequence has the least key. */
  lemma {:induction false} SortedHeadLeast(s: seq<VoteItem>, y: VoteItem)
    requires SortedByOrder(s) && y in s
    ensures OrderKey(s[0]) <= OrderKey(y)
  {
    var j :| 0 <= j < |s| && s[j] == y;
  }

  /** Inserting in front commutes with filtering. */
  lemma {:induction false} InsertFilterFront(x: VoteItem, s: seq<VoteItem>, p: VoteItem -> bool)
    requires SortedByOrder(s) && (s == [] || OrderKey(x) <= OrderKey(s[0]))
    ensures Filter(InsertByOrder(x, s), p)
            == if p(x) then InsertByOrder(x, Filter(s, p)) else Filter(s, p)
  {
    assert InsertByOrder(x, s) == [x] + s;
    FilterCons(x, s, p);
    var fs := Filter(s, p);
    if p(x) {
      if fs != [] {
        SortedHeadLeast(s, fs[0]);
      }
      assert InsertByOrder(x, fs) == [x] + fs;
    }
  }

  /** An element with a larger key goes past the head. */
  lemma InsertPast(x: VoteItem, a: VoteItem, t: seq<VoteItem>)
    requires OrderKey(a) < OrderKey(x)
    ensures InsertByOrder(x, [a] + t) == [a] + InsertByOrder(x, t)
  {
    assert ([a] + t)[1..] == t;
  }

  lemma FilterInsertPast(x: VoteItem, a: VoteItem, t: seq<VoteItem>, p: VoteItem -> bool)
    requires OrderKey(a) < OrderKey(x)
    ensures Filter(InsertByOrder(x, [a] + t), p) == (if p(a) then [a] else []) + Filter(InsertByOrder(x, t), p)
  {
    InsertPast(x, a, t);
    FilterCons(a, InsertByOrder(x, t), p);
  }

  /** A rejected element inserted past the head leaves the filter as it was,
      given that it does so for the tail. */
  lemma InsertFilterBackOut(x: VoteItem, a: VoteItem, t: seq<VoteItem>, p: VoteItem -> bool)
    requires OrderKey(a) < OrderKey(x) && !p(x)
    requires Filter(InsertByOrder(x, t), p) == Filter(t, p)
    ensures Filter(InsertByOrder(x, [a] + t), p) == Filter([a] + t, p)
  {
    FilterInsertPast(x, a, t, p);
    FilterCons(a, t, p);
  }

  /** A selected element inserted past the head is inserted into the filter,
      given that it is so for the tail. */
  lemma InsertFilterBackIn(x: VoteItem, a: VoteItem, t: seq<VoteItem>, p: VoteItem -> bool)
    requires OrderKey(a) < OrderKey(x) && p(x)
    requires Filter(InsertByOrder(x, t), p) == InsertByOrder(x, Filter(t, p))
    ensures Filter(InsertByOrder(x, [a] + t), p) == InsertByOrder(x, Filter([a] + t, p))
  {
    FilterInsertPast(x, a, t, p);
    FilterCons(a, t, p);
    if p(a) {
      InsertPast(x, a, Filter(t, p));
    } else {
      assert Filter([a] + t, p) == Filter(t, p);
      assert Filter(InsertByOrder(x, [a] + t), p) == Filter(InsertByOrder(x, t), p);
    }
  }

  /** Inserting a rejected element into a sorted sequence does not change
      its filter. */
  lemma {:induction false} InsertFilterOut(x: VoteItem, s: seq<VoteItem>, p: VoteItem -> bool)
    requires SortedByOrder(s) && !p(x)
    ensures Filter(InsertByOrder(x, s), p) == Filter(s, p)
  {
    if s == [] || OrderKey(x) <= OrderKey(s[0]) {
      InsertFilterFront(x, s, p);
    } else {
      var t := s[1..];
      assert s == [s[0]] + t;
      assert SortedByOrder(t);
      InsertFilterOut(x, t, p);
      InsertFilterBackOut(x, s[0], t, p);
    }
  }

  /** Inserting a selected element into a sorted sequence inserts it into
      the filter. */
  lemma {:induction false} InsertFilterIn(x: VoteItem, s: seq<VoteItem>, p: VoteItem -> bool)
    requires SortedByOrder(s) && p(x)
    ensures Filter(InsertByOrder(x, s), p) == InsertByOrder(x, Filter(s, p))
  {
    if s == [] || OrderKey(x) <= OrderKey(s[0]) {
      InsertFilterFront(x, s, p);
    } else {
      var t := s[1..];
      assert s == [s[0]] + t;
      assert SortedByOrder(t);
      InsertFilterIn(x, t, p);
      InsertFilterBackIn(x, s[0], t, p);
    }
  }

  /** Sorting and filtering commute: the sort keeps the relative order of
      every selected subsequence. */
  lemma {:induction false} SortFilterCommute(s: seq<VoteItem>, p: VoteItem -> bool)
    ensures Filter(SortByOrder(s), p) == SortByOrder(Filter(s, p))
  {
    if s != [] {
      var t := s[1..];
      assert s == [s[0]] + t;
      SortFilterCommute(t, p);
      FilterCons(s[0], t, p);
      if p(s[0]) {
        InsertFilterIn(s[0], SortByOrder(t), p);
        assert Filter(s, p) == [s[0]] + Filter(t, p);
        assert (Filter(s, p))[1..] == Filter(t, p);
      } else {
        InsertFilterOut(s[0], SortByOrder(t), p);
        assert Filter(s, p) == Filter(t, p);
      }
    }
  }

  /** A sequence whose keys are all equal is already in order. */
  lemma {:induction false} SortEqualKeys(s: seq<VoteItem>, k: int)
    requires forall v :: v in s ==> OrderKey(v) == k
    ensures SortByOrder(s) == s
  {
    if s != [] {
      SortEqualKeys(s[1..], k);
    }
  }

  /** The sort is stable: proposals with equal keys keep their input order. */
  lemma SortStable(s: seq<VoteItem>, k: int)
    ensures Filter(SortByOrder(s), HasOrder(k)) == Filter(s, HasOrder(k))
  {
    SortFilterCommute(s, HasOrder(k));
    var t := Filter(s, HasOrder(k));
    assert forall v :: v in t ==> HasOrder(k)(v);
    SortEqualKeys(t, k);
  }

  /** A sorted sequence is its own sort. */
  lemma {:induction false} SortSorted(s: seq<VoteItem>)
    requires SortedByOrder(s)
    ensures SortByOrder(s) == s
  {
    if s != [] {
      assert SortedByOrder(s[1..]);
      SortSorted(s[1..]);
      assert s == [s[0]] + s[1..];
    }
  }

  /** A filter of a sorted sequence is sorted. */
  lemma {:induction false} FilterSorted(s: seq<VoteItem>, p: VoteItem -> bool)
    requires SortedByOrder(s)
    ensures SortedByOrder(Filter(s, p))
  {
    if s != [] {
      var t := s[1..];
      assert s == [s[0]] + t;
      assert SortedByOrder(t);
      FilterSorted(t, p);
      FilterCons(s[0], t, p);
      if p(s[0]) {
        var ft := Filter(t, p);
        forall i | 0 <= i < |ft| ensures OrderKey(s[0]) <= OrderKey(ft[i]) {
          assert ft[i] in t;
        }
        SortedCons(s[0], ft);
      }
    }
  }

  // ------------------------------------------------------------------ feeds

  /** The visitors' feed: exactly the listed active proposals, ascending by
      key. */
  function PublicFeed(votes: seq<VoteItem>): (r: seq<VoteItem>)
    ensures SortedByOrder(r)
    ensures multiset(r) == multiset(Filter(votes, IsPublic))
    ensures forall v :: v in r <==> v in votes && IsPublic(v)
  {
    var r := SortByOrder(Filter(votes, IsPublic));
    assert forall v :: v in r <==> v in multiset(Filter(votes, IsPublic));
    r
  }

  /** The residents' feed: exactly the listed proposals, open or closed,
      ascending by key. */
  function OwnerFeed(votes: seq<VoteItem>): (r: seq<VoteItem>)
    ensures SortedByOrder(r)
    ensures multiset(r) == multiset(Filter(votes, IsListed))
    ensures forall v :: v in r <==> v in votes && IsListed(v)
  {
    var r := SortByOrder(Filter(votes, IsListed));
    assert forall v :: v in r <==> v in multiset(Filter(votes, IsListed));
    r
  }

  /** Ties in the public feed keep the order of the collection. */
  lemma PublicFeedStable(votes: seq<VoteItem>, k: int)
    ensures Filter(PublicFeed(votes), HasOrder(k)) == Filter(Filter(votes, IsPublic), HasOrder(k))
  {
    SortStable(Filter(votes, IsPublic), k);
  }

  /** The owner feed drops only the visibility test's partner: its active
      part is the public feed, element for element and in the same order. */
  lemma PublicFeedIsActiveOwnerFeed(votes: seq<VoteItem>)
    ensures Filter(OwnerFeed(votes), IsActive) == PublicFeed(votes)
  {
    SortFilterCommute(Filter(votes, IsListed), IsActive);
    FilterFilter(votes, IsListed, IsActive, IsPublic);
  }

  // ------------------------------------------------------------- statistics

  predicate IsVerifiedOwner(u: User)
  {
    u.role == Owner && u.status == Verified
  }

  /** The landing page's resident count: verified owners only, never admins. */
  function VerifiedOwnerCount(users: seq<User>): (r: nat)
    ensures r <= |users|
    ensures r == 0 <==> forall i :: 0 <= i < |users| ==> !IsVerifiedOwner(users[i])
  {
    var f := Filter(users, IsVerifiedOwner);
    assert |f| > 0 ==> f[0] in users;
    |f|
  }

  lemma VerifiedOwnerCountConcat(a: seq<User>, b: seq<User>)
    ensures VerifiedOwnerCount(a + b) == VerifiedOwnerCount(a) + VerifiedOwnerCount(b)
  {
    FilterConcat(a, b, IsVerifiedOwner);
  }

  /** A registration leaves the count alone: the newcomer is PENDING. */
  lemma RegisterKeepsVerifiedCount(users: seq<User>, id: string, name: string, phone: string,
                                   password: string, building: string, unit: string)
    ensures match Register(users, id, name, phone, password, building, unit)
            case Registered(next) => VerifiedOwnerCount(next) == VerifiedOwnerCount(users)
            case DuplicatePhone => true
  {
    var r := Register(users, id, name, phone, password, building, unit);
    if r.Registered? {
      var u := r.users[|users|];
      assert r.users == users + [u];
      VerifiedOwnerCountConcat(users, [u]);
      assert [u][1..] == [];
    }
  }

  /** An import raises the count by exactly the number of users it adds. */
  lemma ImportRaisesVerifiedCount(users: seq<User>, batch: seq<ImportRecord>, timestamp: string)
    ensures VerifiedOwnerCount(users + Imported(users, batch, timestamp))
            == VerifiedOwnerCount(users) + |Imported(users, batch, timestamp)|
  {
    var added := Imported(users, batch, timestamp);
    ImportedFromBatch(users, batch, timestamp);
    VerifiedOwnerCountConcat(users, added);
    FilterAll(added, IsVerifiedOwner);
  }

  /** Approving the one PENDING OWNER with a given id raises the count by one. */
  lemma ApproveRaisesVerifiedCount(users: seq<User>, k: nat)
    requires IdsDistinct(users) && k < |users|
    requires users[k].role == Owner && users[k].status == Pending
    ensures VerifiedOwnerCount(VerifyUser(users, users[k].id, true)) == VerifiedOwnerCount(users) + 1
  {
    var r := VerifyUser(users, users[k].id, true);
    assert forall i :: 0 <= i < |users| && i != k ==> UserId(users[i]) != UserId(users[k]);
    assert r[..k] == users[..k];
    assert r[k + 1..] == users[k + 1..];
    assert users == users[..k] + [users[k]] + users[k + 1..];
    assert r == r[..k] + [r[k]] + r[k + 1..];
    VerifiedOwnerCountConcat(users[..k] + [users[k]], users[k + 1..]);
    VerifiedOwnerCountConcat(users[..k], [users[k]]);
    VerifiedOwnerCountConcat(r[..k] + [r[k]], r[k + 1..]);
    VerifiedOwnerCountConcat(r[..k], [r[k]]);
    assert [users[k]][1..] == [] && [r[k]][1..] == [];
  }

  /** `votes.reduce((acc, v) => acc + v.totalVotes, 0)`: no proposal's
      total exceeds it, and it is zero exactly when no proposal has a vote. */
  function TotalVotesCast(votes: seq<VoteItem>): (r: nat)
    ensures forall i :: 0 <= i < |votes| ==> votes[i].totalVotes <= r
    ensures r == 0 <==> forall i :: 0 <= i < |votes| ==> votes[i].totalVotes == 0
  {
    if votes == [] then 0 else votes[0].totalVotes + TotalVotesCast(votes[1..])
  }

  /** The sum of totals adds up over concatenation. */
  lemma {:induction false} TotalVotesCastConcat(a: seq<VoteItem>, b: seq<VoteItem>)
    ensures TotalVotesCast(a + b) == TotalVotesCast(a) + TotalVotesCast(b)
  {
    if a != [] {
      assert (a + b)[1..] == a[1..] + b;
      TotalVotesCastConcat(a[1..], b);
    } else {
      assert a + b == b;
    }
  }

  /** The proposals on which a vote by `voterId` for `voteId` is a first vote. */
  function FirstBallot(voteId: string, voterId: string): VoteItem -> bool
  {
    (v: VoteItem) => v.id == voteId && voterId !in v.votedUserIds
  }

  /** Casting a vote raises the total by one per proposal on which it is a
      first vote (so by exactly one when proposal ids are distinct and the
      voter is new, and by nothing for a repeated vote). */
  lemma {:induction false} CastVoteRaisesTotal(votes: seq<VoteItem>, voteId: string, optionId: string, voterId: string)
    ensures TotalVotesCast(CastVote(votes, voteId, optionId, voterId))
            == TotalVotesCast(votes) + |Filter(votes, FirstBallot(voteId, voterId))|
  {
    if votes != [] {
      var r := CastVote(votes, voteId, optionId, voterId);
      assert r[1..] == CastVote(votes[1..], voteId, optionId, voterId);
      CastVoteRaisesTotal(votes[1..], voteId, optionId, voterId);
    }
  }

  /** The participation rate as the landing page computes it: `None` stands
      for the NaN that 0 / 0 gives when there are verified owners but no
      proposals. */
  function ParticipationRateAsWritten(users: seq<User>, votes: seq<VoteItem>): Option<nat>
  {
    var verified := VerifiedOwnerCount(users);
    if verified > 0 then
      if |votes| == 0 then None
      else Some(RoundPercent(TotalVotesCast(votes), verified * |votes|))
    else Some(0)
  }

  /** The participation rate with the denominator guarded as intended: 0
      when there are no verified owners or no proposals, otherwise the votes
      cast as a whole percentage of the possible votes, rounded half up. */
  function ParticipationRate(users: seq<User>, votes: seq<VoteItem>): (r: nat)
    ensures VerifiedOwnerCount(users) == 0 || |votes| == 0 ==> r == 0
    ensures var d := VerifiedOwnerCount(users) * |votes|;
            d > 0 ==> 2 * d * r <= 200 * TotalVotesCast(votes) + d < 2 * d * (r + 1)
  {
    var verified := VerifiedOwnerCount(users);
    if verified > 0 && |votes| > 0 then RoundPercent(TotalVotesCast(votes), verified * |votes|) else 0
  }

  /** The two agree except when there are verified owners and no proposals. */
  lemma ParticipationRateAgrees(users: seq<User>, votes: seq<VoteItem>)
    requires VerifiedOwnerCount(users) == 0 || |votes| > 0
    ensures ParticipationRateAsWritten(users, votes) == Some(ParticipationRate(users, votes))
  {
  }

  /** One verified owner and no proposals: the landing page shows NaN. */
  lemma ParticipationRateNaN()
    ensures ParticipationRateAsWritten([User("u", "U", Owner, "1", "101", Verified, "139", None, None)], []) == None
  {
    var users := [User("u", "U", Owner, "1", "101", Verified, "139", None, None)];
    assert IsVerifiedOwner(users[0]);
  }
}
