/** The rules the super administrator's dashboard applies on its own: the
    set of buildings without an administrator and the pending owners left
    there, the construction of a new proposal, drag-and-drop reordering, the
    user export and the guard in front of a promotion. */
module SuperAdmin {
  import opened Types
  import opened Seqs
  import opened Format
  import opened UserCommands
  import opened VoteCommands
  import opened Feeds

  // ------------------------------------------------------- orphaned users

  /** A building administrator with a non-empty managed building. */
  predicate ManagesSome(u: User)
  {
    u.role == BuildingAdmin && Truthy(u.managedBuilding)
  }

  /** Some building administrator manages `building`. */
  ghost predicate Covered(users: seq<User>, building: string)
  {
    exists i :: 0 <= i < |users| && ManagesSome(users[i]) && users[i].managedBuilding.value == building
  }

  /** The set of buildings that have an administrator, gathered the way the
      dashboard does: filter the administrators, collect their buildings. */
  function ActiveManagedBuildings(users: seq<User>): (r: set<string>)
    ensures forall b :: b in r <==> Covered(users, b)
  {
    if users == [] then {}
    else
      var rest := ActiveManagedBuildings(users[1..]);
      assert forall b :: Covered(users[1..], b) ==> Covered(users, b) by {
        forall b | Covered(users[1..], b) ensures Covered(users, b) {
          var i :| 0 <= i < |users[1..]| && ManagesSome(users[1..][i]) && users[1..][i].managedBuilding.value == b;
          assert users[i + 1] == users[1..][i];
        }
      }
      assert forall b :: Covered(users, b) ==> Covered(users[1..], b) || (ManagesSome(users[0]) && users[0].managedBuilding.value == b) by {
        forall b | Covered(users, b) && !(ManagesSome(users[0]) && users[0].managedBuilding.value == b)
          ensures Covered(users[1..], b)
        {
          var i :| 0 <= i < |users| && ManagesSome(users[i]) && users[i].managedBuilding.value == b;
          assert i > 0 && users[1..][i - 1] == users[i];
        }
      }
      if ManagesSome(users[0]) then {users[0].managedBuilding.value} + rest else rest
  }

  predicate IsOrphan(managed: set<string>, u: User)
  {
    u.status == Pending && u.role == Owner && u.building !in managed
  }

  /** The PENDING OWNERS whose building no administrator manages, in the
      order of the collection. */
  function OrphanedPendingUsers(users: seq<User>): (r: seq<User>)
    ensures forall u :: u in r <==>
              u in users && u.status == Pending && u.role == Owner && !Covered(users, u.building)
    ensures Selects(r, users, Orphaned(users))
  {
    FilterSelects(users, Orphaned(users));
    Filter(users, Orphaned(users))
  }

  /** The orphan test against the buildings the collection's administrators
      manage. */
  function Orphaned(users: seq<User>): User -> bool
  {
    var managed := ActiveManagedBuildings(users);
    (u: User) => IsOrphan(managed, u)
  }

  /** Promoting any user to administrator of a non-empty building `b` takes
      every pending owner of `b` out of the orphan list. */
  lemma PromoteAdoptsBuilding(users: seq<User>, k: nat, b: string)
    requires k < |users| && b != ""
    ensures forall u :: u in OrphanedPendingUsers(ToggleRole(users, users[k].id, BuildingAdmin, Some(b))) ==>
              u.building != b
  {
    var next := ToggleRole(users, users[k].id, BuildingAdmin, Some(b));
    assert ManagesSome(next[k]) && next[k].managedBuilding.value == b;
    assert Covered(next, b);
  }

  /** Demoting the only administrator of `b` (the dashboard sends no building
      with a demotion) puts every other pending owner of `b` back on the
      orphan list. */
  lemma DemoteOrphansBuilding(users: seq<User>, userId: string, b: string)
    requires forall i :: 0 <= i < |users| && ManagesSome(users[i]) && users[i].managedBuilding.value == b ==>
               users[i].id == userId
    ensures forall u :: u in users && u.id != userId && u.status == Pending && u.role == Owner && u.building == b ==>
              u in OrphanedPendingUsers(ToggleRole(users, userId, Owner, None))
  {
    var next := ToggleRole(users, userId, Owner, None);
    assert !Covered(next, b) by {
      forall i | 0 <= i < |next| && ManagesSome(next[i])
        ensures next[i].managedBuilding.value != b
      {
        assert users[i].id != userId && next[i] == users[i];
      }
    }
    forall u | u in users && u.id != userId && u.status == Pending && u.role == Owner && u.building == b
      ensures u in next
    {
      var i :| 0 <= i < |users| && users[i] == u;
      assert next[i] == u;
    }
  }

  /** A verdict on a user, either way, takes that user off the orphan list. */
  lemma VerifyLeavesOrphans(users: seq<User>, userId: string, isApproved: bool)
    ensures forall u :: u in OrphanedPendingUsers(VerifyUser(users, userId, isApproved)) ==> u.id != userId
  {
    var next := VerifyUser(users, userId, isApproved);
    forall u | u in OrphanedPendingUsers(next) ensures u.id != userId {
      var i :| 0 <= i < |next| && next[i] == u;
    }
  }

  // ---------------------------------------------------------- new proposal

  /** The least sort key among the proposals. */
  function MinOrder(votes: seq<VoteItem>): (m: int)
    requires votes != []
    ensures forall i :: 0 <= i < |votes| ==> m <= OrderKey(votes[i])
    ensures exists i :: 0 <= i < |votes| && m == OrderKey(votes[i])
  {
    if |votes| == 1 then OrderKey(votes[0])
    else
      var m := MinOrder(votes[1..]);
      assert forall i :: 1 <= i < |votes| ==> votes[i] == votes[1..][i - 1];
      if OrderKey(votes[0]) <= m then OrderKey(votes[0]) else m
  }

  /** The key of a new proposal: one less than the least existing key (a
      missing key counting as 0), or -1 when there are no proposals. */
  function NewOrder(votes: seq<VoteItem>): (o: int)
    ensures forall i :: 0 <= i < |votes| ==> o < OrderKey(votes[i])
    ensures votes == [] ==> o == -1
    ensures votes != [] ==> exists i :: 0 <= i < |votes| && o == OrderKey(votes[i]) - 1
  {
    (if |votes| > 0 then MinOrder(votes) else 0) - 1
  }

  /** A generated suggestion: title, description and the option captions. */
  datatype Suggestion = Suggestion(title: string, description: string, options: seq<string>)

  /** The id of the option at `index`: `opt-<index>`. */
  function OptionId(index: nat): string
  {
    "opt-" + NatToDecimal(index)
  }

  /** One option per caption, in order, each with no votes and ids that
      differ pairwise. */
  function NewOptions(captions: seq<string>): (r: seq<VoteOption>)
    ensures |r| == |captions|
    ensures forall j :: 0 <= j < |r| ==>
              r[j].caption == captions[j] && r[j].count == 0 && r[j].id == OptionId(j)
    ensures DistinctBy(r, OptionKey)
  {
    var r := seq(|captions|, j requires 0 <= j < |captions| => VoteOption(OptionId(j), captions[j], 0));
    assert DistinctBy(r, OptionKey) by {
      forall i, j | 0 <= i < j < |r| ensures OptionKey(r[i]) != OptionKey(r[j]) {
        if OptionKey(r[i]) == OptionKey(r[j]) {
          PrefixCancel("opt-", NatToDecimal(i), NatToDecimal(j));
          NatToDecimalInjective(i, j);
        }
      }
    }
    r
  }

  /** Publishing: nothing without a suggestion; otherwise an open, visible
      proposal with no votes, one option per caption, and a key below every
      existing key, namely the smallest key less one. Id and timestamps are
      supplied by the caller. */
  function Publish(generated: Option<Suggestion>, votes: seq<VoteItem>, id: string,
                   createdAt: string, deadline: string): (r: Option<VoteItem>)
    ensures r.None? <==> generated.None?
    ensures r.Some? ==>
              var v := r.value;
              && v.id == id && v.title == generated.value.title
              && v.description == generated.value.description
              && v.status == Active && v.isVisible == Some(true)
              && v.totalVotes == 0 && v.votedUserIds == []
              && TallyConsistent(v)
              && |v.options| == |generated.value.options|
              && (forall j :: 0 <= j < |v.options| ==>
                    v.options[j].caption == generated.value.options[j] && v.options[j].count == 0)
              && DistinctBy(v.options, OptionKey)
              && v.order.Some?
              && (forall i :: 0 <= i < |votes| ==> OrderKey(v) < OrderKey(votes[i]))
              && v.options == NewOptions(generated.value.options)
              && v.order == Some(NewOrder(votes))
              && v.createdAt == createdAt && v.deadline == deadline
  {
    match generated
    case None => None
    case Some(g) =>
      Some(VoteItem(id, g.title, g.description, createdAt, deadline, NewOptions(g.options),
                    Active, 0, [], Some(true), Some(NewOrder(votes))))
  }

  /** On a published proposal, any first vote for one of its options keeps
      the total equal to the sum of the counts. */
  lemma PublishedBallotKeepsSum(g: Suggestion, votes: seq<VoteItem>, id: string, createdAt: string,
                                deadline: string, j: nat, voterId: string)
    requires j < |g.options|
    ensures var v := Publish(Some(g), votes, id, createdAt, deadline).value;
            var after := Ballot(v, OptionId(j), voterId);
            after.totalVotes == SumCounts(after.options) == 1
  {
    var v := Publish(Some(g), votes, id, createdAt, deadline).value;
    ZeroCounts(v.options);
    CountWithDistinctId(v.options, j);
    TallySum(v.options, OptionId(j));
  }

  /** Created in front of the collection, a published proposal heads the
      visitors' feed. */
  lemma PublishedLeadsPublicFeed(g: Suggestion, votes: seq<VoteItem>, id: string,
                                 createdAt: string, deadline: string)
    ensures var v := Publish(Some(g), votes, id, createdAt, deadline).value;
            var feed := PublicFeed([v] + votes);
            feed != [] && feed[0] == v
  {
    var v := Publish(Some(g), votes, id, createdAt, deadline).value;
    var feed := PublicFeed([v] + votes);
    assert v in [v] + votes && IsPublic(v);
    assert v in feed;
    var j :| 0 <= j < |feed| && feed[j] == v;
    assert feed[0] in [v] + votes;
  }

  // ------------------------------------------------------------ drag & drop

  /** The dragged proposal taken out at `from` and put back in at `to`. */
  function Moved(votes: seq<VoteItem>, from: nat, to: nat): (r: seq<VoteItem>)
    requires from < |votes| && to < |votes|
    ensures |r| == |votes|
    ensures r[to] == votes[from]
  {
    var rest := votes[..from] + votes[from + 1..];
    rest[..to] + [votes[from]] + rest[to..]
  }

  /** The sequence without its element at `k`. */
  function Without<T>(s: seq<T>, k: nat): (r: seq<T>)
    requires k < |s|
    ensures |r| == |s| - 1
  {
    s[..k] + s[k + 1..]
  }

  /** A move puts the dragged proposal at the target and keeps the relative
      order of all the others; it is a permutation. */
  lemma MovedSpec(votes: seq<VoteItem>, from: nat, to: nat)
    requires from < |votes| && to < |votes|
    ensures Moved(votes, from, to)[to] == votes[from]
    ensures Without(Moved(votes, from, to), to) == Without(votes, from)
    ensures multiset(Moved(votes, from, to)) == multiset(votes)
  {
    var rest := Without(votes, from);
    var r := Moved(votes, from, to);
    assert r == rest[..to] + [votes[from]] + rest[to..];
    assert r[..to] == rest[..to];
    assert r[to + 1..] == rest[to..];
    assert rest[..to] + rest[to..] == rest;
    calc {
      multiset(r);
      multiset(rest[..to]) + multiset{votes[from]} + multiset(rest[to..]);
      { assert multiset(rest) == multiset(rest[..to]) + multiset(rest[to..]); }
      multiset(rest) + multiset{votes[from]};
      { assert votes == votes[..from] + [votes[from]] + votes[from + 1..]; }
      multiset(votes);
    }
  }

  /** Dragging back to where it came from restores the collection. */
  lemma MovedBack(votes: seq<VoteItem>, from: nat, to: nat)
    requires from < |votes| && to < |votes|
    ensures Moved(Moved(votes, from, to), to, from) == votes
  {
    MovedSpec(votes, from, to);
    var r := Moved(votes, from, to);
    var rest := Without(r, to);
    assert rest == Without(votes, from);
    assert Moved(r, to, from) == rest[..from] + [votes[from]] + rest[from..];
    assert rest[..from] == votes[..from];
    assert rest[from..] == votes[from + 1..];
  }

  /** Each proposal's key becomes its position. */
  function Renumbered(votes: seq<VoteItem>): (r: seq<VoteItem>)
    ensures |r| == |votes|
    ensures forall i :: 0 <= i < |r| ==> r[i].order == Some(i) && r[i].(order := votes[i].order) == votes[i]
  {
    seq(|votes|, i requires 0 <= i < |votes| => votes[i].(order := Some(i)))
  }

  /** What entering a row during a drag produces: the new dragged index and,
      when something moved, the new collection. */
  datatype DragOutcome = DragOutcome(dragged: Option<nat>, reordered: Option<seq<VoteItem>>)

  /** Entering row `index`: nothing happens without a drag or on the row
      being dragged; otherwise the dragged proposal moves to `index`, every
      key is renumbered to its position, and `index` becomes the dragged row. */
  function DragEnter(votes: seq<VoteItem>, dragged: Option<nat>, index: nat): (r: DragOutcome)
    requires dragged.Some? ==> dragged.value < |votes|
    requires index < |votes|
    ensures r.reordered.None? <==> dragged.None? || dragged.value == index
    ensures r.reordered.None? ==> r.dragged == dragged
    ensures r.reordered.Some? ==>
              var s := r.reordered.value;
              && r.dragged == Some(index)
              && |s| == |votes|
              && s[index] == votes[dragged.value].(order := Some(index))
              && (forall i :: 0 <= i < |s| ==> s[i].order == Some(i))
              && SortedByOrder(s)
              && s == Renumbered(Moved(votes, dragged.value, index))
  {
    if dragged.None? || dragged.value == index then DragOutcome(dragged, None)
    else
      var s := Renumbered(Moved(votes, dragged.value, index));
      MovedSpec(votes, dragged.value, index);
      DragOutcome(Some(index), Some(s))
  }

  /** Renumbering keeps every tally. */
  lemma DragKeepsTallies(votes: seq<VoteItem>, dragged: Option<nat>, index: nat)
    requires dragged.Some? ==> dragged.value < |votes|
    requires index < |votes|
    requires forall v :: v in votes ==> TallyConsistent(v)
    ensures match DragEnter(votes, dragged, index).reordered
            case Some(s) => forall v :: v in s ==> TallyConsistent(v)
            case None => true
  {
    var r := DragEnter(votes, dragged, index);
    if r.reordered.Some? {
      var m := Moved(votes, dragged.value, index);
      MovedSpec(votes, dragged.value, index);
      assert forall v :: v in m ==> TallyConsistent(v) by {
        forall v | v in m ensures TallyConsistent(v) {
          assert v in multiset(m);
        }
      }
      var s := r.reordered.value;
      assert s == Renumbered(m);
      forall v | v in s ensures TallyConsistent(v) {
        var i :| 0 <= i < |s| && s[i] == v;
        assert m[i] in m;
      }
    }
  }

  /** After a drag both feeds follow the dragged order. */
  lemma FeedsFollowDrag(votes: seq<VoteItem>, dragged: Option<nat>, index: nat)
    requires dragged.Some? ==> dragged.value < |votes|
    requires index < |votes|
    ensures match DragEnter(votes, dragged, index).reordered
            case Some(s) => OwnerFeed(s) == Filter(s, IsListed) && PublicFeed(s) == Filter(s, IsPublic)
            case None => true
  {
    var r := DragEnter(votes, dragged, index);
    if r.reordered.Some? {
      var s := r.reordered.value;
      FilterSorted(s, IsListed);
      SortSorted(Filter(s, IsListed));
      FilterSorted(s, IsPublic);
      SortSorted(Filter(s, IsPublic));
    }
  }

  // ------------------------------------------------------------------ export

  predicate NotSuperAdmin(u: User)
  {
    u.role != SuperAdmin
  }

  /** The export: every user but the super administrators, in order. */
  function ExportUsers(users: seq<User>): (r: seq<User>)
    ensures forall u :: u in r <==> u in users && u.role != SuperAdmin
    ensures Selects(r, users, NotSuperAdmin)
  {
    FilterSelects(users, NotSuperAdmin);
    Filter(users, NotSuperAdmin)
  }

  /** An exported user read back as an import record. */
  function AsRecord(u: User): ImportRecord
  {
    ImportRecord(Some(u.name), Some(u.phoneNumber), Some(u.building), Some(u.unit), u.password)
  }

  /** An import whose every record lacks a phone number or repeats one
      already present adds nobody. */
  lemma {:induction false} ImportNothingNew(existing: seq<User>, batch: seq<ImportRecord>, timestamp: string)
    requires forall i :: 0 <= i < |batch| && Truthy(batch[i].phoneNumber) ==>
               PhoneTaken(existing, batch[i].phoneNumber.value)
    ensures Imported(existing, batch, timestamp) == []
  {
    if batch != [] {
      var n := |batch| - 1;
      assert forall i :: 0 <= i < n ==> batch[..n][i] == batch[i];
      ImportNothingNew(existing, batch[..n], timestamp);
    }
  }

  /** Importing the export of a collection back into it adds nobody. */
  lemma ReimportAddsNobody(users: seq<User>, timestamp: string)
    ensures var exported := ExportUsers(users);
            Imported(users, seq(|exported|, i requires 0 <= i < |exported| => AsRecord(exported[i])), timestamp) == []
  {
    var exported := ExportUsers(users);
    var batch := seq(|exported|, i requires 0 <= i < |exported| => AsRecord(exported[i]));
    forall i | 0 <= i < |batch| && Truthy(batch[i].phoneNumber)
      ensures PhoneTaken(users, batch[i].phoneNumber.value)
    {
      assert exported[i] in users;
      var k :| 0 <= k < |users| && users[k] == exported[i];
      assert UserPhone(users[k]) == batch[i].phoneNumber.value;
    }
    ImportNothingNew(users, batch, timestamp);
  }

  // --------------------------------------------------------------- promotion

  /** A role change as the dashboard issues it. */
  datatype RoleChange = RoleChange(userId: string, newRole: UserRole, managedBuilding: Option<string>)

  /** The promotion dialog issues a change only with a selected user and a
      non-empty building, making that user administrator of it. */
  function ConfirmPromotion(selected: Option<User>, targetBuilding: string): (r: Option<RoleChange>)
    ensures r.Some? <==> selected.Some? && targetBuilding != ""
    ensures r.Some? ==> r.value.userId == selected.value.id && r.value.newRole == BuildingAdmin
                        && r.value.managedBuilding == Some(targetBuilding)
  {
    if selected.Some? && targetBuilding != "" then
      Some(RoleChange(selected.value.id, BuildingAdmin, Some(targetBuilding)))
    else None
  }

  /** A confirmed promotion of a listed user clears the orphan list of the
      target building. */
  lemma ConfirmedPromotionAdopts(users: seq<User>, k: nat, targetBuilding: string)
    requires k < |users|
    ensures match ConfirmPromotion(Some(users[k]), targetBuilding)
            case Some(c) =>
              forall u :: u in OrphanedPendingUsers(ToggleRole(users, c.userId, c.newRole, c.managedBuilding)) ==>
                u.building != targetBuilding
            case None => true
  {
    if targetBuilding != "" {
      PromoteAdoptsBuilding(users, k, targetBuilding);
    }
  }
}
