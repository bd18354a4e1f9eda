/** The portal's root component: it holds the user collection, the proposal
    collection and the session, and every command replaces one of them. The
    methods apply the pure handlers of modules UserCommands and VoteCommands
    to the state. Ids and timestamps that the component takes from the clock
    are parameters. */
module App {
  import opened Types
  import opened Seqs
  import opened UserCommands
  import opened VoteCommands

  /** The built-in super administrator every fresh installation starts with. */
  const SeedAdmin: User := User("sys-admin-001", "系统管理员", SuperAdmin, "物业中心", "Admin",
                                Verified, "18688835658", Some("895600"), None)

  /** The seed administrator can always log in with the built-in
      credentials when it heads the collection. */
  lemma SeedAdminLogsIn(rest: seq<User>)
    ensures Login([SeedAdmin] + rest, "18688835658", "895600") == Some(SeedAdmin)
  {
    assert Credentials(([SeedAdmin] + rest)[0], "18688835658", "895600");
  }

  class Portal {
    var users: seq<User>
    var votes: seq<VoteItem>
    var currentUser: Option<User>

    /** Ids identify users. */
    predicate Valid()
      reads this
    {
      IdsDistinct(users)
    }

    /** Every proposal's total counts its voters, each once. */
    predicate TalliesConsistent()
      reads this
    {
      forall v :: v in votes ==> TallyConsistent(v)
    }

    constructor (initialUsers: seq<User>, initialVotes: seq<VoteItem>)
      ensures users == initialUsers && votes == initialVotes && currentUser == None
    {
      users := initialUsers;
      votes := initialVotes;
      currentUser := None;
    }

    /** Opens a session for the first user with these credentials; a failed
        attempt leaves the session as it was. */
    method Login(phone: string, pass: string) returns (ok: bool)
      modifies this
      ensures ok <==> UserCommands.Login(users, phone, pass).Some?
      ensures currentUser == if ok then UserCommands.Login(users, phone, pass) else old(currentUser)
      ensures users == old(users) && votes == old(votes)
    {
      var found := UserCommands.Login(users, phone, pass);
      ok := found.Some?;
      if ok {
        currentUser := found;
      }
    }

    method Logout()
      modifies this
      ensures currentUser == None && users == old(users) && votes == old(votes)
    {
      currentUser := None;
    }

    /** Appends a PENDING OWNER unless the phone number is taken. */
    method Register(id: string, name: string, phone: string, password: string,
                    building: string, unit: string) returns (ok: bool)
      modifies this
      ensures ok <==> !PhoneTaken(old(users), phone)
      ensures users == match UserCommands.Register(old(users), id, name, phone, password, building, unit)
                       case Registered(next) => next
                       case DuplicatePhone => old(users)
      ensures votes == old(votes) && currentUser == old(currentUser)
      ensures old(Valid()) && !KeyIn(old(users), UserId, id) ==> Valid()
    {
      var r := UserCommands.Register(users, id, name, phone, password, building, unit);
      if Valid() && !KeyIn(users, UserId, id) {
        RegisterKeepsIdsDistinct(users, id, name, phone, password, building, unit);
      }
      ok := r.Registered?;
      if ok {
        users := r.users;
      }
    }

    /** Changes the password of the logged-in user, both in the collection
        and in the session; without a session nothing happens. */
    method ChangePassword(newPass: string)
      modifies this
      ensures old(currentUser).None? ==> users == old(users) && currentUser == None
      ensures old(currentUser).Some? ==>
                && users == UserCommands.ChangePassword(old(users), old(currentUser).value.id, newPass)
                && currentUser == Some(old(currentUser).value.(password := Some(newPass)))
      ensures votes == old(votes)
      ensures old(Valid()) ==> Valid()
    {
      if currentUser.Some? {
        var next := UserCommands.ChangePassword(users, currentUser.value.id, newPass);
        assert forall i :: 0 <= i < |next| ==> UserId(next[i]) == UserId(users[i]);
        users := next;
        currentUser := Some(currentUser.value.(password := Some(newPass)));
      }
    }

    /** Puts a new proposal in front of the others. */
    method CreateVote(newVote: VoteItem)
      modifies this
      ensures votes == [newVote] + old(votes)
      ensures users == old(users) && currentUser == old(currentUser)
      ensures old(TalliesConsistent()) && TallyConsistent(newVote) ==> TalliesConsistent()
    {
      votes := [newVote] + votes;
    }

    method CloseVote(id: string)
      modifies this
      ensures votes == VoteCommands.CloseVote(old(votes), id)
      ensures users == old(users) && currentUser == old(currentUser)
      ensures old(TalliesConsistent()) ==> TalliesConsistent()
    {
      var next := VoteCommands.CloseVote(votes, id);
      ClosedStaysClosed(votes, id, VoteEdit(None, None, None), "", "");
      TalliesKept(votes, next);
      votes := next;
    }

    method EditVote(id: string, edit: VoteEdit)
      modifies this
      ensures votes == VoteCommands.EditVote(old(votes), id, edit)
      ensures users == old(users) && currentUser == old(currentUser)
      ensures old(TalliesConsistent()) ==> TalliesConsistent()
    {
      var next := VoteCommands.EditVote(votes, id, edit);
      ClosedStaysClosed(votes, id, edit, "", "");
      TalliesKept(votes, next);
      votes := next;
    }

    method ToggleVisibility(id: string)
      modifies this
      ensures votes == VoteCommands.ToggleVisibility(old(votes), id)
      ensures users == old(users) && currentUser == old(currentUser)
      ensures old(TalliesConsistent()) ==> TalliesConsistent()
    {
      var next := VoteCommands.ToggleVisibility(votes, id);
      ClosedStaysClosed(votes, id, VoteEdit(None, None, None), "", "");
      TalliesKept(votes, next);
      votes := next;
    }

    /** Replaces the proposal collection by the caller's reordering. */
    method ReorderVotes(newOrder: seq<VoteItem>)
      modifies this
      ensures votes == newOrder && users == old(users) && currentUser == old(currentUser)
    {
      votes := newOrder;
    }

    method ToggleRole(userId: string, newRole: UserRole, managedBuilding: Option<string>)
      modifies this
      ensures users == UserCommands.ToggleRole(old(users), userId, newRole, managedBuilding)
      ensures votes == old(votes) && currentUser == old(currentUser)
      ensures old(Valid()) ==> Valid()
    {
      var next := UserCommands.ToggleRole(users, userId, newRole, managedBuilding);
      assert forall i :: 0 <= i < |next| ==> UserId(next[i]) == UserId(users[i]);
      users := next;
    }

    method VerifyUser(userId: string, isApproved: bool)
      modifies this
      ensures users == UserCommands.VerifyUser(old(users), userId, isApproved)
      ensures votes == old(votes) && currentUser == old(currentUser)
      ensures old(Valid()) ==> Valid()
    {
      var next := UserCommands.VerifyUser(users, userId, isApproved);
      assert forall i :: 0 <= i < |next| ==> UserId(next[i]) == UserId(users[i]);
      users := next;
    }

    method RemoveUser(userId: string)
      modifies this
      ensures users == UserCommands.RemoveUser(old(users), userId)
      ensures votes == old(votes) && currentUser == old(currentUser)
      ensures old(Valid()) ==> Valid()
    {
      RemoveUserKeepsDistinct(users, userId);
      users := UserCommands.RemoveUser(users, userId);
    }

    method EditUser(userId: string, edit: UserEdit)
      modifies this
      ensures users == UserCommands.EditUser(old(users), userId, edit)
      ensures votes == old(votes) && currentUser == old(currentUser)
      ensures old(Valid()) ==> Valid()
    {
      if Valid() {
        EditUserKeepsIdsDistinct(users, userId, edit);
      }
      users := UserCommands.EditUser(users, userId, edit);
    }

    /** Appends the accepted records of the batch as VERIFIED OWNERS. Ids
        keep distinct as long as no existing id carries this import's
        prefix. */
    method ImportUsers(batch: seq<ImportRecord>, timestamp: string)
      modifies this
      ensures users == old(users) + Imported(old(users), batch, timestamp)
      ensures votes == old(votes) && currentUser == old(currentUser)
      ensures old(PhonesDistinct(users)) ==> PhonesDistinct(users)
      ensures old(Valid()) && (forall u :: u in old(users) ==> !(ImportPrefix(timestamp) <= u.id)) ==> Valid()
    {
      var added := CollectImports(users, batch, timestamp);
      if PhonesDistinct(users) {
        ImportKeepsPhonesDistinct(users, batch, timestamp);
      }
      if Valid() && (forall u :: u in users ==> !(ImportPrefix(timestamp) <= u.id)) {
        ImportIdsFresh(users, batch, timestamp);
      }
      if |added| > 0 {
        users := users + added;
      } else {
        assert users + added == users;
      }
    }

    /** Casts the logged-in user's vote; without a session nothing happens.
        Neither the proposal's status nor the voter's role is checked. */
    method Vote(voteId: string, optionId: string)
      modifies this
      ensures old(currentUser).None? ==> votes == old(votes)
      ensures old(currentUser).Some? ==> votes == CastVote(old(votes), voteId, optionId, old(currentUser).value.id)
      ensures users == old(users) && currentUser == old(currentUser)
      ensures old(TalliesConsistent()) ==> TalliesConsistent()
    {
      if currentUser.Some? {
        if TalliesConsistent() {
          CastVoteKeepsTally(votes, voteId, optionId, currentUser.value.id);
        }
        votes := CastVote(votes, voteId, optionId, currentUser.value.id);
      }
    }
  }

  /** A command that keeps each proposal's tally position by position keeps
      them all consistent. */
  lemma TalliesKept(before: seq<VoteItem>, after: seq<VoteItem>)
    requires |after| == |before|
    requires forall i :: 0 <= i < |before| && TallyConsistent(before[i]) ==> TallyConsistent(after[i])
    ensures (forall v :: v in before ==> TallyConsistent(v)) ==> forall v :: v in after ==> TallyConsistent(v)
  {
    if forall v :: v in before ==> TallyConsistent(v) {
      forall v | v in after ensures TallyConsistent(v) {
        var i :| 0 <= i < |after| && after[i] == v;
        assert before[i] in before;
      }
    }
  }

  /** Imported ids are fresh when no existing id carries the import's prefix. */
  lemma ImportIdsFresh(users: seq<User>, batch: seq<ImportRecord>, timestamp: string)
    requires IdsDistinct(users)
    requires forall u :: u in users ==> !(ImportPrefix(timestamp) <= u.id)
    ensures IdsDistinct(users + Imported(users, batch, timestamp))
  {
    var added := Imported(users, batch, timestamp);
    ImportedFromBatch(users, batch, timestamp);
    ImportedIdsDistinct(users, batch, timestamp);
    var all := users + added;
    forall i, j | 0 <= i < j < |all| ensures UserId(all[i]) != UserId(all[j]) {
      if j >= |users| && i < |users| {
        assert all[j] == added[j - |users|] && all[j] in added;
        assert all[i] == users[i] && all[i] in users;
      } else if i >= |users| {
        assert all[i] == added[i - |users|] && all[j] == added[j - |users|];
      }
    }
  }
}
