/** The building administrator's dashboard: the residents of the building
    it manages, split into those awaiting a verdict and those verified. */
module BuildingAdmin {
  import opened Types
  import opened Seqs
  import opened UserCommands
  import opened SuperAdmin

  /** The building the dashboard opens on: the managed building when it is
      non-empty, the administrator's own building otherwise. */
  function AdminBuilding(admin: User): (b: string)
    ensures Truthy(admin.managedBuilding) ==> b == admin.managedBuilding.value
    ensures !Truthy(admin.managedBuilding) ==> b == admin.building
  {
    if Truthy(admin.managedBuilding) then admin.managedBuilding.value else admin.building
  }

  function InBuilding(building: string): User -> bool
  {
    (u: User) => u.building == building
  }

  predicate IsPending(u: User) { u.status == Pending }

  predicate IsVerified(u: User) { u.status == Verified }

  predicate IsRejected(u: User) { u.status == Rejected }

  /** Everyone living in `building`, whatever the role, in order. */
  function BuildingUsers(users: seq<User>, building: string): (r: seq<User>)
    ensures forall u :: u in r <==> u in users && u.building == building
    ensures Selects(r, users, InBuilding(building))
  {
    FilterSelects(users, InBuilding(building));
    Filter(users, InBuilding(building))
  }

  /** The building's residents awaiting a verdict. */
  function PendingUsers(users: seq<User>, building: string): (r: seq<User>)
    ensures forall u :: u in r <==> u in users && u.building == building && u.status == Pending
    ensures Selects(r, BuildingUsers(users, building), IsPending)
  {
    FilterSelects(BuildingUsers(users, building), IsPending);
    Filter(BuildingUsers(users, building), IsPending)
  }

  /** The building's verified residents. */
  function VerifiedUsers(users: seq<User>, building: string): (r: seq<User>)
    ensures forall u :: u in r <==> u in users && u.building == building && u.status == Verified
    ensures Selects(r, BuildingUsers(users, building), IsVerified)
  {
    FilterSelects(BuildingUsers(users, building), IsVerified);
    Filter(BuildingUsers(users, building), IsVerified)
  }

  /** The three statuses split the building's residents: the pending, the
      verified and the rejected together number exactly the residents, so no
      one is on both lists and the rejected are on neither. */
  lemma {:induction false} StatusPartition(s: seq<User>)
    ensures |Filter(s, IsPending)| + |Filter(s, IsVerified)| + |Filter(s, IsRejected)| == |s|
  {
    if s != [] {
      StatusPartition(s[1..]);
    }
  }

  lemma BuildingPartition(users: seq<User>, building: string)
    ensures |PendingUsers(users, building)| + |VerifiedUsers(users, building)|
            + |Filter(BuildingUsers(users, building), IsRejected)| == |BuildingUsers(users, building)|
  {
    StatusPartition(BuildingUsers(users, building));
  }

  /** A verdict on a user takes every record with that id off the pending
      list; an approval puts the updated record on the verified list. */
  lemma VerdictLeavesPending(users: seq<User>, k: nat, isApproved: bool)
    requires k < |users|
    ensures var next := VerifyUser(users, users[k].id, isApproved);
            && (forall u :: u in PendingUsers(next, users[k].building) ==> u.id != users[k].id)
            && (isApproved ==> next[k] in VerifiedUsers(next, users[k].building))
  {
    var next := VerifyUser(users, users[k].id, isApproved);
    forall u | u in PendingUsers(next, users[k].building) ensures u.id != users[k].id {
      var i :| 0 <= i < |next| && next[i] == u;
    }
    assert next[k] in next;
  }

  /** Every pending owner is seen by someone: either it is on the super
      administrator's orphan list, or some building administrator's
      pending list holds it. */
  lemma PendingOwnersSeen(users: seq<User>, u: User)
    requires u in users && u.status == Pending && u.role == Owner
    ensures || u in OrphanedPendingUsers(users)
            || exists a :: a in users && ManagesSome(a) && u in PendingUsers(users, AdminBuilding(a))
  {
    if u !in OrphanedPendingUsers(users) {
      var i :| 0 <= i < |users| && ManagesSome(users[i]) && users[i].managedBuilding.value == u.building;
      assert users[i] in users && u in PendingUsers(users, AdminBuilding(users[i]));
    }
  }
}
