/** The user-side command handlers of the portal's root component: login
    lookup, registration, password change, role toggle, verification,
    removal, profile edit and bulk import. Each handler is a function from
    the current user collection to the next one; the class in module App
    applies them to its state. */
module UserCommands {
  import opened Types
  import opened Seqs
  import opened Format

  /** Some user already holds `phone`. */
  predicate PhoneTaken(users: seq<User>, phone: string)
  {
    KeyIn(users, UserPhone, phone)
  }

  predicate PhonesDistinct(users: seq<User>)
  {
    DistinctBy(users, UserPhone)
  }

  predicate IdsDistinct(users: seq<User>)
  {
    DistinctBy(users, UserId)
  }

  /** Both the phone number and the stored password match. */
  predicate Credentials(u: User, phone: string, pass: string)
  {
    u.phoneNumber == phone && u.password == Some(pass)
  }

  // ---------------------------------------------------------------- login

  /** The position of the first user whose credentials match. */
  function FirstMatch(users: seq<User>, phone: string, pass: string): (r: Option<nat>)
    ensures r.None? ==> forall i :: 0 <= i < |users| ==> !Credentials(users[i], phone, pass)
    ensures r.Some? ==> r.value < |users| && Credentials(users[r.value], phone, pass)
    ensures r.Some? ==> forall j :: 0 <= j < r.value ==> !Credentials(users[j], phone, pass)
  {
    if users == [] then None
    else if Credentials(users[0], phone, pass) then Some(0)
    else match FirstMatch(users[1..], phone, pass)
      case None => None
      case Some(k) => Some(k + 1)
  }

  /** `users.find(u => phone and password match)`: the record a login opens
      a session for, if any. */
  function Login(users: seq<User>, phone: string, pass: string): (r: Option<User>)
    ensures r.Some? <==> exists i :: 0 <= i < |users| && Credentials(users[i], phone, pass)
    ensures r.Some? ==> r.value in users && Credentials(r.value, phone, pass)
    ensures r.Some? ==> exists k :: 0 <= k < |users| && r.value == users[k]
                          && (forall j :: 0 <= j < k ==> !Credentials(users[j], phone, pass))
  {
    match FirstMatch(users, phone, pass)
    case None => None
    case Some(k) => Some(users[k])
  }

  /** With distinct phone numbers, the session opened is exactly the one
      record holding that phone, provided its password matches. */
  lemma LoginUnique(users: seq<User>, k: nat, pass: string)
    requires PhonesDistinct(users) && k < |users|
    ensures Login(users, users[k].phoneNumber, pass)
            == (if users[k].password == Some(pass) then Some(users[k]) else None)
  {
    var phone := users[k].phoneNumber;
    var m := FirstMatch(users, phone, pass);
    if m.Some? {
      assert users[m.value].phoneNumber == phone;
      assert forall i :: 0 <= i < |users| && i != k ==> UserPhone(users[i]) != UserPhone(users[k]);
    }
  }

  // --------------------------------------------------------- registration

  datatype RegisterResult = Registered(users: seq<User>) | DuplicatePhone

  /** Registration refuses a phone number any user already holds; otherwise
      it appends one PENDING OWNER and leaves everyone else untouched. The
      caller cannot choose the role or the status. */
  function Register(users: seq<User>, id: string, name: string, phone: string,
                    password: string, building: string, unit: string): (r: RegisterResult)
    ensures r.DuplicatePhone? <==> PhoneTaken(users, phone)
    ensures r.Registered? ==> |r.users| == |users| + 1 && r.users[..|users|] == users
    ensures r.Registered? ==>
              var u := r.users[|users|];
              && u.role == Owner && u.status == Pending && u.managedBuilding == None
              && u.id == id && u.phoneNumber == phone && u.password == Some(password)
              && u.name == name && u.building == building && u.unit == unit
  {
    if exists i :: 0 <= i < |users| && users[i].phoneNumber == phone then DuplicatePhone
    else Registered(users + [User(id, name, Owner, building, unit, Pending, phone, Some(password), None)])
  }

  /** Registration keeps phone numbers pairwise distinct. */
  lemma RegisterKeepsPhonesDistinct(users: seq<User>, id: string, name: string, phone: string,
                                    password: string, building: string, unit: string)
    requires PhonesDistinct(users)
    ensures match Register(users, id, name, phone, password, building, unit)
            case Registered(next) => PhonesDistinct(next)
            case DuplicatePhone => true
  {
    var r := Register(users, id, name, phone, password, building, unit);
    if r.Registered? {
      var u := r.users[|users|];
      assert r.users == users + [u];
      DistinctByAppend(users, u, UserPhone);
    }
  }

  /** A fresh id keeps ids pairwise distinct. */
  lemma RegisterKeepsIdsDistinct(users: seq<User>, id: string, name: string, phone: string,
                                 password: string, building: string, unit: string)
    requires IdsDistinct(users) && !KeyIn(users, UserId, id)
    ensures match Register(users, id, name, phone, password, building, unit)
            case Registered(next) => IdsDistinct(next)
            case DuplicatePhone => true
  {
    var r := Register(users, id, name, phone, password, building, unit);
    if r.Registered? {
      var u := r.users[|users|];
      assert r.users == users + [u];
      DistinctByAppend(users, u, UserId);
    }
  }

  // ------------------------------------------------------ password change

  /** Only the password of the users with id `userId` changes, to `newPass`. */
  function ChangePassword(users: seq<User>, userId: string, newPass: string): (r: seq<User>)
    ensures |r| == |users|
    ensures forall i :: 0 <= i < |r| ==>
              && r[i].password == (if users[i].id == userId then Some(newPass) else users[i].password)
              && r[i].(password := users[i].password) == users[i]
  {
    seq(|users|, i requires 0 <= i < |users| =>
      if users[i].id == userId then users[i].(password := Some(newPass)) else users[i])
  }

  /** After a password change the user logs in with the new password and,
      when it differs, no longer with the old one. */
  lemma LoginAfterChangePassword(users: seq<User>, k: nat, newPass: string, oldPass: string)
    requires PhonesDistinct(users) && k < |users|
    ensures var next := ChangePassword(users, users[k].id, newPass);
            && Login(next, users[k].phoneNumber, newPass) == Some(next[k])
            && (oldPass != newPass ==> Login(next, users[k].phoneNumber, oldPass) == None)
  {
    var next := ChangePassword(users, users[k].id, newPass);
    assert forall i :: 0 <= i < |next| ==> UserPhone(next[i]) == UserPhone(users[i]);
    assert PhonesDistinct(next);
    LoginUnique(next, k, newPass);
    LoginUnique(next, k, oldPass);
  }

  // ------------------------------------------------------ role management

  /** The managed building after a role change: kept only for BUILDING_ADMIN. */
  function ManagedAfter(newRole: UserRole, managedBuilding: Option<string>): Option<string>
  {
    if newRole == BuildingAdmin then managedBuilding else None
  }

  /** The target gets `newRole`; its managed building is the argument when the
      new role is BUILDING_ADMIN and cleared otherwise; nothing else changes. */
  function ToggleRole(users: seq<User>, userId: string, newRole: UserRole,
                      managedBuilding: Option<string>): (r: seq<User>)
    ensures |r| == |users|
    ensures forall i :: 0 <= i < |r| && users[i].id == userId ==>
              && r[i].role == newRole
              && (r[i].managedBuilding.Some? <==> newRole == BuildingAdmin && managedBuilding.Some?)
              && (r[i].managedBuilding.Some? ==> r[i].managedBuilding == managedBuilding)
    ensures forall i :: 0 <= i < |r| && users[i].id != userId ==> r[i] == users[i]
    ensures forall i :: 0 <= i < |r| ==>
              r[i].(role := users[i].role, managedBuilding := users[i].managedBuilding) == users[i]
  {
    seq(|users|, i requires 0 <= i < |users| =>
      if users[i].id == userId
      then users[i].(role := newRole, managedBuilding := ManagedAfter(newRole, managedBuilding))
      else users[i])
  }

  // ---------------------------------------------------------- verification

  function StatusFor(isApproved: bool): UserStatus
  {
    if isApproved then Verified else Rejected
  }

  /** The target's status becomes VERIFIED or REJECTED whatever it was before
      (PENDING is not required); nothing else changes. */
  function VerifyUser(users: seq<User>, userId: string, isApproved: bool): (r: seq<User>)
    ensures |r| == |users|
    ensures forall i :: 0 <= i < |r| ==>
              && r[i].status == (if users[i].id == userId then StatusFor(isApproved) else users[i].status)
              && r[i].(status := users[i].status) == users[i]
  {
    seq(|users|, i requires 0 <= i < |users| =>
      if users[i].id == userId then users[i].(status := StatusFor(isApproved)) else users[i])
  }

  /** A second identical verification changes nothing. */
  lemma VerifyUserIdempotent(users: seq<User>, userId: string, isApproved: bool)
    ensures VerifyUser(VerifyUser(users, userId, isApproved), userId, isApproved)
            == VerifyUser(users, userId, isApproved)
  {
    var once := VerifyUser(users, userId, isApproved);
    var twice := VerifyUser(once, userId, isApproved);
    forall i | 0 <= i < |once| ensures twice[i] == once[i] {
      assert twice[i].(status := once[i].status) == once[i];
    }
  }

  // --------------------------------------------------------------- removal

  function NotId(userId: string): User -> bool
  {
    (u: User) => u.id != userId
  }

  /** Every user with id `userId` is gone; everyone else stays, in order. */
  function RemoveUser(users: seq<User>, userId: string): (r: seq<User>)
    ensures !KeyIn(r, UserId, userId)
    ensures forall u :: u in r <==> u in users && u.id != userId
    ensures Selects(r, users, NotId(userId))
  {
    var r := Filter(users, NotId(userId));
    FilterSelects(users, NotId(userId));
    assert forall i :: 0 <= i < |r| ==> r[i] in r;
    r
  }

  /** Removal keeps ids and phone numbers pairwise distinct. */
  lemma RemoveUserKeepsDistinct(users: seq<User>, userId: string)
    ensures PhonesDistinct(users) ==> PhonesDistinct(RemoveUser(users, userId))
    ensures IdsDistinct(users) ==> IdsDistinct(RemoveUser(users, userId))
  {
    if PhonesDistinct(users) {
      FilterKeepsDistinct(users, NotId(userId), UserPhone);
    }
    if IdsDistinct(users) {
      FilterKeepsDistinct(users, NotId(userId), UserId);
    }
  }

  // ------------------------------------------------------------ profile edit

  /** The fields the profile editor sends; `None` leaves a field as it was. */
  datatype UserEdit = UserEdit(
    name: Option<string>,
    phoneNumber: Option<string>,
    building: Option<string>,
    unit: Option<string>)

  /** The target takes each field the edit supplies; id, role, status,
      password and managed building never change; other users are untouched.
      The new phone number is not checked against other users. */
  function EditUser(users: seq<User>, userId: string, edit: UserEdit): (r: seq<User>)
    ensures |r| == |users|
    ensures forall i :: 0 <= i < |r| && users[i].id == userId ==>
              && r[i].name == Pick(edit.name, users[i].name)
              && r[i].phoneNumber == Pick(edit.phoneNumber, users[i].phoneNumber)
              && r[i].building == Pick(edit.building, users[i].building)
              && r[i].unit == Pick(edit.unit, users[i].unit)
    ensures forall i :: 0 <= i < |r| && users[i].id != userId ==> r[i] == users[i]
    ensures forall i :: 0 <= i < |r| ==>
              r[i].(name := users[i].name, phoneNumber := users[i].phoneNumber,
                    building := users[i].building, unit := users[i].unit) == users[i]
  {
    seq(|users|, i requires 0 <= i < |users| =>
      if users[i].id == userId
      then users[i].(name := Pick(edit.name, users[i].name),
                     phoneNumber := Pick(edit.phoneNumber, users[i].phoneNumber),
                     building := Pick(edit.building, users[i].building),
                     unit := Pick(edit.unit, users[i].unit))
      else users[i])
  }

  /** Profile edits keep ids distinct (ids are never edited). */
  lemma EditUserKeepsIdsDistinct(users: seq<User>, userId: string, edit: UserEdit)
    requires IdsDistinct(users)
    ensures IdsDistinct(EditUser(users, userId, edit))
  {
    var r := EditUser(users, userId, edit);
    assert forall i :: 0 <= i < |r| ==> UserId(r[i]) == UserId(users[i]);
  }

  /** Unlike registration and import, an edit can give two users the same
      phone number. */
  lemma EditUserCanDuplicatePhone()
    ensures var users := [User("a", "A", Owner, "1", "101", Verified, "111", None, None),
                          User("b", "B", Owner, "1", "102", Verified, "222", None, None)];
            && PhonesDistinct(users)
            && !PhonesDistinct(EditUser(users, "b", UserEdit(None, Some("111"), None, None)))
  {
    var users := [User("a", "A", Owner, "1", "101", Verified, "111", None, None),
                  User("b", "B", Owner, "1", "102", Verified, "222", None, None)];
    var r := EditUser(users, "b", UserEdit(None, Some("111"), None, None));
    assert UserPhone(r[0]) == UserPhone(r[1]);
  }

  // ---------------------------------------------------------------- import

  /** One record of an imported file; every field may be missing. */
  datatype ImportRecord = ImportRecord(
    name: Option<string>,
    phoneNumber: Option<string>,
    building: Option<string>,
    unit: Option<string>,
    password: Option<string>)

  const DefaultName: string := "未命名"
  const DefaultPlace: string := "未知"
  const DefaultPassword: string := "123456"

  /** `value || fallback` for an optional string. */
  function OrDefault(o: Option<string>, fallback: string): string
  {
    if Truthy(o) then o.value else fallback
  }

  /** The id the import gives the record at `index` of the batch. */
  function ImportedId(timestamp: string, index: nat): string
  {
    ImportPrefix(timestamp) + NatToDecimal(index)
  }

  function ImportPrefix(timestamp: string): string
  {
    "u-imported-" + timestamp + "-"
  }

  /** The user an accepted record becomes: a VERIFIED OWNER with defaults for
      the missing fields. */
  function ImportedUser(rec: ImportRecord, id: string): User
    requires Truthy(rec.phoneNumber)
  {
    User(id, OrDefault(rec.name, DefaultName), Owner, OrDefault(rec.building, DefaultPlace),
         OrDefault(rec.unit, DefaultPlace), Verified, rec.phoneNumber.value,
         Some(OrDefault(rec.password, DefaultPassword)), None)
  }

  /** A record is taken when it has a phone number that neither an existing
      user nor a record taken earlier in the batch holds. */
  predicate Accepted(existing: seq<User>, added: seq<User>, rec: ImportRecord)
  {
    && Truthy(rec.phoneNumber)
    && !PhoneTaken(existing, rec.phoneNumber.value)
    && !PhoneTaken(added, rec.phoneNumber.value)
  }

  /** The users an import of `batch` appends, record by record: at most one
      per record, each a VERIFIED OWNER with a password. */
  function Imported(existing: seq<User>, batch: seq<ImportRecord>, timestamp: string): (r: seq<User>)
    ensures |r| <= |batch|
    ensures forall i :: 0 <= i < |r| ==> r[i].role == Owner && r[i].status == Verified && r[i].password.Some?
    decreases |batch|
  {
    if batch == [] then []
    else
      var n := |batch| - 1;
      var prev := Imported(existing, batch[..n], timestamp);
      if Accepted(existing, prev, batch[n])
      then prev + [ImportedUser(batch[n], ImportedId(timestamp, n))]
      else prev
  }

  /** The `forEach` loop of the import handler: collects the new users. */
  method CollectImports(existing: seq<User>, batch: seq<ImportRecord>, timestamp: string)
    returns (added: seq<User>)
    ensures added == Imported(existing, batch, timestamp)
  {
    added := [];
    var i := 0;
    while i < |batch|
      invariant 0 <= i <= |batch|
      invariant added == Imported(existing, batch[..i], timestamp)
    {
      var rec := batch[i];
      assert batch[..i + 1][..i] == batch[..i];
      if Truthy(rec.phoneNumber)
         && !(exists j :: 0 <= j < |existing| && existing[j].phoneNumber == rec.phoneNumber.value)
         && !(exists j :: 0 <= j < |added| && added[j].phoneNumber == rec.phoneNumber.value)
      {
        added := added + [ImportedUser(rec, ImportedId(timestamp, i))];
      }
      i := i + 1;
    }
    assert batch[..|batch|] == batch;
  }

  /** `user` is what the record at some index of `batch` becomes. */
  ghost predicate MadeFrom(batch: seq<ImportRecord>, timestamp: string, user: User)
  {
    exists i :: 0 <= i < |batch| && Truthy(batch[i].phoneNumber)
                && user == ImportedUser(batch[i], ImportedId(timestamp, i))
  }

  /** Every imported user comes from one record of the batch, so it is a
      VERIFIED OWNER with no managed building, and its id carries the
      import's prefix. */
  lemma {:induction false} ImportedFromBatch(existing: seq<User>, batch: seq<ImportRecord>, timestamp: string)
    ensures forall u :: u in Imported(existing, batch, timestamp) ==>
              && MadeFrom(batch, timestamp, u)
              && u.role == Owner && u.status == Verified && u.managedBuilding == None
              && ImportPrefix(timestamp) <= u.id
  {
    if batch != [] {
      var n := |batch| - 1;
      ImportedFromBatch(existing, batch[..n], timestamp);
      forall u | u in Imported(existing, batch, timestamp)
        ensures MadeFrom(batch, timestamp, u)
      {
        if u in Imported(existing, batch[..n], timestamp) {
          var i :| 0 <= i < n && Truthy(batch[..n][i].phoneNumber)
                   && u == ImportedUser(batch[..n][i], ImportedId(timestamp, i));
          assert batch[..n][i] == batch[i];
        } else {
          assert u == ImportedUser(batch[n], ImportedId(timestamp, n));
        }
      }
    }
  }

  lemma KeyInConcat<K>(a: seq<User>, b: seq<User>, key: User -> K, k: K)
    ensures KeyIn(a + b, key, k) <==> KeyIn(a, key, k) || KeyIn(b, key, k)
  {
    if KeyIn(a + b, key, k) {
      var i :| 0 <= i < |a + b| && key((a + b)[i]) == k;
      if i >= |a| {
        assert b[i - |a|] == (a + b)[i];
      }
    }
    if KeyIn(b, key, k) {
      var i :| 0 <= i < |b| && key(b[i]) == k;
      assert (a + b)[|a| + i] == b[i];
    }
    if KeyIn(a, key, k) {
      var i :| 0 <= i < |a| && key(a[i]) == k;
      assert (a + b)[i] == a[i];
    }
  }

  /** Import keeps phone numbers pairwise distinct across the existing users
      and the appended ones. */
  lemma {:induction false} ImportKeepsPhonesDistinct(existing: seq<User>, batch: seq<ImportRecord>, timestamp: string)
    requires PhonesDistinct(existing)
    ensures PhonesDistinct(existing + Imported(existing, batch, timestamp))
  {
    if batch == [] {
      assert existing + [] == existing;
    } else {
      var n := |batch| - 1;
      var prev := Imported(existing, batch[..n], timestamp);
      ImportKeepsPhonesDistinct(existing, batch[..n], timestamp);
      if Accepted(existing, prev, batch[n]) {
        var u := ImportedUser(batch[n], ImportedId(timestamp, n));
        KeyInConcat(existing, prev, UserPhone, u.phoneNumber);
        DistinctByAppend(existing + prev, u, UserPhone);
        assert existing + (prev + [u]) == existing + prev + [u];
      }
    }
  }

  /** Import skips nothing but records without a phone number and records
      whose phone number is already present: after it, every phone number of
      the batch is held by some user. */
  lemma {:induction false} ImportCoversBatch(existing: seq<User>, batch: seq<ImportRecord>, timestamp: string)
    ensures forall i :: 0 <= i < |batch| && Truthy(batch[i].phoneNumber) ==>
              PhoneTaken(existing + Imported(existing, batch, timestamp), batch[i].phoneNumber.value)
  {
    if batch != [] {
      var n := |batch| - 1;
      var prev := Imported(existing, batch[..n], timestamp);
      var all := Imported(existing, batch, timestamp);
      ImportCoversBatch(existing, batch[..n], timestamp);
      assert prev <= all;
      forall i | 0 <= i < |batch| && Truthy(batch[i].phoneNumber)
        ensures PhoneTaken(existing + all, batch[i].phoneNumber.value)
      {
        var phone := batch[i].phoneNumber.value;
        KeyInConcat(existing, all, UserPhone, phone);
        if i < n {
          assert batch[..n][i] == batch[i];
          KeyInConcat(existing, prev, UserPhone, phone);
          if PhoneTaken(prev, phone) {
            var j :| 0 <= j < |prev| && UserPhone(prev[j]) == phone;
            assert all[j] == prev[j];
          }
        } else if Accepted(existing, prev, batch[n]) {
          assert all[|prev|] == ImportedUser(batch[n], ImportedId(timestamp, n));
        } else if PhoneTaken(prev, phone) {
          var j :| 0 <= j < |prev| && UserPhone(prev[j]) == phone;
          assert all[j] == prev[j];
        }
      }
    }
  }

  /** Different batch positions get different ids. */
  lemma ImportedIdInjective(timestamp: string, i: nat, j: nat)
    requires ImportedId(timestamp, i) == ImportedId(timestamp, j)
    ensures i == j
  {
    PrefixCancel(ImportPrefix(timestamp), NatToDecimal(i), NatToDecimal(j));
    NatToDecimalInjective(i, j);
  }

  /** The ids of the imported users are pairwise distinct. */
  lemma {:induction false} ImportedIdsDistinct(existing: seq<User>, batch: seq<ImportRecord>, timestamp: string)
    ensures IdsDistinct(Imported(existing, batch, timestamp))
  {
    if batch != [] {
      var n := |batch| - 1;
      var prev := Imported(existing, batch[..n], timestamp);
      ImportedIdsDistinct(existing, batch[..n], timestamp);
      if Accepted(existing, prev, batch[n]) {
        var u := ImportedUser(batch[n], ImportedId(timestamp, n));
        ImportedFromBatch(existing, batch[..n], timestamp);
        if KeyIn(prev, UserId, u.id) {
          var j :| 0 <= j < |prev| && UserId(prev[j]) == u.id;
          assert prev[j] in prev;
          var i :| 0 <= i < n && Truthy(batch[..n][i].phoneNumber)
                   && prev[j] == ImportedUser(batch[..n][i], ImportedId(timestamp, i));
          ImportedIdInjective(timestamp, i, n);
          assert false;
        }
        DistinctByAppend(prev, u, UserId);
      }
    }
  }

  /** Importing a prefix of the batch yields a prefix of the users. */
  lemma {:induction false} ImportedPrefix(existing: seq<User>, batch: seq<ImportRecord>, timestamp: string, m: nat)
    requires m <= |batch|
    ensures Imported(existing, batch[..m], timestamp) <= Imported(existing, batch, timestamp)
    decreases |batch|
  {
    if m == |batch| {
      assert batch[..m] == batch;
    } else {
      var n := |batch| - 1;
      ImportedPrefix(existing, batch[..n], timestamp, m);
      assert batch[..n][..m] == batch[..m];
    }
  }

  /** Every imported user is the record at some index `k`, taken because it
      was accepted against the users imported from the records before `k`. */
  lemma {:induction false} ImportedAccepted(existing: seq<User>, batch: seq<ImportRecord>, timestamp: string)
    ensures forall u :: u in Imported(existing, batch, timestamp) ==>
              exists k :: 0 <= k < |batch| && Accepted(existing, Imported(existing, batch[..k], timestamp), batch[k])
                          && u == ImportedUser(batch[k], ImportedId(timestamp, k))
  {
    if batch != [] {
      var n := |batch| - 1;
      var prev := Imported(existing, batch[..n], timestamp);
      ImportedAccepted(existing, batch[..n], timestamp);
      forall u | u in Imported(existing, batch, timestamp)
        ensures exists k :: 0 <= k < |batch| && Accepted(existing, Imported(existing, batch[..k], timestamp), batch[k])
                            && u == ImportedUser(batch[k], ImportedId(timestamp, k))
      {
        if u in prev {
          var k :| 0 <= k < n && Accepted(existing, Imported(existing, batch[..n][..k], timestamp), batch[..n][k])
                   && u == ImportedUser(batch[..n][k], ImportedId(timestamp, k));
          assert batch[..n][..k] == batch[..k];
          assert batch[..n][k] == batch[k];
        } else {
          assert u == ImportedUser(batch[n], ImportedId(timestamp, n));
        }
      }
    }
  }

  /** A record with a phone number is imported, under the id of its own
      position, exactly when no existing user holds that phone number and no
      earlier record of the batch carries it: the first record with a new
      number wins. */
  lemma ImportTakesFirst(existing: seq<User>, batch: seq<ImportRecord>, timestamp: string, i: nat)
    requires i < |batch| && Truthy(batch[i].phoneNumber)
    ensures ImportedUser(batch[i], ImportedId(timestamp, i)) in Imported(existing, batch, timestamp)
            <==> && !PhoneTaken(existing, batch[i].phoneNumber.value)
                 && forall j :: 0 <= j < i ==> batch[j].phoneNumber != batch[i].phoneNumber
  {
    var phone := batch[i].phoneNumber.value;
    var prev := Imported(existing, batch[..i], timestamp);
    var u := ImportedUser(batch[i], ImportedId(timestamp, i));
    if u in Imported(existing, batch, timestamp) {
      ImportedAccepted(existing, batch, timestamp);
      var k :| 0 <= k < |batch| && Accepted(existing, Imported(existing, batch[..k], timestamp), batch[k])
               && u == ImportedUser(batch[k], ImportedId(timestamp, k));
      ImportedIdInjective(timestamp, i, k);
      ImportCoversBatch(existing, batch[..i], timestamp);
      KeyInConcat(existing, prev, UserPhone, phone);
      forall j | 0 <= j < i ensures batch[j].phoneNumber != batch[i].phoneNumber {
        assert batch[..i][j] == batch[j];
      }
    }
    if !PhoneTaken(existing, phone) && forall j :: 0 <= j < i ==> batch[j].phoneNumber != batch[i].phoneNumber {
      ImportedFromBatch(existing, batch[..i], timestamp);
      assert !PhoneTaken(prev, phone);
      assert batch[..i + 1][..i] == batch[..i];
      assert batch[..i + 1][i] == batch[i];
      assert Imported(existing, batch[..i + 1], timestamp) == prev + [u];
      ImportedPrefix(existing, batch, timestamp, i + 1);
      assert u in prev + [u];
    }
  }

  /** Users in `r` with import ids appear in the order of their positions. */
  ghost predicate InBatchOrder(r: seq<User>, timestamp: string)
  {
    forall a: int, b: int, ka: nat, kb: nat ::
      (0 <= a < b < |r| && r[a].id == ImportedId(timestamp, ka) && r[b].id == ImportedId(timestamp, kb))
      ==> ka < kb
  }

  /** The imported users keep the order of the batch: a user appended later
      comes from a later record. */
  lemma {:induction false} ImportedInBatchOrder(existing: seq<User>, batch: seq<ImportRecord>, timestamp: string)
    ensures InBatchOrder(Imported(existing, batch, timestamp), timestamp)
  {
    if batch != [] {
      var n := |batch| - 1;
      var prev := Imported(existing, batch[..n], timestamp);
      var r := Imported(existing, batch, timestamp);
      ImportedInBatchOrder(existing, batch[..n], timestamp);
      ImportedFromBatch(existing, batch[..n], timestamp);
      forall a: int, b: int, ka: nat, kb: nat | 0 <= a < b < |r| && r[a].id == ImportedId(timestamp, ka)
                            && r[b].id == ImportedId(timestamp, kb)
        ensures ka < kb
      {
        assert r[a] == prev[a] && prev[a] in prev;
        var k :| 0 <= k < n && Truthy(batch[..n][k].phoneNumber)
                 && prev[a] == ImportedUser(batch[..n][k], ImportedId(timestamp, k));
        ImportedIdInjective(timestamp, ka, k);
        if b < |prev| {
          assert r[b] == prev[b];
          assert prev[a].id == ImportedId(timestamp, ka) && prev[b].id == ImportedId(timestamp, kb);
        } else {
          assert r == prev + [ImportedUser(batch[n], ImportedId(timestamp, n))];
          ImportedIdInjective(timestamp, kb, n);
        }
      }
    }
  }
}
