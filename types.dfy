/** The two record shapes the portal keeps in memory: residents (users) and
    proposals (vote items), with their enumerations. Optional fields of the
    source records are `Option`s here; `None` stands for an absent property. */
module Types {

  datatype Option<T> = None | Some(value: T)

  datatype UserRole = Owner | BuildingAdmin | SuperAdmin

  datatype UserStatus = Pending | Verified | Rejected

  /** A resident account. `password` and `managedBuilding` are optional in the
      source record; the unused display-only `avatar` is not modelled. */
  datatype User = User(
    id: string,
    name: string,
    role: UserRole,
    building: string,
    unit: string,
    status: UserStatus,
    phoneNumber: string,
    password: Option<string>,
    managedBuilding: Option<string>)

  /** `caption` is the source's `label` (a reserved word in Dafny). */
  datatype VoteOption = VoteOption(id: string, caption: string, count: nat)

  datatype VoteStatus = Active | Closed

  /** A proposal. `isVisible` and `order` are optional in the source record. */
  datatype VoteItem = VoteItem(
    id: string,
    title: string,
    description: string,
    createdAt: string,
    deadline: string,
    options: seq<VoteOption>,
    status: VoteStatus,
    totalVotes: nat,
    votedUserIds: seq<string>,
    isVisible: Option<bool>,
    order: Option<int>)

  /** JavaScript truthiness of an optional string: present and non-empty. */
  predicate Truthy(s: Option<string>)
  {
    s.Some? && s.value != ""
  }

  /** The sort key of a proposal: its `order`, a missing one counting as 0. */
  function OrderKey(v: VoteItem): int
  {
    match v.order
    case Some(k) => k
    case None => 0
  }

  function UserId(u: User): string { u.id }

  function UserPhone(u: User): string { u.phoneNumber }

  function OptionKey(o: VoteOption): string { o.id }

  /** An editor field: the supplied value, or the current one when absent. */
  function Pick(o: Option<string>, current: string): string
  {
    if o.Some? then o.value else current
  }
}
