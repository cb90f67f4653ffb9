/** The entities of the user service: roles, account states and user records. */
module ApiTypes {
  import opened Wrappers

  datatype Role = Admin | Manager | Viewer

  datatype Status = Active | Inactive | Pending

  /** The string value each role enumerator stands for. */
  function RoleName(r: Role): string {
    match r
    case Admin => "admin"
    case Manager => "manager"
    case Viewer => "viewer"
  }

  /** The string value each status enumerator stands for. */
  function StatusName(s: Status): string {
    match s
    case Active => "active"
    case Inactive => "inactive"
    case Pending => "pending"
  }

  /** A user record; `password` is the optional field, absent on records that left
      the service through `login`. */
  datatype User = User(
    id: int,
    name: string,
    email: string,
    role: Role,
    status: Status,
    dateJoined: string,
    password: Option<string>)

  /** The record with its password field removed (`const { password, ...rest } = user`). */
  function WithoutPassword(u: User): User {
    u.(password := None)
  }

  /** The fields a caller passes to `createUser` or `updateUser`; each present field
      overrides the record's when the two objects are spread together. */
  datatype UserPatch = UserPatch(
    id: Option<int>,
    name: Option<string>,
    email: Option<string>,
    role: Option<Role>,
    status: Option<Status>,
    dateJoined: Option<string>,
    password: Option<string>)

  /** `{ ...base, ...patch }`: the shallow merge, patch fields winning. */
  function Merge(base: User, patch: UserPatch): (r: User)
    ensures patch.id.Some? ==> r.id == patch.id.value
    ensures patch.id.None? ==> r.id == base.id
    ensures patch.name.Some? ==> r.name == patch.name.value
    ensures patch.name.None? ==> r.name == base.name
    ensures patch.email.Some? ==> r.email == patch.email.value
    ensures patch.email.None? ==> r.email == base.email
    ensures patch.role.Some? ==> r.role == patch.role.value
    ensures patch.role.None? ==> r.role == base.role
    ensures patch.status.Some? ==> r.status == patch.status.value
    ensures patch.status.None? ==> r.status == base.status
    ensures patch.dateJoined.Some? ==> r.dateJoined == patch.dateJoined.value
    ensures patch.dateJoined.None? ==> r.dateJoined == base.dateJoined
    ensures patch.password.Some? ==> r.password == patch.password
    ensures patch.password.None? ==> r.password == base.password
  {
    User(
      patch.id.GetOr(base.id),
      patch.name.GetOr(base.name),
      patch.email.GetOr(base.email),
      patch.role.GetOr(base.role),
      patch.status.GetOr(base.status),
      patch.dateJoined.GetOr(base.dateJoined),
      if patch.password.Some? then patch.password else base.password)
  }
}
