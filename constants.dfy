/** The policy constants and enumerations of the library (the configuration module of the system). */
module Constants {
  import opened Wrappers

  /** The two roles a user may hold. There is no hierarchy between them. */
  datatype Role = Admin | Member

  /** The statuses a borrowing record may hold. */
  datatype Status = Borrowed | Returned | Overdue

  /** Length of a loan, in days. */
  const BorrowDurationDays: nat := 14

  /** Fine charged for each started day of lateness. */
  const FinePerDay: nat := 5

  /** Milliseconds in one day: the unit every date difference is divided by. */
  const MsPerDay: nat := 1000 * 60 * 60 * 24

  /** Length of a loan in milliseconds, derived from the configured number of days. */
  const BorrowDurationMs: nat := BorrowDurationDays * MsPerDay

  /** The string stored in a user document for a role. */
  function RoleName(r: Role): (s: string)
    ensures s == "Admin" <==> r == Admin
    ensures s == "Admin" || s == "Member"
  {
    match r
    case Admin => "Admin"
    case Member => "Member"
  }

  /** The role a stored string denotes, if any: the comparison `role !== 'Admin'` works on these strings. */
  function ParseRole(s: string): (r: Option<Role>)
    ensures r.Some? <==> s == "Admin" || s == "Member"
    ensures r == Some(Admin) <==> s == "Admin"
  {
    if s == "Admin" then Some(Admin)
    else if s == "Member" then Some(Member)
    else None
  }

  /** The string stored in a borrowing document for a status. */
  function StatusName(st: Status): (s: string)
    ensures s == "borrowed" <==> st == Borrowed
    ensures s == "returned" <==> st == Returned
    ensures s == "overdue" <==> st == Overdue
  {
    match st
    case Borrowed => "borrowed"
    case Returned => "returned"
    case Overdue => "overdue"
  }

  /** The status a stored string denotes; any other string lies outside the schema's enum. */
  function ParseStatus(s: string): (r: Option<Status>)
    ensures r.Some? <==> s == "borrowed" || s == "returned" || s == "overdue"
    ensures r == Some(Borrowed) <==> s == "borrowed"
    ensures r == Some(Returned) <==> s == "returned"
  {
    if s == "borrowed" then Some(Borrowed)
    else if s == "returned" then Some(Returned)
    else if s == "overdue" then Some(Overdue)
    else None
  }

  /** Role strings and roles are in one-to-one correspondence. */
  lemma RoleRoundTrip(r: Role, s: string)
    ensures ParseRole(RoleName(r)) == Some(r)
    ensures ParseRole(s).Some? ==> RoleName(ParseRole(s).value) == s
  {
  }

  /** Status strings and statuses are in one-to-one correspondence. */
  lemma StatusRoundTrip(st: Status, s: string)
    ensures ParseStatus(StatusName(st)) == Some(st)
    ensures ParseStatus(s).Some? ==> StatusName(ParseStatus(s).value) == s
  {
  }

  /** The loan length written as a literal in the controllers and the schema hook agrees with the configured days. */
  lemma LoanLiteralAgrees()
    ensures 14 * 24 * 60 * 60 * 1000 == BorrowDurationMs == 1209600000
    ensures MsPerDay == 86400000
  {
  }
}
