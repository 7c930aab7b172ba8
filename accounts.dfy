/**
 * The cross-field checks of account registration and login. Field-level
 * validation (types, lengths, uniqueness) runs before these and is not part
 * of this module; the password hash check is a parameter.
 */
module Accounts {
  import opened Wrappers
  import opened Models

  /** A registration request as it reaches the cross-field check; a field may be missing. */
  datatype RegistrationData = RegistrationData(
    username: Option<string>,
    email: Option<string>,
    password: Option<string>,
    role: Option<string>,
    name: Option<string>,
    major: Option<string>,
    department: Option<string>)

  /** Why a registration is refused, one per message of the check. */
  datatype RegistrationError =
    | StudentNumberRequired
    | MajorRequired
    | ProfessorNumberRequired
    | DepartmentRequired
    | InvalidRole

  const StudentRole: string := "student"
  const ProfessorRole: string := "professor"

  /**
   * A student needs a student number (the username) and a major, a professor
   * a professor number and a department, in that order; any other role is
   * refused. An accepted request passes through unchanged.
   */
  function ValidateRegistration(data: RegistrationData): (r: Result<RegistrationData, RegistrationError>)
    ensures r.Ok? ==> r.value == data
    ensures r == Err(InvalidRole) <==> data.role != Some(StudentRole) && data.role != Some(ProfessorRole)
    ensures r == Err(StudentNumberRequired) <==> data.role == Some(StudentRole) && !Given(data.username)
    ensures r == Err(MajorRequired) <==> data.role == Some(StudentRole) && Given(data.username) && !Given(data.major)
    ensures r == Err(ProfessorNumberRequired) <==> data.role == Some(ProfessorRole) && !Given(data.username)
    ensures r == Err(DepartmentRequired) <==> data.role == Some(ProfessorRole) && Given(data.username) && !Given(data.department)
  {
    if data.role == Some(StudentRole) then
      if !Given(data.username) then Err(StudentNumberRequired)
      else if !Given(data.major) then Err(MajorRequired)
      else Ok(data)
    else if data.role == Some(ProfessorRole) then
      if !Given(data.username) then Err(ProfessorNumberRequired)
      else if !Given(data.department) then Err(DepartmentRequired)
      else Ok(data)
    else Err(InvalidRole)
  }

  /** The role a stored account gets from its role text. */
  function RoleOf(role: string): (r: Role)
    ensures r == Student <==> role == StudentRole
    ensures r == Professor <==> role == ProfessorRole
  {
    if role == StudentRole then Student else if role == ProfessorRole then Professor else NoRole
  }

  /** An accepted registration has a usable role and the fields that role needs. */
  lemma AcceptedRegistration(data: RegistrationData)
    requires ValidateRegistration(data).Ok?
    ensures data.role.Some? && RoleOf(data.role.value) != NoRole
    ensures Given(data.username)
    ensures RoleOf(data.role.value) == Student ==> Given(data.major)
    ensures RoleOf(data.role.value) == Professor ==> Given(data.department)
  {
  }

  /** A student's department, and a professor's major, never decide a registration. */
  lemma OtherRoleFieldIgnored(data: RegistrationData, other: Option<string>)
    ensures data.role == Some(StudentRole) ==>
      ValidateRegistration(data.(department := other)).Ok? == ValidateRegistration(data).Ok?
    ensures data.role == Some(ProfessorRole) ==>
      ValidateRegistration(data.(major := other)).Ok? == ValidateRegistration(data).Ok?
  {
  }

  /** Neither the e-mail, the password nor the display name enters the cross-field check. */
  lemma CommonFieldsIgnored(data: RegistrationData, email: Option<string>, password: Option<string>, name: Option<string>)
    ensures ValidateRegistration(data.(email := email, password := password, name := name)).Ok?
         == ValidateRegistration(data).Ok?
  {
  }

  /** A login request; both fields are required by field-level validation, so both are present here. */
  datatype LoginData = LoginData(username: string, password: string)

  /** Why a login is refused. */
  datatype LoginError = UserNotFound | WrongPassword

  /** An accepted login: the request extended with the account it names. */
  datatype Authenticated = Authenticated(username: string, password: string, user: User)

  /**
   * The account is looked up by username; an unknown username and a wrong
   * password are refused with their own messages. `checkPassword` stands
   * for the stored hash check.
   */
  function ValidateLogin(users: seq<User>, data: LoginData, checkPassword: (User, string) -> bool): (r: Result<Authenticated, LoginError>)
    requires UsernamesUnique(users)
    ensures r == Err(UserNotFound) <==> forall u :: u in users ==> u.username != data.username
    ensures r == Err(WrongPassword) ==> exists u :: u in users && u.username == data.username && !checkPassword(u, data.password)
    ensures r.Ok? ==> r.value.username == data.username && r.value.password == data.password
    ensures r.Ok? ==> r.value.user in users && r.value.user.username == data.username && checkPassword(r.value.user, data.password)
  {
    match UserByUsername(users, data.username)
    case None => Err(UserNotFound)
    case Some(user) =>
      if !checkPassword(user, data.password) then Err(WrongPassword)
      else Ok(Authenticated(data.username, data.password, user))
  }

  /** With unique usernames, a login succeeds exactly when the named account accepts the password. */
  lemma LoginSucceedsIff(users: seq<User>, data: LoginData, checkPassword: (User, string) -> bool, u: User)
    requires UsernamesUnique(users)
    requires u in users && u.username == data.username
    ensures ValidateLogin(users, data, checkPassword).Ok? <==> checkPassword(u, data.password)
    ensures ValidateLogin(users, data, checkPassword).Ok? ==> ValidateLogin(users, data, checkPassword).value.user == u
  {
    var r := ValidateLogin(users, data, checkPassword);
    if r.Ok? || r == Err(WrongPassword) {
      var v := UserByUsername(users, data.username).value;
      SameUsernameSameUser(users, u, v);
    }
  }

  /** Two accounts of a table with unique usernames that share a username are the same account. */
  lemma SameUsernameSameUser(users: seq<User>, u: User, v: User)
    requires UsernamesUnique(users)
    requires u in users && v in users && u.username == v.username
    ensures u == v
  {
    var i :| 0 <= i < |users| && users[i] == u;
    var j :| 0 <= j < |users| && users[j] == v;
  }
}
