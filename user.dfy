/**
 * A user of the system and the two checks made against it: a password match
 * and a flat role policy. Both variants of the class behave the same way.
 */
module Users {

  datatype User = User(userId: string, name: string, role: string, password: string)

  /** Exact, case-sensitive comparison of both the name and the password. */
  predicate AuthenticateUser(u: User, username: string, password: string) {
    u.name == username && u.password == password
  }

  /** An admin may do anything; a librarian anything but "deleteUser"; nobody else anything. */
  predicate AuthorizeUser(u: User, task: string) {
    u.role == "admin" || (u.role == "librarian" && task != "deleteUser")
  }

  lemma AuthenticateMeansBothMatch(u: User, username: string, password: string)
    ensures AuthenticateUser(u, username, password) <==> username == u.name && password == u.password
  {
  }

  /** The identifier and the role play no part in authentication. */
  lemma AuthenticateIgnoresIdAndRole(u: User, userId: string, role: string, username: string, password: string)
    ensures AuthenticateUser(u.(userId := userId, role := role), username, password)
        == AuthenticateUser(u, username, password)
  {
  }

  lemma AdminMayDoAnything(u: User, task: string)
    requires u.role == "admin"
    ensures AuthorizeUser(u, task)
  {
  }

  lemma LibrarianDeniedOnlyDeleteUser(u: User, task: string)
    requires u.role == "librarian"
    ensures AuthorizeUser(u, task) <==> task != "deleteUser"
  {
  }

  lemma OtherRolesDenied(u: User, task: string)
    requires u.role != "admin" && u.role != "librarian"
    ensures !AuthorizeUser(u, task)
  {
  }

  /** Both comparisons are case-sensitive. */
  lemma CaseMatters()
    ensures !AuthorizeUser(User("u1", "Ann", "Admin", "pw"), "addBook")
    ensures AuthorizeUser(User("u2", "Bob", "librarian", "pw"), "DeleteUser")
    ensures !AuthorizeUser(User("u2", "Bob", "librarian", "pw"), "deleteUser")
    ensures !AuthenticateUser(User("u1", "Ann", "admin", "pw"), "ann", "pw")
  {
  }
}
