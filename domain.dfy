/** The user record of the chat backend, as it is exchanged over HTTP and stored in the
    "users" collection. */
module Domain {

  /** One user document. The fields of the Go struct; documents store them as nickname,
      password, gender, phoneNumber, interests. */
  datatype User = User(
    Nickname: string,
    Password: string,
    Gender: string,
    PhoneNumber: string,
    Interests: seq<string>)

  /** The zero value of the record: every string empty, no interests. */
  function ZeroUser(): User
  {
    User("", "", "", "", [])
  }

  /** The request validation shared by the create and update handlers: one of the three
      mandatory fields is empty. */
  predicate MissingMandatory(u: User)
  {
    u.Gender == "" || u.Nickname == "" || u.Password == ""
  }
}
