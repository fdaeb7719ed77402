/** The four user route handlers (create, update, delete, getByNickName), each a
    sequence of early returns that maps validation and repository outcomes to an HTTP
    status code.

    Request decoding is outside the model: a handler receives the already-decoded record
    (or the `nickname` query parameter) and a flag saying that decoding failed. Each
    repository call the handler makes takes its own backend-failure flag. */
module Routes {
  import opened Wrappers
  import opened Domain
  import opened Repository

  const StatusOK := 200
  const StatusCreated := 201
  const StatusBadRequest := 400
  const StatusNotFound := 404
  const StatusInternalServerError := 500

  /** The handlers, closed over one repository. */
  class UserRoutes {
    const repo: UserRepository

    constructor (repo: UserRepository)
      ensures this.repo == repo
    {
      this.repo := repo;
    }

    /** What the handlers keep about the collection when requests run one at a time: at
        most one document per nickname, and every document complete. */
    ghost predicate Valid()
      reads this, repo
    {
      AtMostOnePerNickname(repo.docs) && AllComplete(repo.docs)
    }

    /** POST /create. A nickname that the lookup finds is rejected with 400; any other
        lookup error is 500; otherwise the record is inserted and the answer is 201. */
    method Create(newUser: User, decodeFailed: bool, lookupFails: bool, insertFails: bool)
      returns (status: int)
      modifies repo
      ensures decodeFailed || MissingMandatory(newUser) ==>
        status == StatusBadRequest && repo.docs == old(repo.docs)
      ensures !decodeFailed && !MissingMandatory(newUser) && lookupFails ==>
        status == StatusInternalServerError && repo.docs == old(repo.docs)
      ensures !decodeFailed && !MissingMandatory(newUser) && !lookupFails &&
              HasNickname(old(repo.docs), newUser.Nickname) ==>
        status == StatusBadRequest && repo.docs == old(repo.docs)
      ensures !decodeFailed && !MissingMandatory(newUser) && !lookupFails &&
              !HasNickname(old(repo.docs), newUser.Nickname) ==>
        if insertFails then status == StatusInternalServerError && repo.docs == old(repo.docs)
        else status == StatusCreated && repo.docs == old(repo.docs) + [newUser]
      ensures old(Valid()) ==> Valid()
    {
      if decodeFailed {
        return StatusBadRequest;
      }
      if MissingMandatory(newUser) {
        return StatusBadRequest;
      }
      var existing := repo.GetUserByNickName(newUser.Nickname, lookupFails);
      if existing.Found? {
        return StatusBadRequest;
      } else if existing.StoreError? {
        return StatusInternalServerError;
      }
      ghost var before := repo.docs;
      var created := repo.CreateUser(newUser, insertFails);
      if created.InsertError? {
        return StatusInternalServerError;
      }
      if AtMostOnePerNickname(before) {
        InsertAbsentKeepsUnique(before, newUser);
      }
      return StatusCreated;
    }

    /** PUT /update. An absent nickname is 404, another lookup error 500. On a hit the
        looked-up record gets the input's nickname, password, gender and phone number, and
        the input's interests if there are any, otherwise none; it is written back, and any
        error of the write (a store error, or no document modified) is 500. */
    method Update(user: User, decodeFailed: bool, lookupFails: bool, updateFails: bool)
      returns (status: int)
      modifies repo
      ensures decodeFailed || MissingMandatory(user) ==>
        status == StatusBadRequest && repo.docs == old(repo.docs)
      ensures !decodeFailed && !MissingMandatory(user) && lookupFails ==>
        status == StatusInternalServerError && repo.docs == old(repo.docs)
      ensures !decodeFailed && !MissingMandatory(user) && !lookupFails &&
              !HasNickname(old(repo.docs), user.Nickname) ==>
        status == StatusNotFound && repo.docs == old(repo.docs)
      ensures !decodeFailed && !MissingMandatory(user) && !lookupFails &&
              HasNickname(old(repo.docs), user.Nickname) ==>
        var i := FirstMatch(old(repo.docs), user.Nickname).value;
        if updateFails then status == StatusInternalServerError && repo.docs == old(repo.docs)
        else if old(repo.docs)[i] == user then
          status == StatusInternalServerError && repo.docs == old(repo.docs)
        else
          status == StatusOK && repo.docs == old(repo.docs)[i := user]
      // Interests are replaced, not merged: an empty list in the input clears them.
      ensures status == StatusOK ==>
        var i := FirstMatch(old(repo.docs), user.Nickname).value;
        HasNickname(old(repo.docs), user.Nickname) &&
        repo.docs[i].Interests == user.Interests
      ensures old(Valid()) ==> Valid()
    {
      if decodeFailed {
        return StatusBadRequest;
      }
      if MissingMandatory(user) {
        return StatusBadRequest;
      }
      var lookup := repo.GetUserByNickName(user.Nickname, lookupFails);
      match lookup
      case StoreError =>
        return StatusInternalServerError;
      case NotFound =>
        return StatusNotFound;
      case Found(existingUser) =>
        var written := existingUser;
        written := written.(Nickname := user.Nickname);
        written := written.(Password := user.Password);
        written := written.(Gender := user.Gender);
        written := written.(PhoneNumber := user.PhoneNumber);
        if |user.Interests| > 0 {
          written := written.(Interests := user.Interests);
        } else {
          written := written.(Interests := []);
        }
        assert written == user;
        ghost var before := repo.docs;
        var updated := repo.UpdateUser(written, updateFails);
        if AtMostOnePerNickname(before) {
          SetFirstKeepsUnique(before, user);
        }
        if !updated.Modified? {
          return StatusInternalServerError;
        }
        return StatusOK;
    }

    /** DELETE /delete?nickname=. An empty nickname is 400, a store error 500; otherwise
        200 when one document was deleted and 404 when none was. */
    method Delete(nickname: string, backendFails: bool) returns (status: int)
      modifies repo
      ensures nickname == "" ==> status == StatusBadRequest && repo.docs == old(repo.docs)
      ensures nickname != "" && backendFails ==>
        status == StatusInternalServerError && repo.docs == old(repo.docs)
      ensures nickname != "" && !backendFails ==>
        (status == StatusOK <==> HasNickname(old(repo.docs), nickname)) &&
        (status == StatusOK || status == StatusNotFound) &&
        repo.docs == RemoveFirst(old(repo.docs), nickname)
      ensures old(Valid()) && status == StatusOK ==> !HasNickname(repo.docs, nickname)
      ensures old(Valid()) ==> Valid()
    {
      if nickname == "" {
        return StatusBadRequest;
      }
      ghost var before := repo.docs;
      var result := repo.DeleteUser(nickname, backendFails);
      if result.DeleteError? {
        return StatusInternalServerError;
      }
      if AtMostOnePerNickname(before) {
        RemoveKeepsUnique(before, nickname);
        RemoveUniqueClearsNickname(before, nickname);
      }
      if result.deletedCount == 1 {
        return StatusOK;
      }
      return StatusNotFound;
    }

    /** GET /getByNickName?nickname=. An empty nickname is 400, an absent one 404, another
        lookup error 500; a hit is 200 with the looked-up record (the zero-valued one) as
        body. Never changes the collection (there is no modifies clause). */
    method GetByNickName(nickname: string, backendFails: bool)
      returns (status: int, body: Option<User>)
      ensures nickname == "" ==> status == StatusBadRequest && body == None
      ensures nickname != "" && backendFails ==>
        status == StatusInternalServerError && body == None
      ensures nickname != "" && !backendFails && !HasNickname(repo.docs, nickname) ==>
        status == StatusNotFound && body == None
      ensures nickname != "" && !backendFails && HasNickname(repo.docs, nickname) ==>
        status == StatusOK && body == Some(ZeroUser())
    {
      if nickname == "" {
        return StatusBadRequest, None;
      }
      var dbUser := repo.GetUserByNickName(nickname, backendFails);
      match dbUser
      case StoreError =>
        return StatusInternalServerError, None;
      case NotFound =>
        return StatusNotFound, None;
      case Found(u) =>
        return StatusOK, Some(u);
    }
  }

  /** Requests served one at a time on an empty collection with a working backend:
      creating "ana" answers 201, looking her up answers 200 with the zero-valued body (not
      the created record), and creating "ana" again answers 400 and writes nothing. */
  method CreateThenGet() returns (statuses: seq<int>, body: Option<User>, stored: seq<User>)
    ensures statuses == [StatusCreated, StatusOK, StatusBadRequest]
    ensures body == Some(ZeroUser())
    ensures stored == [User("ana", "p1", "f", "", [])]
  {
    var ana := User("ana", "p1", "f", "", []);
    var repo := new UserRepository([]);
    var routes := new UserRoutes(repo);
    assert !HasNickname([], "ana");
    var s1 := routes.Create(ana, false, false, false);
    assert repo.docs[0].Nickname == "ana";
    var s2, b2 := routes.GetByNickName("ana", false);
    var s3 := routes.Create(ana, false, false, false);
    statuses, body, stored := [s1, s2, s3], b2, repo.docs;
  }

  /** With "ana" stored, an update that changes her password and interests answers 200
      and stores exactly the input; resubmitting the same update answers 500, since no
      document is modified. */
  method UpdateTwice() returns (statuses: seq<int>, stored: seq<User>)
    ensures statuses == [StatusOK, StatusInternalServerError]
    ensures stored == [User("ana", "p2", "f", "", ["chess"])]
  {
    var ana2 := User("ana", "p2", "f", "", ["chess"]);
    var repo := new UserRepository([User("ana", "p1", "f", "", [])]);
    var routes := new UserRoutes(repo);
    FirstMatchAt(repo.docs, "ana", 0);
    var s1 := routes.Update(ana2, false, false, false);
    assert repo.docs == [ana2];
    FirstMatchAt(repo.docs, "ana", 0);
    var s2 := routes.Update(ana2, false, false, false);
    statuses, stored := [s1, s2], repo.docs;
  }

  /** With "ana" stored once, deleting her answers 200, looking her up then answers 404,
      and deleting her again answers 404. */
  method DeleteTwice() returns (statuses: seq<int>, stored: seq<User>)
    ensures statuses == [StatusOK, StatusNotFound, StatusNotFound]
    ensures stored == []
  {
    var repo := new UserRepository([User("ana", "p2", "f", "", ["chess"])]);
    var routes := new UserRoutes(repo);
    assert repo.docs[0].Nickname == "ana";
    var s1 := routes.Delete("ana", false);
    assert repo.docs == [];
    var s2, b2 := routes.GetByNickName("ana", false);
    var s3 := routes.Delete("ana", false);
    statuses, stored := [s1, s2, s3], repo.docs;
  }
}
