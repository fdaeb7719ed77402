/** The user repository: the four operations over the "users" document collection.

    The collection is modelled as the sequence of its documents in natural order. Every
    operation that takes a nickname acts on the FIRST document whose nickname matches, as
    the driver's FindOne, DeleteOne and UpdateOne do. Nothing stops the collection from
    holding two documents with one nickname: CreateUser inserts without a check.

    A backend failure (connection, timeout) is an input of each operation: when it is set
    the operation reports a store error and writes nothing. */
module Repository {
  import opened Wrappers
  import opened Domain

  /** Outcome of a lookup by nickname. */
  datatype LookupResult = Found(user: User) | NotFound | StoreError

  /** Outcome of an insert. */
  datatype InsertResult = Inserted | InsertError

  /** Outcome of a delete: the driver's DeletedCount, or a store error. */
  datatype DeleteResult = Deleted(deletedCount: nat) | DeleteError

  /** Outcome of an update: a document was modified; or no document was modified
      (ModifiedCount == 0), reported as an error together with the MatchedCount; or a store
      error. */
  datatype UpdateResult = Modified | NotModified(matchedCount: nat) | UpdateError

  // ---------------------------------------------------------------------------------
  // The collection as a value

  /** Some document of the collection carries this nickname. */
  predicate HasNickname(docs: seq<User>, nick: string)
  {
    exists k :: 0 <= k < |docs| && docs[k].Nickname == nick
  }

  /** The position of the first document whose nickname is `nick`, if any. */
  function FirstMatch(docs: seq<User>, nick: string): (r: Option<nat>)
    ensures r.None? <==> !HasNickname(docs, nick)
    ensures r.Some? ==> r.value < |docs| && docs[r.value].Nickname == nick
    ensures r.Some? ==> forall k :: 0 <= k < r.value ==> docs[k].Nickname != nick
  {
    if |docs| == 0 then None
    else if docs[0].Nickname == nick then Some(0)
    else
      match FirstMatch(docs[1..], nick)
      case None =>
        assert forall k :: 1 <= k < |docs| ==> docs[k] == docs[1..][k - 1];
        None
      case Some(i) =>
        assert docs[i + 1] == docs[1..][i];
        assert forall k :: 1 <= k <= i ==> docs[k] == docs[1..][k - 1];
        Some(i + 1)
  }

  /** The collection after DeleteOne with a nickname filter: the first matching document
      is gone, every other document stays, in the same order. */
  function RemoveFirst(docs: seq<User>, nick: string): (r: seq<User>)
    ensures !HasNickname(docs, nick) ==> r == docs
    ensures HasNickname(docs, nick) ==>
      var i := FirstMatch(docs, nick).value;
      |r| == |docs| - 1 &&
      multiset(r) + multiset{docs[i]} == multiset(docs) &&
      (forall k :: 0 <= k < i ==> r[k] == docs[k]) &&
      (forall k :: i <= k < |r| ==> r[k] == docs[k + 1])
  {
    match FirstMatch(docs, nick)
    case None => docs
    case Some(i) =>
      assert docs == docs[..i] + [docs[i]] + docs[i + 1..];
      docs[..i] + docs[i + 1..]
  }

  /** The collection after UpdateOne with a nickname filter and a `$set` of all five
      fields: the first document whose nickname is `u.Nickname` becomes `u`, every other
      document stays. Since the filter key is the nickname, the set never changes which
      nickname sits at which position. */
  function SetFirst(docs: seq<User>, u: User): (r: seq<User>)
    ensures |r| == |docs|
    ensures forall k :: 0 <= k < |r| ==> r[k].Nickname == docs[k].Nickname
    ensures !HasNickname(docs, u.Nickname) ==> r == docs
    ensures HasNickname(docs, u.Nickname) ==>
      var i := FirstMatch(docs, u.Nickname).value;
      r[i] == u && forall k :: 0 <= k < |r| && k != i ==> r[k] == docs[k]
  {
    match FirstMatch(docs, u.Nickname)
    case None => docs
    case Some(i) => docs[i := u]
  }

  /** The natural-key invariant the handlers are meant to keep: at most one document per
      nickname. */
  predicate AtMostOnePerNickname(docs: seq<User>)
  {
    forall i, j :: 0 <= i < j < |docs| ==> docs[i].Nickname != docs[j].Nickname
  }

  /** Every stored document has its three mandatory fields non-empty. */
  predicate AllComplete(docs: seq<User>)
  {
    forall d :: d in docs ==> !MissingMandatory(d)
  }

  // ---------------------------------------------------------------------------------
  // Lemmas about the collection

  /** Inserting a user whose nickname is absent keeps the natural key unique. */
  lemma InsertAbsentKeepsUnique(docs: seq<User>, u: User)
    requires AtMostOnePerNickname(docs)
    requires !HasNickname(docs, u.Nickname)
    ensures AtMostOnePerNickname(docs + [u])
  {
  }

  /** The first match is determined by its contract: a matching position with no match
      before it is the first match. */
  lemma FirstMatchAt(docs: seq<User>, nick: string, i: nat)
    requires i < |docs| && docs[i].Nickname == nick
    requires forall k :: 0 <= k < i ==> docs[k].Nickname != nick
    ensures FirstMatch(docs, nick) == Some(i)
  {
  }

  /** Inserting a user whose nickname is already stored breaks the invariant: the store
      itself enforces no uniqueness. */
  lemma InsertPresentBreaksUnique(docs: seq<User>, u: User)
    requires HasNickname(docs, u.Nickname)
    ensures !AtMostOnePerNickname(docs + [u])
    ensures FirstMatch(docs + [u], u.Nickname) == FirstMatch(docs, u.Nickname)
  {
    var i := FirstMatch(docs, u.Nickname).value;
    var r := docs + [u];
    assert r[i] == docs[i] && r[|docs|] == u;
    FirstMatchAt(r, u.Nickname, i);
  }

  /** Removing a document keeps the natural key unique. */
  lemma RemoveKeepsUnique(docs: seq<User>, nick: string)
    requires AtMostOnePerNickname(docs)
    ensures AtMostOnePerNickname(RemoveFirst(docs, nick))
  {
  }

  /** On a collection with a unique natural key, removing the document of a nickname
      leaves no document with that nickname: a second delete finds nothing. */
  lemma RemoveUniqueClearsNickname(docs: seq<User>, nick: string)
    requires AtMostOnePerNickname(docs)
    ensures !HasNickname(RemoveFirst(docs, nick), nick)
  {
  }

  /** Updating a document keeps the natural key unique, since it never changes a
      nickname. */
  lemma SetFirstKeepsUnique(docs: seq<User>, u: User)
    requires AtMostOnePerNickname(docs)
    ensures AtMostOnePerNickname(SetFirst(docs, u))
  {
  }

  // ---------------------------------------------------------------------------------
  // The repository object

  /** The repository: a handle on the "users" collection, whose documents it changes in
      place. */
  class UserRepository {
    /** The documents of the collection, in natural order. */
    var docs: seq<User>

    /** NewUserRepository: a repository over the "users" collection, whose current
        documents are `initial`. */
    constructor (initial: seq<User>)
      ensures docs == initial
    {
      docs := initial;
    }

    /** FindOne by nickname. The local record is never decoded from the document that was
        found, so a hit yields the zero-valued record whatever the document holds. Never
        changes the collection (there is no modifies clause). */
    method GetUserByNickName(nickName: string, backendFails: bool) returns (r: LookupResult)
      ensures backendFails <==> r == StoreError
      ensures !backendFails ==> (r == NotFound <==> !HasNickname(docs, nickName))
      ensures r.Found? ==> HasNickname(docs, nickName) && r.user == ZeroUser()
    {
      var user := ZeroUser();
      if backendFails {
        return StoreError;
      }
      if FirstMatch(docs, nickName).None? {
        return NotFound;
      }
      return Found(user);
    }

    /** InsertOne: appends the record as a new document, with no uniqueness check. */
    method CreateUser(user: User, backendFails: bool) returns (r: InsertResult)
      modifies this
      ensures backendFails <==> r == InsertError
      ensures docs == if backendFails then old(docs) else old(docs) + [user]
    {
      if backendFails {
        return InsertError;
      }
      docs := docs + [user];
      return Inserted;
    }

    /** DeleteOne by nickname: removes the first matching document; DeletedCount is 1 when
        one matched and 0 when none did. */
    method DeleteUser(nickname: string, backendFails: bool) returns (r: DeleteResult)
      modifies this
      ensures backendFails <==> r == DeleteError
      ensures backendFails ==> docs == old(docs)
      ensures !backendFails ==>
        r.deletedCount <= 1 &&
        (r.deletedCount == 0 <==> !HasNickname(old(docs), nickname)) &&
        docs == RemoveFirst(old(docs), nickname)
    {
      if backendFails {
        return DeleteError;
      }
      match FirstMatch(docs, nickname)
      case None =>
        return Deleted(0);
      case Some(i) =>
        docs := docs[..i] + docs[i + 1..];
        return Deleted(1);
    }

    /** UpdateOne filtered by `user.Nickname` with a `$set` of all five fields. A
        ModifiedCount of 0 is reported as an error: it covers both "no document matched"
        (MatchedCount 0) and "the matched document already held these values"
        (MatchedCount 1). */
    method UpdateUser(user: User, backendFails: bool) returns (r: UpdateResult)
      modifies this
      ensures backendFails <==> r == UpdateError
      ensures backendFails ==> docs == old(docs)
      ensures !backendFails ==> docs == SetFirst(old(docs), user)
      ensures !backendFails && !HasNickname(old(docs), user.Nickname) ==> r == NotModified(0)
      ensures !backendFails && HasNickname(old(docs), user.Nickname) ==>
        r == if old(docs)[FirstMatch(old(docs), user.Nickname).value] == user
             then NotModified(1) else Modified
    {
      if backendFails {
        return UpdateError;
      }
      match FirstMatch(docs, user.Nickname)
      case None =>
        return NotModified(0);
      case Some(i) =>
        var before := docs[i];
        docs := docs[i := user];
        if before == user {
          return NotModified(1);
        }
        return Modified;
    }
  }
}
