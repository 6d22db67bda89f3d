/**
 * Request sequences against one server, each proved from the routes'
 * contracts alone: what a client can rely on across several requests.
 */
module Scenarios {
  import opened Wrappers
  import opened Tables
  import opened Http
  import opened Tokens
  import opened Backend

  /**
   * Registering and then logging in with the same password succeeds, and both
   * tokens let their bearer in as the new user for the next hour.
   */
  method RegisterThenLogin(s: Server, username: string, password: string, email: string, salt: Salt, now: nat, later: nat)
    returns (registered: Reply, loggedIn: Reply)
    requires s.Valid()
    requires username != "" && password != "" && email != ""
    requires FindUsername(s.users, username).None?
    modifies s
    ensures s.Valid()
    ensures registered.Issued? && loggedIn.Issued?
    ensures later < now + TokenLifetime ==>
      && Authenticate(s.prims, Some(BearerHeader(registered.token)), later) == Success(|s.users|)
      && Authenticate(s.prims, Some(BearerHeader(loggedIn.token)), later) == Success(|s.users|)
  {
    registered := s.Register(username, password, email, salt, now);
    var k := |s.users| - 1;
    assert s.users[k].username == username && s.prims.matches(password, s.users[k].password);
    loggedIn := s.Login(username, password, now);
    var j :| 0 <= j < |s.users| && s.users[j].username == username
      && loggedIn == Issued(LoggedInMessage, Issue(s.prims, j + 1, now));
    assert j == k;
    IssuedTokenAccepted(s.prims, j + 1, now, later);
  }

  /** A second registration under a taken username is refused and leaves the first account's password as it was. */
  method RegisterTwice(s: Server, username: string, email: string, first: string, second: string, salt1: Salt, salt2: Salt, now: nat)
    returns (again: Reply)
    requires s.Valid()
    requires username != "" && email != "" && first != "" && second != ""
    requires FindUsername(s.users, username).None?
    modifies s
    ensures s.Valid()
    ensures again == UsernameTakenReply
    ensures s.users == old(s.users) + [User(username, email, s.prims.hash(first, salt1))]
  {
    var r := s.Register(username, first, email, salt1, now);
    assert FindUsername(s.users, username).Some?;
    again := s.Register(username, second, email, salt2, now);
  }

  /**
   * One user uploads a file; another user's download and delete of its id get
   * the 403, and the owner's download gets the stored blob.
   */
  method OwnerOnly(s: Server, owner: string, other: string, now: nat, name: string, key: string)
    returns (theirs: Reply, theirDelete: Reply, mine: Reply)
    requires s.Valid()
    requires name !in s.blobs
    requires var a := Authenticate(s.prims, Some(owner), now); a.Success? && UserExists(s.users, a.value)
    requires var b := Authenticate(s.prims, Some(other), now);
      b.Success? && b.value != Authenticate(s.prims, Some(owner), now).value
    modifies s
    ensures s.Valid()
    ensures theirs == ForbiddenReply && theirDelete == ForbiddenReply
    ensures mine == SendFile(UploadDir + name)
  {
    var up := s.Upload(Some(owner), now, Some(name), key);
    var id := up.fileId;
    theirs := s.Download(Some(other), now, id);
    theirDelete := s.Delete(Some(other), now, id);
    mine := s.Download(Some(owner), now, id);
  }

  /** After an upload, the owner's listing is the old listing with the new file appended. */
  method UploadThenList(s: Server, header: string, now: nat, name: string, key: string)
    returns (before: Reply, up: Reply, after: Reply)
    requires s.Valid()
    requires name !in s.blobs
    requires var a := Authenticate(s.prims, Some(header), now); a.Success? && UserExists(s.users, a.value)
    modifies s
    ensures s.Valid()
    ensures up.Uploaded? && before.Listing? && after.Listing?
    ensures after.rows == before.rows + [Listed(up.fileId, name)]
  {
    var user := Authenticate(s.prims, Some(header), now).value;
    before := s.ListFiles(Some(header), now);
    ghost var files0, next0 := s.files, s.nextFileId;
    up := s.Upload(Some(header), now, Some(name), key);
    OwnedAfterInsert(files0, user, next0, FileRow(name, user, key));
    after := s.ListFiles(Some(header), now);
  }

  /** Deleting one's own file succeeds once; the same request again gets the 403. */
  method DeleteTwice(s: Server, header: string, now: nat, fileId: nat) returns (first: Reply, second: Reply)
    requires s.Valid()
    requires var a := Authenticate(s.prims, Some(header), now);
      a.Success? && fileId in s.files && s.files[fileId].owner == a.value
    modifies s
    ensures s.Valid()
    ensures first == Done(DeletedMessage) && second == ForbiddenReply
    ensures fileId !in s.files
  {
    first := s.Delete(Some(header), now, fileId);
    second := s.Delete(Some(header), now, fileId);
  }
}
