/**
 * The Express backend as one object: the `users` and `encrypted_files` tables,
 * the `uploads/` directory as a set of stored names, and one member per route.
 * Routes that write become methods; routes that only read become functions.
 * Requests are handled one after another.
 */
module Backend {
  import opened Wrappers
  import opened Tables
  import opened Http
  import opened Tokens

  class Server {
    /** The password hasher and token service the routes call. */
    const prims: Primitives
    /** `users`; the row with id `k` is `users[k - 1]`. */
    var users: seq<User>
    /** `encrypted_files`, by id. */
    var files: map<nat, FileRow>
    /** The AUTO_INCREMENT counter of `encrypted_files`. */
    var nextFileId: nat
    /** The names stored in `uploads/`. */
    var blobs: set<string>

    /**
     * The state the routes keep: usernames are unique and non-empty, every
     * file row has an id below the counter, belongs to an existing user and
     * names a stored blob of its own.
     */
    ghost predicate Valid()
      reads this
    {
      Sound(prims) && Consistent(users, files, nextFileId, blobs)
    }

    /** A fresh server: empty tables, an empty upload directory, ids starting at 1. */
    constructor (p: Primitives)
      requires Sound(p)
      ensures Valid()
      ensures prims == p && users == [] && files == map[] && nextFileId == 1 && blobs == {}
    {
      prims := p;
      users := [];
      files := map[];
      nextFileId := 1;
      blobs := {};
    }

    /**
     * `POST /register`: with every field present and the username free, adds
     * exactly one user holding the hashed password and logs them in; otherwise
     * answers 400 and changes nothing.
     */
    method Register(username: string, password: string, email: string, salt: Salt, now: nat) returns (r: Reply)
      requires Valid()
      modifies this
      ensures Valid()
      ensures files == old(files) && blobs == old(blobs) && nextFileId == old(nextFileId)
      ensures username == "" || password == "" || email == "" ==>
        r == FieldsRequiredReply && users == old(users)
      ensures username != "" && password != "" && email != "" && FindUsername(old(users), username).Some? ==>
        r == UsernameTakenReply && users == old(users)
      ensures username != "" && password != "" && email != "" && FindUsername(old(users), username).None? ==>
        && users == old(users) + [User(username, email, prims.hash(password, salt))]
        && r == Issued(RegisteredMessage, Issue(prims, |users|, now))
      ensures r.Issued? ==> forall t: nat ::
        Authenticate(prims, Some(BearerHeader(r.token)), t)
          == (if t < now + TokenLifetime then Success(|users|) else Failure(UnauthorizedReply))
    {
      if username == "" || password == "" || email == "" {
        return FieldsRequiredReply;
      }
      if FindUsername(users, username).Some? {
        return UsernameTakenReply;
      }
      users := users + [User(username, email, prims.hash(password, salt))];
      r := Issued(RegisteredMessage, Issue(prims, |users|, now));
      forall t: nat
        ensures Authenticate(prims, Some(BearerHeader(r.token)), t)
             == (if t < now + TokenLifetime then Success(|users|) else Failure(UnauthorizedReply))
      {
        SignedTokenVerdict(prims, |users|, now + TokenLifetime, t);
      }
    }

    /**
     * `POST /login`: 400 for an unknown username or a wrong password;
     * otherwise a token for that user. Changes nothing.
     */
    function Login(username: string, password: string, now: nat): (r: Reply)
      reads this
      requires Valid()
      ensures r == AccountNotFoundReply <==> forall k :: 0 <= k < |users| ==> users[k].username != username
      ensures r.Issued? <==>
        exists k :: 0 <= k < |users| && users[k].username == username && prims.matches(password, users[k].password)
      ensures r.Issued? ==>
        exists k :: 0 <= k < |users| && users[k].username == username && r == Issued(LoggedInMessage, Issue(prims, k + 1, now))
      ensures r.Issued? || r == AccountNotFoundReply || r == IncorrectPasswordReply
    {
      match FindUsername(users, username)
      case None => AccountNotFoundReply
      case Some(id) =>
        if prims.matches(password, users[id - 1].password) then Issued(LoggedInMessage, Issue(prims, id, now))
        else IncorrectPasswordReply
    }

    /**
     * `POST /upload`: behind `verifyToken`. The upload middleware stores the blob
     * first; with no file the answer is 400. Otherwise exactly one row is added,
     * owned by the requester, and its fresh id is returned; if the requester's
     * id names no user the insert fails with 500 and the stored blob stays.
     */
    method Upload(header: Option<string>, now: nat, file: Option<string>, key: string) returns (r: Reply)
      requires Valid()
      requires file.Some? ==> file.value !in blobs
      modifies this
      ensures Valid()
      ensures users == old(users)
      ensures var a := Authenticate(prims, header, now);
        if a.Failure? then
          r == a.error && files == old(files) && blobs == old(blobs) && nextFileId == old(nextFileId)
        else if file.None? then
          r == NoFileReply && files == old(files) && blobs == old(blobs) && nextFileId == old(nextFileId)
        else if !UserExists(users, a.value) then
          r == UploadFailedReply && blobs == old(blobs) + {file.value}
          && files == old(files) && nextFileId == old(nextFileId)
        else
          && r == Uploaded(UploadedMessage, old(nextFileId))
          && blobs == old(blobs) + {file.value}
          && old(nextFileId) !in old(files)
          && files == old(files)[old(nextFileId) := FileRow(file.value, a.value, key)]
          && nextFileId == old(nextFileId) + 1
    {
      var a := Authenticate(prims, header, now);
      if a.Failure? {
        return a.error;
      }
      if file.None? {
        return NoFileReply;
      }
      ConsistentAfterStore(users, files, nextFileId, blobs, file.value);
      blobs := blobs + {file.value};
      if !UserExists(users, a.value) {
        return UploadFailedReply;
      }
      var id := nextFileId;
      var row := FileRow(file.value, a.value, key);
      ConsistentAfterInsert(users, files, nextFileId, blobs, row);
      files := files[id := row];
      nextFileId := nextFileId + 1;
      r := Uploaded(UploadedMessage, id);
    }

    /**
     * `GET /files`: behind `verifyToken`; exactly the requester's rows, in id order:
     * none of another user's, and none of the requester's left out.
     */
    function ListFiles(header: Option<string>, now: nat): (r: Reply)
      reads this
      requires Valid()
      ensures var a := Authenticate(prims, header, now); a.Failure? ==> r == a.error
      ensures var a := Authenticate(prims, header, now); a.Success? ==>
        && r.Listing?
        && (forall e :: e in r.rows ==>
              e.id in files && files[e.id].owner == a.value && e.fileName == files[e.id].fileName)
        && (forall id :: id in files && files[id].owner == a.value ==> Listed(id, files[id].fileName) in r.rows)
        && (forall j, k :: 0 <= j < k < |r.rows| ==> r.rows[j].id < r.rows[k].id)
    {
      match Authenticate(prims, header, now)
      case Failure(e) => e
      case Success(user) => Listing(Owned(files, user, nextFileId))
    }

    /**
     * `GET /download/:fileId`: behind `verifyToken`; sends the stored blob when the
     * row exists and belongs to the requester, and otherwise one and the same 403,
     * so a missing row and another user's row cannot be told apart.
     */
    function Download(header: Option<string>, now: nat, fileId: nat): (r: Reply)
      reads this
      requires Valid()
      ensures var a := Authenticate(prims, header, now); a.Failure? ==> r == a.error
      ensures var a := Authenticate(prims, header, now); a.Success? ==>
        (r.SendFile? <==> fileId in files && files[fileId].owner == a.value)
      ensures var a := Authenticate(prims, header, now); a.Success? && !r.SendFile? ==> r == ForbiddenReply
      ensures r.SendFile? ==>
        fileId in files && r.path == UploadDir + files[fileId].fileName && files[fileId].fileName in blobs
    {
      match Authenticate(prims, header, now)
      case Failure(e) => e
      case Success(user) =>
        match Lookup(files, user, fileId)
        case None => ForbiddenReply
        case Some(row) => SendFile(UploadDir + row.fileName)
    }

    /**
     * `DELETE /delete/:fileId`: behind `verifyToken`; for the owner, removes the
     * stored blob and then the row, and nothing else; for anyone else, and for a
     * missing row, the same 403 with nothing changed.
     */
    method Delete(header: Option<string>, now: nat, fileId: nat) returns (r: Reply)
      requires Valid()
      modifies this
      ensures Valid()
      ensures users == old(users) && nextFileId == old(nextFileId)
      ensures var a := Authenticate(prims, header, now);
        a.Failure? ==> r == a.error && files == old(files) && blobs == old(blobs)
      ensures var a := Authenticate(prims, header, now);
        a.Success? && !(fileId in old(files) && old(files)[fileId].owner == a.value) ==>
          r == ForbiddenReply && files == old(files) && blobs == old(blobs)
      ensures var a := Authenticate(prims, header, now);
        a.Success? && fileId in old(files) && old(files)[fileId].owner == a.value ==>
          && r == Done(DeletedMessage)
          && files == old(files) - {fileId}
          && blobs == old(blobs) - {old(files)[fileId].fileName}
      ensures r == Done(DeletedMessage) ==> fileId !in files
    {
      var a := Authenticate(prims, header, now);
      if a.Failure? {
        return a.error;
      }
      match Lookup(files, a.value, fileId)
      case None =>
        r := ForbiddenReply;
      case Some(row) =>
        ConsistentAfterRemove(users, files, nextFileId, blobs, fileId);
        blobs := blobs - {row.fileName};
        files := files - {fileId};
        r := Done(DeletedMessage);
    }

    /**
     * `POST /reset-password`: 400 for an email no user has; otherwise every user
     * with that email gets the new password's hash, and no id, username, email
     * or file changes.
     */
    method ResetPassword(email: string, newPassword: string, salt: Salt) returns (r: Reply)
      requires Valid()
      modifies this
      ensures Valid()
      ensures files == old(files) && blobs == old(blobs) && nextFileId == old(nextFileId)
      ensures |users| == |old(users)|
      ensures !HasEmail(old(users), email) ==> r == EmailNotFoundReply && users == old(users)
      ensures HasEmail(old(users), email) ==> r == Done(ResetMessage)
      ensures HasEmail(old(users), email) ==> forall k :: 0 <= k < |users| ==>
        && users[k].username == old(users)[k].username
        && users[k].email == old(users)[k].email
        && users[k].password == if old(users)[k].email == email then prims.hash(newPassword, salt) else old(users)[k].password
    {
      if !HasEmail(users, email) {
        return EmailNotFoundReply;
      }
      var digest := prims.hash(newPassword, salt);
      var before := users;
      users := seq(|before|, k requires 0 <= k < |before| =>
        if before[k].email == email then before[k].(password := digest) else before[k]);
      assert forall k :: 0 <= k < |users| ==> users[k].username == before[k].username;
      r := Done(ResetMessage);
    }

    /**
     * `express.static("uploads")` at `/uploads`: any stored blob is served to
     * anyone who names it, with no token and no ownership check.
     */
    function ServeStatic(name: string): (r: Reply)
      reads this
      ensures r.SendFile? <==> name in blobs
      ensures r.SendFile? ==> r.path == UploadDir + name
      ensures !r.SendFile? ==> r == NotFound
    {
      if name in blobs then SendFile(UploadDir + name) else NotFound
    }

    /**
     * The static route needs neither a token nor ownership: the blob behind any
     * file row is served to whoever asks for its stored name.
     */
    lemma StaticBypassesOwnership(fileId: nat)
      requires Valid()
      requires fileId in files
      ensures ServeStatic(files[fileId].fileName) == SendFile(UploadDir + files[fileId].fileName)
    {
    }
  }
}
