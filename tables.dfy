/**
 * The two MySQL tables the backend reads and writes, and the SELECT queries
 * it runs against them, as functions over their rows.
 *
 * `users` is a sequence: ids come from AUTO_INCREMENT starting at 1 and users
 * are never deleted, so the user with id `k` is `users[k - 1]`.
 * `encrypted_files` is a map from id to row: rows are deleted, and their ids
 * are never handed out again.
 */
module Tables {
  import opened Wrappers

  /** An opaque password digest, as produced by the password hasher. */
  type Digest = string

  /** A row of `users`. */
  datatype User = User(username: string, email: string, password: Digest)

  /** A row of `encrypted_files`: the stored blob name, the owner's id and the unused key. */
  datatype FileRow = FileRow(fileName: string, owner: nat, key: string)

  /** An element of the `/files` answer, `{id, file_name}`. */
  datatype Listed = Listed(id: nat, fileName: string)

  /** `id` names a row of `users`. */
  predicate UserExists(users: seq<User>, id: nat)
  {
    1 <= id <= |users|
  }

  ghost predicate UniqueUsernames(users: seq<User>)
  {
    forall j, k :: 0 <= j < k < |users| ==> users[j].username != users[k].username
  }

  /**
   * What the routes keep true of the tables and the upload directory: usernames
   * are unique and non-empty, emails are non-empty, and every file row has an id
   * below the counter, belongs to an existing user and names a stored blob no
   * other row names.
   */
  ghost predicate Consistent(users: seq<User>, files: map<nat, FileRow>, nextFileId: nat, blobs: set<string>)
  {
    && UniqueUsernames(users)
    && (forall k :: 0 <= k < |users| ==> users[k].username != "" && users[k].email != "")
    && 1 <= nextFileId
    && (forall id :: id in files ==> 1 <= id < nextFileId)
    && (forall id :: id in files ==> UserExists(users, files[id].owner))
    && (forall id :: id in files ==> files[id].fileName in blobs)
    && (forall i, j :: i in files && j in files && i != j ==> files[i].fileName != files[j].fileName)
  }

  /** Storing a new blob keeps the tables consistent. */
  lemma ConsistentAfterStore(users: seq<User>, files: map<nat, FileRow>, nextFileId: nat, blobs: set<string>, name: string)
    requires Consistent(users, files, nextFileId, blobs)
    ensures Consistent(users, files, nextFileId, blobs + {name})
  {
  }

  /** Inserting a row at the counter, for an existing user and a stored blob no row names, keeps the tables consistent. */
  lemma ConsistentAfterInsert(users: seq<User>, files: map<nat, FileRow>, nextFileId: nat, blobs: set<string>, row: FileRow)
    requires Consistent(users, files, nextFileId, blobs)
    requires UserExists(users, row.owner) && row.fileName in blobs
    requires forall id :: id in files ==> files[id].fileName != row.fileName
    ensures nextFileId !in files
    ensures Consistent(users, files[nextFileId := row], nextFileId + 1, blobs)
  {
  }

  /** Removing a row together with its blob keeps the tables consistent. */
  lemma ConsistentAfterRemove(users: seq<User>, files: map<nat, FileRow>, nextFileId: nat, blobs: set<string>, id: nat)
    requires Consistent(users, files, nextFileId, blobs)
    requires id in files
    ensures Consistent(users, files - {id}, nextFileId, blobs - {files[id].fileName})
  {
  }

  /** `SELECT * FROM users WHERE username = ?`, first row: the id of the first user with that name. */
  function FindUsername(users: seq<User>, name: string): (r: Option<nat>)
    ensures r.Some? ==> UserExists(users, r.value) && users[r.value - 1].username == name
    ensures r.Some? ==> forall k :: 0 <= k < r.value - 1 ==> users[k].username != name
    ensures r.None? <==> forall k :: 0 <= k < |users| ==> users[k].username != name
  {
    if users == [] then None
    else
      match FindUsername(users[..|users| - 1], name)
      case Some(id) => Some(id)
      case None => if users[|users| - 1].username == name then Some(|users|) else None
  }

  /** `SELECT * FROM users WHERE email = ?` returns at least one row. */
  predicate HasEmail(users: seq<User>, email: string)
  {
    exists k :: 0 <= k < |users| && users[k].email == email
  }

  /**
   * `SELECT id, file_name FROM encrypted_files WHERE user_id = ?`, restricted to
   * ids below `hi`, in ascending id order.
   */
  function Owned(files: map<nat, FileRow>, user: nat, hi: nat): (r: seq<Listed>)
    ensures forall e :: e in r ==>
      e.id < hi && e.id in files && files[e.id].owner == user && e.fileName == files[e.id].fileName
    ensures forall id :: id < hi && id in files && files[id].owner == user ==> Listed(id, files[id].fileName) in r
    ensures forall j, k :: 0 <= j < k < |r| ==> r[j].id < r[k].id
  {
    if hi == 0 then []
    else
      var rest := Owned(files, user, hi - 1);
      if hi - 1 in files && files[hi - 1].owner == user then
        var r := rest + [Listed(hi - 1, files[hi - 1].fileName)];
        assert forall k :: 0 <= k < |rest| ==> rest[k] in rest;
        r
      else rest
  }

  /**
   * `SELECT file_name FROM encrypted_files WHERE id = ? AND user_id = ?`: the row,
   * when it exists and belongs to `user`.
   */
  function Lookup(files: map<nat, FileRow>, user: nat, id: nat): (r: Option<FileRow>)
    ensures r.Some? <==> id in files && files[id].owner == user
    ensures r.Some? ==> r.value == files[id]
  {
    if id in files && files[id].owner == user then Some(files[id]) else None
  }

  /** A row at or above `hi` does not change the listing below `hi`. */
  lemma {:induction false} OwnedIgnoresAbove(files: map<nat, FileRow>, user: nat, hi: nat, id: nat, row: FileRow)
    requires hi <= id
    ensures Owned(files[id := row], user, hi) == Owned(files, user, hi)
  {
    if hi > 0 {
      OwnedIgnoresAbove(files, user, hi - 1, id, row);
    }
  }

  /** Inserting row `n` appends it to its owner's listing and leaves every other listing alone. */
  lemma OwnedAfterInsert(files: map<nat, FileRow>, user: nat, n: nat, row: FileRow)
    ensures Owned(files[n := row], user, n + 1)
         == Owned(files, user, n) + (if row.owner == user then [Listed(n, row.fileName)] else [])
  {
    OwnedIgnoresAbove(files, user, n, n, row);
  }

  /** Removing a row that `user` does not own leaves `user`'s listing as it was. */
  lemma {:induction false} OwnedAfterRemoveOther(files: map<nat, FileRow>, user: nat, hi: nat, id: nat)
    requires id in files && files[id].owner != user
    ensures Owned(files - {id}, user, hi) == Owned(files, user, hi)
  {
    if hi > 0 {
      var m := files - {id};
      OwnedAfterRemoveOther(files, user, hi - 1, id);
      if hi - 1 == id {
        assert hi - 1 !in m;
      } else if hi - 1 in files {
        assert hi - 1 in m && m[hi - 1] == files[hi - 1];
      } else {
        assert hi - 1 !in m;
      }
    }
  }

  /** A row that belongs to someone else answers the ownership query exactly as a missing row does. */
  lemma ForeignLooksMissing(files: map<nat, FileRow>, user: nat, id: nat)
    requires id in files && files[id].owner != user
    ensures Lookup(files, user, id) == Lookup(files - {id}, user, id) == None
  {
  }
}
