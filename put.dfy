/**
 * servePut: an upload bracketed by a lock on the path. The lock is taken
 * before the file is opened, and released on every path out once it was
 * taken.
 */
module Put {
  import opened Wrappers
  import opened Utf8
  import opened Files

  const StatusCreated := 201
  const StatusNotFound := 404
  const StatusMethodNotAllowed := 405
  const StatusPreconditionFailed := 412

  /**
   * The handler's lock system (webdav.NewMemLS), as far as servePut uses
   * it: the held locks by token, each with the path it covers, and the
   * counter tokens are drawn from.
   */
  class LockSystem {
    var held: map<nat, string>
    var gen: nat

    /** Every held token was drawn before the counter's current value. */
    predicate Valid()
      reads this
    {
      forall t :: t in held ==> t < gen
    }

    constructor ()
      ensures Valid() && held == map[] && gen == 0
    {
      held := map[];
      gen := 0;
    }

    /**
     * Create: a zero-depth lock on `root`, refused (ErrLocked) while another
     * lock covers the same path; otherwise a fresh token.
     */
    method Create(root: string) returns (token: Option<nat>)
      requires Valid()
      modifies this
      ensures Valid()
      ensures Locked(old(held), root) ==> token == None && held == old(held) && gen == old(gen)
      ensures !Locked(old(held), root) ==>
                token.Some? && token.value !in old(held) && held == old(held)[token.value := root]
    {
      if Locked(held, root) {
        return None;
      }
      token := Some(gen);
      held := held[gen := root];
      gen := gen + 1;
    }

    /** Unlock: releases the lock the token names, if it is held. */
    method Unlock(token: nat)
      requires Valid()
      modifies this
      ensures Valid() && gen == old(gen)
      ensures held == old(held) - {token}
    {
      held := held - {token};
    }
  }

  /** Some held lock covers `root`. */
  predicate Locked(held: map<nat, string>, root: string) {
    exists t :: t in held && held[t] == root
  }

  /**
   * The handler's file system as far as a PUT goes: the contents of the
   * files, and the paths at which OpenFile(O_RDWR|O_CREATE|O_TRUNC) succeeds.
   */
  class Disk {
    var files: map<string, seq<byte>>
    var creatable: set<string>

    constructor (files: map<string, seq<byte>>, creatable: set<string>)
      ensures this.files == files && this.creatable == creatable
    {
      this.files := files;
      this.creatable := creatable;
    }

    /** OpenFile for writing: creates or truncates the file. */
    method OpenTruncate(path: string) returns (ok: bool)
      modifies this
      ensures ok == (path in old(creatable)) && creatable == old(creatable)
      ensures files == if ok then old(files)[path := []] else old(files)
    {
      ok := path in creatable;
      if ok {
        files := files[path := []];
      }
    }

    /** io.Copy into the open file: appends what the request body delivered. */
    method Append(path: string, bytes: seq<byte>)
      requires path in files
      modifies this
      ensures files == old(files)[path := old(files)[path] + bytes] && creatable == old(creatable)
    {
      files := files[path := files[path] + bytes];
    }
  }

  /** The status servePut answers with. */
  function PutStatus(held: map<nat, string>, creatable: set<string>, path: string, body: Transfer): (status: int)
    ensures status == StatusPreconditionFailed <==> Locked(held, path)
    ensures status == StatusCreated <==> !Locked(held, path) && path in creatable && body.ok
    ensures !Locked(held, path) && path !in creatable ==> status == StatusNotFound
    ensures !Locked(held, path) && path in creatable && !body.ok ==> status == StatusMethodNotAllowed
  {
    if Locked(held, path) then StatusPreconditionFailed
    else if path !in creatable then StatusNotFound
    else if !body.ok then StatusMethodNotAllowed
    else StatusCreated
  }

  /**
   * servePut for `path`, with the request body delivering `body` (and
   * failing after it unless body.ok): the status, the locks unchanged
   * afterwards, and the file replaced by what was received once it could be
   * opened.
   */
  method ServePut(locks: LockSystem, disk: Disk, path: string, body: Transfer) returns (status: int)
    requires locks.Valid()
    modifies locks, disk
    ensures status == PutStatus(old(locks.held), old(disk.creatable), path, body)
    ensures locks.Valid() && locks.held == old(locks.held)
    ensures disk.creatable == old(disk.creatable)
    ensures disk.files == if status == StatusPreconditionFailed || status == StatusNotFound then old(disk.files)
                          else old(disk.files)[path := body.bytes]
  {
    var token := locks.Create(path);
    if token.None? {
      return StatusPreconditionFailed;
    }
    var created := disk.OpenTruncate(path);
    if !created {
      locks.Unlock(token.value);
      return StatusNotFound;
    }
    assert [] + body.bytes == body.bytes;
    disk.Append(path, body.bytes);
    locks.Unlock(token.value);
    if !body.ok {
      return StatusMethodNotAllowed;
    }
    status := StatusCreated;
  }
}
