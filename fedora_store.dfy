/**
 * An abstract Fedora 6 repository as the DPS engine sees it through the
 * Fedora6 client: containers (archival groups) holding named binaries, one
 * transaction whose writes are staged until the store confirms the commit,
 * and the status codes the store answers to transaction polls.
 */
module Fedora {
  import opened Wrappers

  /** What a stored binary was written from. */
  datatype Payload =
    | ObjectJson(uuid: string)                   // `ora_object.export('json')`
    | DataciteXml(uuid: string)                  // `export_datacite_metadata(...)`
    | Stream(path: string, mimeType: string)     // `save_by_stream(path, mime_type:)`
    | Content(fileId: string)                    // `save(original_file.content, id)`

  /** Container id -> (file name -> payload); a container exists iff its id
      is a key. */
  type Archive = map<string, map<string, Payload>>

  datatype TxState = Open | CommitRequested | Committed | RolledBack

  /** A direct child of a container is one non-empty path segment. */
  predicate SimpleName(n: string) { n != [] && '/' !in n }

  predicate SimpleArchive(a: Archive)
  {
    forall c, n :: c in a && n in a[c] ==> SimpleName(n)
  }

  /** HTTP 410 Gone (section 15.5.11 of RFC 9110): the transaction no longer
      exists because it was committed. */
  const GONE: int := 410
  /** HTTP 204 No Content (section 15.3.5 of RFC 9110): the transaction is
      still open. */
  const NO_CONTENT: int := 204

  class Store {
    /** What readers outside any transaction see. */
    var committed: Archive
    /** What the open transaction sees: `committed` plus its own writes. */
    var staged: Archive
    var tx: TxState
    /** The codes the store answers to the next status polls, in order. */
    var replies: seq<int>
    /** Names (of containers or files) the store refuses to write or delete. */
    var rejected: set<string>
    /** Whether a commit request fails. */
    var commitRaises: bool

    ghost predicate Valid()
      reads this
    {
      SimpleArchive(committed) && SimpleArchive(staged)
    }

    constructor (archive: Archive, replies: seq<int>, rejected: set<string>, commitRaises: bool)
      requires SimpleArchive(archive)
      ensures Valid()
      ensures committed == archive && staged == archive && tx == RolledBack
      ensures this.replies == replies && this.rejected == rejected && this.commitRaises == commitRaises
    {
      committed, staged, tx := archive, archive, RolledBack;
      this.replies, this.rejected, this.commitRaises := replies, rejected, commitRaises;
    }

    /** `Fedora6::Client::Transaction.new`: a fresh transaction. */
    method Begin()
      requires Valid()
      modifies this`staged, this`tx
      ensures Valid()
      ensures staged == committed && tx == Open
    {
      staged, tx := committed, Open;
    }

    /** `Container#exists?`, asked outside the transaction. */
    function Exists(id: string): bool
      reads this
    {
      id in committed
    }

    /** The names of the children of a committed container, each once. */
    method Children(id: string) returns (names: seq<string>)
      requires id in committed
      ensures forall n :: n in names <==> n in committed[id]
      ensures forall i, j :: 0 <= i < j < |names| ==> names[i] != names[j]
    {
      names := [];
      var left := committed[id].Keys;
      while left != {}
        invariant left <= committed[id].Keys
        invariant forall n :: n in names <==> n in committed[id] && n !in left
        invariant forall i, j :: 0 <= i < j < |names| ==> names[i] != names[j]
        decreases left
      {
        var n :| n in left;
        names := names + [n];
        left := left - {n};
      }
    }

    /** `Container#save(archival_group: true, transaction_uri:)`. */
    method CreateContainer(id: string) returns (ok: bool)
      requires Valid()
      modifies this`staged
      ensures Valid()
      ensures ok == (tx == Open && id !in old(staged) && id !in rejected)
      ensures staged == if ok then old(staged)[id := map[]] else old(staged)
    {
      ok := tx == Open && id !in staged && id !in rejected;
      if ok {
        staged := staged[id := map[]];
      }
    }

    /** `Binary#save` / `Binary#save_by_stream` inside the transaction. */
    method Write(id: string, name: string, p: Payload) returns (ok: bool)
      requires Valid()
      modifies this`staged
      ensures Valid()
      ensures ok == (tx == Open && id in old(staged) && SimpleName(name) && name !in rejected)
      ensures staged == if ok then old(staged)[id := old(staged)[id][name := p]] else old(staged)
    {
      ok := tx == Open && id in staged && SimpleName(name) && name !in rejected;
      if ok {
        staged := staged[id := staged[id][name := p]];
      }
    }

    /** `Binary#delete(transaction_uri)`. */
    method Delete(id: string, name: string) returns (ok: bool)
      requires Valid()
      modifies this`staged
      ensures Valid()
      ensures ok == (tx == Open && id in old(staged) && name in old(staged)[id] && name !in rejected)
      ensures staged == if ok then old(staged)[id := old(staged)[id] - {name}] else old(staged)
    {
      ok := tx == Open && id in staged && name in staged[id] && name !in rejected;
      if ok {
        staged := staged[id := staged[id] - {name}];
      }
    }

    /** `tx.commit`: asks the store to commit; it may refuse. */
    method Commit() returns (ok: bool)
      modifies this`tx
      ensures ok == !commitRaises
      ensures tx == if ok && old(tx) == Open then CommitRequested else old(tx)
    {
      ok := !commitRaises;
      if ok && tx == Open {
        tx := CommitRequested;
      }
    }

    /** `Transaction.get_transaction(...).code`: the next reply, or None
        when the request itself fails. A 410 for a requested commit is the
        store having applied the transaction. */
    method Status() returns (code: Option<int>)
      requires Valid()
      modifies this`replies, this`committed, this`tx
      ensures Valid()
      ensures code == if old(replies) == [] then None else Some(old(replies)[0])
      ensures replies == if old(replies) == [] then [] else old(replies)[1..]
      ensures if code == Some(GONE) && old(tx) == CommitRequested
              then committed == staged && tx == Committed
              else committed == old(committed) && tx == old(tx)
    {
      if replies == [] {
        code := None;
      } else {
        code := Some(replies[0]);
        replies := replies[1..];
        if code == Some(GONE) && tx == CommitRequested {
          committed, tx := staged, Committed;
        }
      }
    }

    /** `tx.rollback`: discards the staged writes; a committed transaction
        is gone and stays committed. Safe to call more than once. */
    method Rollback()
      requires Valid()
      modifies this`staged, this`tx
      ensures Valid()
      ensures if old(tx) == Committed then staged == old(staged) && tx == Committed
              else staged == committed && tx == RolledBack
    {
      if tx != Committed {
        staged, tx := committed, RolledBack;
      }
    }
  }
}
