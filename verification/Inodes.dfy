/** The inode table of the FUSE mount in apps/coh/src/mount.rs: stable numbers for remote paths. */
module Inodes {
  import opened Outcome

  const ROOT_INODE: nat := 1
  const U64_MAX: nat := 0xFFFF_FFFF_FFFF_FFFF

  datatype Entry = Entry(path: string, isDir: bool)
  datatype Table = Table(byInode: map<nat, Entry>, byPath: map<string, nat>, next: nat)

  const EMPTY: Table := Table(map[], map[], ROOT_INODE + 1)

  function SaturatingSucc(n: nat): nat {
    if n < U64_MAX then n + 1 else U64_MAX
  }

  function Insert(t: Table, path: string, isDir: bool): (Table, nat) {
    if path in t.byPath then
      var inode := t.byPath[path];
      if inode in t.byInode then
        (t.(byInode := t.byInode[inode := t.byInode[inode].(isDir := isDir)]), inode)
      else (t, inode)
    else
      var inode := if path == "/" then ROOT_INODE else t.next;
      var next := if inode == t.next then SaturatingSucc(t.next) else t.next;
      (Table(t.byInode[inode := Entry(path, isDir)], t.byPath[path := inode], next), inode)
  }

  class InodeTable {
    var byInode: map<nat, Entry>
    var byPath: map<string, nat>
    var nextInode: nat

    ghost function View(): Table
      reads this
    {
      Table(byInode, byPath, nextInode)
    }

    constructor ()
      ensures View() == EMPTY
    {
      byInode, byPath, nextInode := map[], map[], ROOT_INODE + 1;
    }

    method Add(path: string, isDir: bool) returns (inode: nat)
      modifies this
      ensures (View(), inode) == Insert(old(View()), path, isDir)
    {
      if path in byPath {
        inode := byPath[path];
        if inode in byInode {
          byInode := byInode[inode := byInode[inode].(isDir := isDir)];
        }
        return;
      }
      inode := if path == "/" then ROOT_INODE else nextInode;
      if inode == nextInode {
        nextInode := SaturatingSucc(nextInode);
      }
      byInode := byInode[inode := Entry(path, isDir)];
      byPath := byPath[path := inode];
    }

    /** The entry a number leads to: in a consistent table, that of the one path with the number, if there is one. */
    method PathFor(inode: nat) returns (r: Option<Entry>)
      ensures r.Some? ==> inode in byInode && r.value == byInode[inode]
      ensures Consistent(View()) ==> forall p :: p in byPath ==> (byPath[p] == inode <==> r.Some? && r.value.path == p)
      ensures Consistent(View()) && r.Some? ==> r.value.path in byPath && byPath[r.value.path] == inode
    {
      return if inode in byInode then Some(byInode[inode]) else None;
    }
  }

  /** Numbers handed out are below the next one, except that the largest number is handed out over and over. */
  ghost predicate Bounded(t: Table) {
    && ROOT_INODE < t.next <= U64_MAX
    && (forall i :: i in t.byInode ==> i < t.next || i == t.next == U64_MAX)
    && (forall p :: p in t.byPath ==> t.byPath[p] in t.byInode)
    && (forall p :: p in t.byPath ==> (t.byPath[p] == ROOT_INODE <==> p == "/"))
  }

  /** Every path's number leads back to the path: the two maps are inverse to each other. */
  ghost predicate Consistent(t: Table) {
    && (forall p :: p in t.byPath ==> t.byPath[p] in t.byInode && t.byInode[t.byPath[p]].path == p)
    && (forall i :: i in t.byInode ==> t.byInode[i].path in t.byPath && t.byPath[t.byInode[i].path] == i)
  }

  lemma {:induction false} InsertBounded(t: Table, path: string, isDir: bool)
    requires Bounded(t)
    ensures Bounded(Insert(t, path, isDir).0)
  {}

  /**
   Inserting keeps the maps inverse exactly when it does not ask for a fresh number after the largest one is taken;
   a request at that point takes the number away from the path that had it.
   */
  lemma {:induction false} InsertConsistentIff(t: Table, path: string, isDir: bool)
    requires Bounded(t) && Consistent(t)
    ensures Consistent(Insert(t, path, isDir).0) <==> path in t.byPath || path == "/" || U64_MAX !in t.byInode
  {
    var (t', inode) := Insert(t, path, isDir);
    if path in t.byPath {
      InsertKnown(t, path, isDir);
    } else if path == "/" {
      InsertFresh(t, path, isDir);
    } else if U64_MAX !in t.byInode {
      InsertFresh(t, path, isDir);
    } else {
      var other := t.byInode[U64_MAX].path;
      assert t'.byPath[other] == U64_MAX && t'.byInode[U64_MAX].path == path;
    }
  }

  lemma {:induction false} InsertKnown(t: Table, path: string, isDir: bool)
    requires Bounded(t) && Consistent(t) && path in t.byPath
    ensures Consistent(Insert(t, path, isDir).0)
  {}

  lemma {:induction false} InsertFresh(t: Table, path: string, isDir: bool)
    requires Bounded(t) && Consistent(t) && path !in t.byPath
    requires Insert(t, path, isDir).1 !in t.byInode
    ensures Consistent(Insert(t, path, isDir).0)
  {}

  // ----- whole runs -----

  datatype Request = Request(path: string, isDir: bool)

  function After(requests: seq<Request>): Table
    decreases |requests|
  {
    if requests == [] then EMPTY
    else
      var last := requests[|requests| - 1];
      Insert(After(requests[..|requests| - 1]), last.path, last.isDir).0
  }

  /** Over any run of fewer than 2^64 - 1 requests, paths and numbers stay in one-to-one correspondence. */
  lemma {:induction false} RunConsistent(requests: seq<Request>)
    ensures Bounded(After(requests)) && After(requests).next <= 2 + |requests|
    ensures U64_MAX in After(requests).byInode ==> |requests| >= U64_MAX - 1
    ensures |requests| < U64_MAX ==> Consistent(After(requests))
    decreases |requests|
  {
    if requests != [] {
      var before, last := requests[..|requests| - 1], requests[|requests| - 1];
      RunConsistent(before);
      InsertBounded(After(before), last.path, last.isDir);
      if |requests| < U64_MAX {
        InsertConsistentIff(After(before), last.path, last.isDir);
      }
      hide After, Bounded, Consistent;
    }
  }

  lemma {:induction false} AfterPush(requests: seq<Request>, r: Request)
    ensures After(requests + [r]) == Insert(After(requests), r.path, r.isDir).0
  {
    hide Insert;
    assert (requests + [r])[..|requests|] == requests;
  }

  /** A path keeps its number whatever is requested later. */
  lemma {:induction false} NumbersAreStable(requests: seq<Request>, more: seq<Request>, path: string)
    requires path in After(requests).byPath
    ensures path in After(requests + more).byPath
    ensures After(requests + more).byPath[path] == After(requests).byPath[path]
    decreases |more|
  {
    if more == [] {
      assert requests + more == requests;
    } else {
      var n := |more| - 1;
      NumbersAreStable(requests, more[..n], path);
      assert requests + more == (requests + more[..n]) + [more[n]];
      AfterPush(requests + more[..n], more[n]);
      hide After;
    }
  }

  /** The kind last requested for a path. */
  function LastKind(requests: seq<Request>, path: string): Option<bool>
    decreases |requests|
  {
    if requests == [] then None
    else
      var last := requests[|requests| - 1];
      if last.path == path then Some(last.isDir) else LastKind(requests[..|requests| - 1], path)
  }

  /** Looking up the number of a path gives the path, with the kind last requested for it; only requested paths have one. */
  lemma {:induction false} LookupIsLastRequest(requests: seq<Request>, path: string)
    requires |requests| < U64_MAX
    ensures path in After(requests).byPath <==> LastKind(requests, path).Some?
    ensures path in After(requests).byPath ==>
              var t := After(requests);
              t.byPath[path] in t.byInode && t.byInode[t.byPath[path]] == Entry(path, LastKind(requests, path).value)
    decreases |requests|
  {
    if requests != [] {
      var n := |requests| - 1;
      var before, last := requests[..n], requests[n];
      assert requests == before + [last];
      LookupIsLastRequest(before, path);
      RunConsistent(before);
      RunConsistent(requests);
      AfterPush(before, last);
      hide After, Bounded, Insert;
      InsertEntry(After(before), last.path, last.isDir, path);
      hide Consistent;
    }
  }

  lemma {:induction false} InsertEntry(t: Table, requested: string, isDir: bool, path: string)
    requires Consistent(t) && Consistent(Insert(t, requested, isDir).0)
    ensures var t' := Insert(t, requested, isDir).0;
            && (path in t'.byPath <==> path in t.byPath || path == requested)
            && (path in t'.byPath ==>
                  && t'.byPath[path] in t'.byInode
                  && (path == requested ==> t'.byInode[t'.byPath[path]] == Entry(path, isDir))
                  && (path != requested ==> t.byPath[path] in t.byInode
                                            && t'.byInode[t'.byPath[path]] == t.byInode[t.byPath[path]]))
  {}

  /** The paths requested, but for the root, in the order of their first request. */
  function FirstRequests(requests: seq<Request>): seq<string>
    decreases |requests|
  {
    if requests == [] then []
    else
      var before, path := FirstRequests(requests[..|requests| - 1]), requests[|requests| - 1].path;
      if path == "/" || path in before then before else before + [path]
  }

  /** The root has number 1, and the others, in the order they were first asked for, 2, 3 and so on. */
  lemma {:induction false} NumbersAre(requests: seq<Request>)
    requires |requests| < U64_MAX - 1
    ensures var t, paths := After(requests), FirstRequests(requests);
            && t.next == 2 + |paths| && |paths| <= |requests|
            && ("/" in t.byPath ==> t.byPath["/"] == 1)
            && (forall p :: p in t.byPath && p != "/" ==> p in paths)
            && forall i :: 0 <= i < |paths| ==> paths[i] != "/" && paths[i] in t.byPath && t.byPath[paths[i]] == 2 + i
    decreases |requests|
  {
    if requests != [] {
      var n := |requests| - 1;
      var before, last := requests[..n], requests[n];
      assert requests == before + [last];
      NumbersAre(before);
      AfterPush(before, last);
      hide After;
    }
  }
}
