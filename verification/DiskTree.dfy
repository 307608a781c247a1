/** The directory tree on disk, under its coded names, and the one call that changes it here:
    compatwin.cpp's `rename`, which never replaces an existing target. */
module DiskTree {
  import opened Options

  type Name = seq<bv8>

  type Path = seq<Name>

  /** A file is what its raw file holds. */
  datatype Tree = File(raw: seq<bv8>) | Dir(kids: map<Name, Tree>)

  function Get(t: Tree, p: Path): Option<Tree>
    decreases |p|
  {
    if p == [] then Some(t)
    else if t.Dir? && p[0] in t.kids then Get(t.kids[p[0]], p[1..])
    else None
  }

  function WithEntry(kids: map<Name, Tree>, name: Name, sub: Option<Tree>): map<Name, Tree> {
    match sub
    case None => kids - {name}
    case Some(s) => kids[name := s]
  }

  /** The tree with `sub`, or nothing, at `p`; none if there is no directory for it. */
  function Put(t: Tree, p: Path, sub: Option<Tree>): Option<Tree>
    requires p != []
    decreases |p|
  {
    if !t.Dir? then None
    else if |p| == 1 then Some(Dir(WithEntry(t.kids, p[0], sub)))
    else if p[0] !in t.kids then None
    else
      match Put(t.kids[p[0]], p[1..], sub)
      case None => None
      case Some(k) => Some(Dir(t.kids[p[0] := k]))
  }

  function Set(t: Tree, p: Path, sub: Tree): Option<Tree> {
    if p == [] then Some(sub) else Put(t, p, Some(sub))
  }

  /** The tree after a rename, or none if it fails. */
  function Renamed(t: Tree, from: Path, to: Path): Option<Tree> {
    if from == [] || to == [] || Get(t, from).None? || Get(t, to).Some? then None
    else
      match Put(t, from, None)
      case None => None
      case Some(r) => Put(r, to, Get(t, from))
  }

  // ----- Facts about the tree -------------------------------------------------------------------

  /** A path below a path. */
  lemma {:induction false} GetAppend(t: Tree, p: Path, q: Path)
    ensures Get(t, p + q) == match Get(t, p) { case None => None case Some(s) => Get(s, q) }
    decreases |p|
  {
    if p == [] {
      assert p + q == q;
    } else {
      assert (p + q)[1..] == p[1..] + q;
      if t.Dir? && p[0] in t.kids { GetAppend(t.kids[p[0]], p[1..], q); }
    }
  }

  lemma {:induction false} PutWhereFound(t: Tree, p: Path, sub: Option<Tree>)
    requires p != [] && Get(t, p).Some?
    ensures Put(t, p, sub).Some? && Put(t, p, Get(t, p)) == Some(t)
    decreases |p|
  {
    if |p| > 1 {
      PutWhereFound(t.kids[p[0]], p[1..], sub);
      assert t.kids[p[0] := t.kids[p[0]]] == t.kids;
    } else {
      assert Get(t.kids[p[0]], p[1..]) == Some(t.kids[p[0]]);
      assert WithEntry(t.kids, p[0], Some(t.kids[p[0]])) == t.kids;
    }
  }

  lemma {:induction false} GetPut(t: Tree, p: Path, sub: Option<Tree>)
    requires p != [] && Put(t, p, sub).Some?
    ensures Get(Put(t, p, sub).value, p) == sub
    decreases |p|
  {
    if |p| > 1 {
      GetPut(t.kids[p[0]], p[1..], sub);
    } else if sub.Some? {
      assert Get(sub.value, p[1..]) == sub;
    }
  }

  /** The last put counts. */
  lemma {:induction false} PutTwice(t: Tree, p: Path, a: Option<Tree>, b: Option<Tree>)
    requires p != [] && Put(t, p, a).Some?
    ensures Put(Put(t, p, a).value, p, b) == Put(t, p, b)
    decreases |p|
  {
    if |p| > 1 {
      PutTwice(t.kids[p[0]], p[1..], a, b);
      var k := Put(t.kids[p[0]], p[1..], a).value;
      match Put(k, p[1..], b)
      case None =>
      case Some(k2) => assert t.kids[p[0] := k][p[0] := k2] == t.kids[p[0] := k2];
    } else {
      assert WithEntry(WithEntry(t.kids, p[0], a), p[0], b) == WithEntry(t.kids, p[0], b);
    }
  }

  /** Taking away what is not there changes nothing. */
  lemma {:induction false} PutNothing(t: Tree, p: Path)
    requires p != [] && Get(t, p).None? && Put(t, p, None).Some?
    ensures Put(t, p, None) == Some(t)
    decreases |p|
  {
    if |p| > 1 {
      PutNothing(t.kids[p[0]], p[1..]);
      assert t.kids[p[0] := t.kids[p[0]]] == t.kids;
    } else {
      assert p[1..] == [] && p[0] !in t.kids;
      assert t.kids - {p[0]} == t.kids;
    }
  }

  /** Whether anything can be put somewhere does not depend on what it is. */
  lemma {:induction false} PutSame(t: Tree, p: Path, a: Option<Tree>, b: Option<Tree>)
    requires p != []
    ensures Put(t, p, a).Some? == Put(t, p, b).Some?
    decreases |p|
  {
    if t.Dir? && |p| > 1 && p[0] in t.kids { PutSame(t.kids[p[0]], p[1..], a, b); }
  }

  /** A put is seen only below the path, and along it. */
  lemma {:induction false} GetElsewhere(t: Tree, p: Path, sub: Option<Tree>, q: Path)
    requires p != [] && Put(t, p, sub).Some? && !(p <= q) && !(q <= p)
    ensures Get(Put(t, p, sub).value, q) == Get(t, q)
    decreases |p|
  {
    OneName(p, q);
    if q[0] == p[0] && |p| > 1 {
      assert p == [p[0]] + p[1..] && q == [q[0]] + q[1..];
      GetElsewhere(t.kids[p[0]], p[1..], sub, q[1..]);
    }
  }

  lemma OneName(p: Path, q: Path)
    requires p != [] && q != []
    ensures |p| == 1 && p[0] == q[0] ==> p <= q
  {
    assert p == [p[0]] + p[1..] && q == [q[0]] + q[1..];
  }

  /** A put adds nothing outside its path. */
  lemma {:induction false} GetStaysNone(t: Tree, p: Path, sub: Option<Tree>, q: Path)
    requires p != [] && Put(t, p, sub).Some? && Get(t, q).None? && !(p <= q)
    ensures Get(Put(t, p, sub).value, q).None?
    decreases |p|
  {
    if q != [] {
      OneName(p, q);
      if q[0] == p[0] && |p| > 1 {
        assert p == [p[0]] + p[1..] && q == [q[0]] + q[1..];
        GetStaysNone(t.kids[p[0]], p[1..], sub, q[1..]);
      }
    }
  }

  /** Taking something away adds nothing. */
  lemma {:induction false} GetLess(t: Tree, p: Path, q: Path)
    requires p != [] && Put(t, p, None).Some? && Get(t, q).None?
    ensures Get(Put(t, p, None).value, q).None?
    decreases |p|
  {
    if t.Dir? && q[0] in t.kids && q[0] == p[0] && |p| > 1 {
      GetLess(t.kids[p[0]], p[1..], q[1..]);
    }
  }

  lemma {:induction false} GetPrefix(t: Tree, p: Path, q: Path)
    requires p <= q && Get(t, q).Some?
    ensures Get(t, p).Some?
    decreases |p|
  {
    if p != [] {
      assert p[1..] <= q[1..];
      GetPrefix(t.kids[p[0]], p[1..], q[1..]);
    }
  }

  /** A rename that succeeded can be taken back. */
  lemma RenameBack(t: Tree, from: Path, to: Path)
    requires Renamed(t, from, to).Some?
    ensures Renamed(Renamed(t, from, to).value, to, from) == Some(t)
  {
    hide Get, Put;
    var sub, r := Get(t, from), Put(t, from, None).value;
    var t2 := Put(r, to, sub).value;
    PutWhereFound(t, from, None);
    GetPut(t, from, None);
    GetPut(r, to, sub);
    if to <= from { GetPrefix(t, to, from); }
    GetStaysNone(r, to, sub, from);
    GetLess(t, from, to);
    PutTwice(r, to, sub, None);
    PutSame(r, to, sub, None);
    PutNothing(r, to);
    PutTwice(t, from, None, sub);
    PutWhereFound(t2, to, None);
  }

  /** There is something to move, nothing in the way, and a directory to move it to, which is not
      inside what is moved. */
  predicate CanMove(t: Tree, from: Path, to: Path) {
    && from != [] && to != []
    && Get(t, from).Some? && Get(t, to).None? && !(from <= to)
    && IsDir(Get(t, to[..|to| - 1]))
  }

  predicate IsDir(t: Option<Tree>) {
    t.Some? && t.value.Dir?
  }

  /** That is exactly when a rename succeeds. */
  lemma RenamedExactly(t: Tree, from: Path, to: Path)
    ensures Renamed(t, from, to).Some? <==> CanMove(t, from, to)
  {
    if from != [] && to != [] && Get(t, from).Some? && Get(t, to).None? {
      PutWhereFound(t, from, None);
      var r, parent := Put(t, from, None).value, to[..|to| - 1];
      PutExactly(r, to, Get(t, from));
      hide Put;
      GetPut(t, from, None);
      if from <= parent {
        if Get(r, parent).Some? { GetPrefix(r, from, parent); }
      } else if parent <= from {
        GetAlong(t, from, None, parent);
        assert from <= to ==> from == to;
      } else {
        GetElsewhere(t, from, None, parent);
        assert from <= to ==> from == to;
      }
    }
  }

  /** Things can be put into directories only. */
  lemma {:induction false} PutExactly(t: Tree, p: Path, sub: Option<Tree>)
    requires p != []
    ensures Put(t, p, sub).Some? <==> IsDir(Get(t, p[..|p| - 1]))
    decreases |p|
  {
    if |p| > 1 && t.Dir? && p[0] in t.kids {
      PutExactly(t.kids[p[0]], p[1..], sub);
      assert p[1..][..|p| - 2] == p[..|p| - 1][1..];
    }
  }

  /** What is on the way to a put is a directory before and after it. */
  lemma {:induction false} GetAlong(t: Tree, p: Path, sub: Option<Tree>, q: Path)
    requires p != [] && q <= p && q != p && Put(t, p, sub).Some?
    ensures IsDir(Get(t, q)) && IsDir(Get(Put(t, p, sub).value, q))
    decreases |p|
  {
    if q != [] {
      assert q[1..] <= p[1..] && q[1..] != p[1..] by {
        assert p == [p[0]] + p[1..] && q == [q[0]] + q[1..];
      }
      GetAlong(t.kids[p[0]], p[1..], sub, q[1..]);
    }
  }

  /** What a rename leaves at any path: below the new name what was below the old one, nothing
      below the old one, and the same as before anywhere else, but for the directories on the way
      to the two names. */
  lemma RenamedSees(t: Tree, from: Path, to: Path, q: Path)
    requires Renamed(t, from, to).Some?
    ensures var r := Renamed(t, from, to).value;
      && Get(r, to + q) == Get(t, from + q)
      && Get(r, from + q).None?
      && (!(from <= q) && !(to <= q) ==>
            if q <= from || q <= to then IsDir(Get(t, q)) && IsDir(Get(r, q)) else Get(r, q) == Get(t, q))
  {
    RenamedExactly(t, from, to);
    PutWhereFound(t, from, None);
    var sub, r := Get(t, from), Put(t, from, None).value;
    var t2 := Renamed(t, from, to).value;
    hide Get, Put;
    GetPut(t, from, None);
    GetPut(r, to, sub);
    GetAppend(t2, to, q);
    GetAppend(t, from, q);
    if to <= from { GetPrefix(t, to, from); }
    GetStaysNone(r, to, sub, from);
    GetAppend(t2, from, q);
    if !(from <= q) && !(to <= q) {
      if q <= from {
        GetAlong(t, from, None, q);
      } else {
        GetElsewhere(t, from, None, q);
      }
      if q <= to {
        GetAlong(r, to, sub, q);
      } else {
        GetElsewhere(r, to, sub, q);
      }
    }
  }

  /** There is nothing to put anything in below what is not there. */
  lemma {:induction false} PutUnder(t: Tree, p: Path, q: Path, sub: Option<Tree>)
    requires p <= q && p != q && Get(t, p).None?
    ensures Put(t, q, sub).None?
    decreases |p|
  {
    assert p != [];
    assert p[1..] <= q[1..] && p[1..] != q[1..] by {
      assert p == [p[0]] + p[1..] && q == [q[0]] + q[1..];
    }
    if t.Dir? && p[0] in t.kids {
      PutUnder(t.kids[p[0]], p[1..], q[1..], sub);
    }
  }

  /** Whether something can be renamed does not depend on what it is. */
  lemma SameRename(t: Tree, from: Path, to: Path, sub: Tree)
    requires from != [] && Get(t, from).Some? && Put(t, from, Some(sub)).Some?
    ensures Renamed(t, from, to).Some? == Renamed(Put(t, from, Some(sub)).value, from, to).Some?
  {
    var t2 := Put(t, from, Some(sub)).value;
    GetPut(t, from, Some(sub));
    PutTwice(t, from, Some(sub), None);
    PutWhereFound(t, from, None);
    GetPut(t, from, None);
    var r := Put(t, from, None).value;
    hide Get, Put;
    if to == [] {
    } else if to <= from {
      GetPrefix(t, to, from);
      GetPrefix(t2, to, from);
    } else {
      PutSame(r, to, Get(t, from), Get(t2, from));
      if from <= to {
        PutUnder(r, from, to, Get(t, from));
      } else {
        GetElsewhere(t, from, Some(sub), to);
      }
    }
  }

  /** Changing a file changes nothing of what there is. */
  lemma {:induction false} FileForFile(t: Tree, p: Path, a: seq<bv8>, b: seq<bv8>, q: Path)
    requires Get(t, p) == Some(File(a)) && Set(t, p, File(b)).Some?
    ensures Get(Set(t, p, File(b)).value, q).Some? == Get(t, q).Some?
    decreases |p|
  {
    if p != [] && q != [] && q[0] == p[0] {
      if |p| == 1 {
        assert p[1..] == [];
        assert Get(File(a), q[1..]).Some? == Get(File(b), q[1..]).Some?;
      } else {
        FileForFile(t.kids[p[0]], p[1..], a, b, q[1..]);
      }
    }
  }

  // ----- The disk -------------------------------------------------------------------------------

  class Disk {
    var root: Tree

    constructor (root: Tree)
      ensures this.root == root
    {
      this.root := root;
    }

    /** `blocked` stands for the failures that the tree does not explain. */
    method Rename(from: Path, to: Path, blocked: bool) returns (ok: bool)
      modifies this
      ensures ok <==> !blocked && CanMove(old(root), from, to)
      ensures ok ==> Some(root) == Renamed(old(root), from, to)
      ensures !ok ==> root == old(root)
    {
      RenamedExactly(root, from, to);
      var r := Renamed(root, from, to);
      ok := !blocked && r.Some?;
      if ok { root := r.value; }
    }

    method ReadFile(p: Path) returns (raw: Option<seq<bv8>>)
      ensures raw == match Get(root, p) { case Some(File(data)) => Some(data) case _ => None }
    {
      match Get(root, p) {
        case Some(File(data)) => raw := Some(data);
        case _ => raw := None;
      }
    }

    method WriteFile(p: Path, raw: seq<bv8>)
      requires Get(root, p).Some?
      modifies this
      ensures Some(root) == Set(old(root), p, File(raw))
    {
      if p == [] {
        root := File(raw);
      } else {
        PutWhereFound(root, p, Some(File(raw)));
        root := Put(root, p, Some(File(raw))).value;
      }
    }

    method IsDirectory(p: Path) returns (yes: bool)
      ensures yes <==> Get(root, p).Some? && Get(root, p).value.Dir?
    {
      var t := Get(root, p);
      yes := t.Some? && t.value.Dir?;
    }
  }
}
