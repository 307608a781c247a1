/** DirNode.cpp: renaming a directory when the names in it are coded under the IVs of the names
    above them, so that everything in it has to be renamed as well. */
module DirNodeModel {
  import opened Options
  import opened DiskTree

  // ----- Names ----------------------------------------------------------------------------------

  type Rekey = (seq<bv8>, bv64, bv64) -> seq<bv8>

  /** The coding of one name under the IV of its directory, with the IV for the names in it, and
      that of a file's header under the IV that the names of its path leave. */
  datatype Naming = Naming(
    chained: bool,
    encode: (Name, bv64) -> (Name, bv64),
    decode: (Name, bv64) -> Option<(Name, bv64)>,
    rekey: Rekey)
  {
    /** The way back restores the file. */
    ghost predicate Reversible() {
      && (forall raw, a, b :: rekey(rekey(raw, a, b), b, a) == raw)
      && (forall raw, a :: rekey(raw, a, a) == raw)
    }
  }

  /** A file with its header coded for another IV. Directories have no header. */
  function Keyed(naming: Naming, t: Tree, from: bv64, to: bv64): Tree {
    match t
    case File(raw) => File(naming.rekey(raw, from, to))
    case Dir(_) => t
  }

  function KeyedAt(naming: Naming, t: Tree, p: Path, from: bv64, to: bv64): Tree {
    match Get(t, p)
    case None => t
    case Some(sub) =>
      match Set(t, p, Keyed(naming, sub, from, to))
      case None => t
      case Some(t2) => t2
  }

  /** What there is stays, and if it is no file it stays as it is. */
  lemma KeyedIs(naming: Naming, t: Tree, p: Path, from: bv64, to: bv64)
    ensures Get(t, p).Some? ==>
      Set(t, p, Keyed(naming, Get(t, p).value, from, to)) == Some(KeyedAt(naming, t, p, from, to))
    ensures Get(t, p).Some? && Get(t, p).value.Dir? ==> KeyedAt(naming, t, p, from, to) == t
    ensures Get(KeyedAt(naming, t, p, from, to), p) ==
      match Get(t, p) { case None => None case Some(sub) => Some(Keyed(naming, sub, from, to)) }
  {
    if Get(t, p).Some? {
      var sub := Keyed(naming, Get(t, p).value, from, to);
      SetWorks(t, p, sub);
      SetTwice(t, p, sub, sub);
      NothingSet(t, p);
    }
  }

  lemma NothingSet(t: Tree, p: Path)
    requires Get(t, p).Some?
    ensures Set(t, p, Get(t, p).value) == Some(t)
  {
    if p != [] { PutWhereFound(t, p, None); }
  }

  lemma KeyedBack(naming: Naming, t: Tree, p: Path, from: bv64, to: bv64)
    requires naming.Reversible()
    ensures KeyedAt(naming, KeyedAt(naming, t, p, from, to), p, to, from) == t
  {
    hide Get, Put, Set;
    KeyedIs(naming, t, p, from, to);
    var t2 := KeyedAt(naming, t, p, from, to);
    KeyedIs(naming, t2, p, to, from);
    if Get(t, p).Some? {
      var sub := Get(t, p).value;
      SetTwice(t, p, Keyed(naming, sub, from, to), sub);
      NothingSet(t, p);
    }
  }

  /** `renameNode`: the file at `p` gets another external IV. */
  method RenameNode(naming: Naming, disk: Disk, p: Path, from: bv64, to: bv64)
    modifies disk
    ensures disk.root == KeyedAt(naming, old(disk.root), p, from, to)
  {
    KeyedIs(naming, disk.root, p, from, to);
    var raw := disk.ReadFile(p);
    if raw.Some? {
      disk.WriteFile(p, naming.rekey(raw.value, from, to));
    }
  }

  lemma SetTwice(t: Tree, p: Path, a: Tree, b: Tree)
    requires Set(t, p, a).Some?
    ensures Get(Set(t, p, a).value, p) == Some(a) && Set(Set(t, p, a).value, p, b) == Set(t, p, b)
  {
    if p != [] {
      GetPut(t, p, Some(a));
      PutTwice(t, p, Some(a), Some(b));
    }
  }

  lemma SetWorks(t: Tree, p: Path, sub: Tree)
    requires Get(t, p).Some?
    ensures Set(t, p, sub).Some?
  {
    if p != [] { PutWhereFound(t, p, Some(sub)); }
  }

  /** The coded form of a plain path, and the IV it leaves. Without chaining the IV stays. */
  function EncodePath(naming: Naming, p: Path, iv: bv64): (Path, bv64) {
    if p == [] then ([], iv)
    else
      var first := naming.encode(p[0], iv);
      var rest := EncodePath(naming, p[1..], if naming.chained then first.1 else iv);
      ([first.0] + rest.0, rest.1)
  }

  lemma {:induction false} EncodeBelow(naming: Naming, p: Path, name: Name, iv: bv64)
    requires naming.chained
    ensures var c := EncodePath(naming, p, iv); var n := naming.encode(name, c.1);
      EncodePath(naming, p + [name], iv) == (c.0 + [n.0], n.1)
  {
    if p == [] {
      var n := naming.encode(name, iv);
      assert [name][1..] == [] && p + [name] == [name];
      assert EncodePath(naming, [name], iv) == ([n.0] + [], n.1);
      assert [n.0] + [] == [] + [n.0];
    } else {
      assert (p + [name])[1..] == p[1..] + [name];
      var first := naming.encode(p[0], iv);
      EncodeBelow(naming, p[1..], name, first.1);
      var rest := EncodePath(naming, p[1..], first.1);
      var n := naming.encode(name, rest.1).0;
      assert [first.0] + (rest.0 + [n]) == [first.0] + rest.0 + [n];
    }
  }

  lemma {:induction false} EncodeAppend(naming: Naming, p: Path, q: Path, iv: bv64)
    ensures var c := EncodePath(naming, p, iv); var d := EncodePath(naming, q, c.1);
      EncodePath(naming, p + q, iv) == (c.0 + d.0, d.1)
    decreases |p|
  {
    var c := EncodePath(naming, p, iv);
    var d := EncodePath(naming, q, c.1);
    if p == [] {
      assert p + q == q && c.0 + d.0 == d.0;
    } else {
      assert (p + q)[1..] == p[1..] + q;
      var first := naming.encode(p[0], iv);
      var next := if naming.chained then first.1 else iv;
      EncodeAppend(naming, p[1..], q, next);
      var rest := EncodePath(naming, p[1..], next).0;
      assert [first.0] + (rest + d.0) == [first.0] + rest + d.0;
    }
  }

  /** An entry of a directory with IV `iv` that decodes is the coded form of what it decodes to. */
  predicate IsCoded(naming: Naming, c: Name, iv: bv64) {
    var d := naming.decode(c, iv);
    d.Some? && naming.encode(d.value.0, iv) == (c, d.value.1)
  }

  /** Every entry decodes as a name that this naming has coded, or does not decode at all. */
  predicate WellNamed(naming: Naming, t: Tree, iv: bv64)
    decreases t
  {
    t.Dir? ==> forall c :: c in t.kids && naming.decode(c, iv).Some? ==>
      IsCoded(naming, c, iv) && WellNamed(naming, t.kids[c], naming.decode(c, iv).value.1)
  }

  /** The name an entry gets when its directory's IV changes. */
  function NewName(naming: Naming, c: Name, from: bv64, to: bv64): Name {
    match naming.decode(c, from)
    case None => c
    case Some(d) => naming.encode(d.0, to).0
  }

  /** No name that an entry of a directory gets is in it already, or is got by another one. */
  predicate NoClash(naming: Naming, t: Tree, from: bv64, to: bv64)
    decreases t
  {
    t.Dir? && from != to ==>
      forall c :: c in t.kids && naming.decode(c, from).Some? ==>
        && NewNameIsFree(naming, t.kids.Keys, c, from, to)
        && var d := naming.decode(c, from).value;
           NoClash(naming, t.kids[c], d.1, naming.encode(d.0, to).1)
  }

  predicate NewNameIsFree(naming: Naming, names: set<Name>, c: Name, from: bv64, to: bv64) {
    var n := NewName(naming, c, from, to);
    n !in names && forall d :: d in names && d != c ==> NewName(naming, d, from, to) != n
  }

  /** `after` is `before` with every name that decodes, and the header of every file that has such
      a name, coded again under the new IVs. */
  ghost predicate Recoded(naming: Naming, before: Tree, after: Tree, from: bv64, to: bv64)
    decreases before, 0
  {
    if before.File? then after == Keyed(naming, before, from, to)
    else if from == to then after == before
    else
      && after.Dir?
      && after.kids.Keys == (set c | c in before.kids :: NewName(naming, c, from, to))
      && (forall c, d :: c in before.kids && d in before.kids && c != d ==>
            NewName(naming, c, from, to) != NewName(naming, d, from, to))
      && (forall c :: c in before.kids ==>
            && NewName(naming, c, from, to) in after.kids
            && RecodedEntry(naming, before.kids[c], after.kids[NewName(naming, c, from, to)],
                            naming.decode(c, from), to))
  }

  /** The same for what is under one name, which has decoded as `d`. */
  ghost predicate RecodedEntry(naming: Naming, before: Tree, after: Tree, d: Option<(Name, bv64)>, to: bv64)
    decreases before, 1
  {
    if d.None? then after == before
    else Recoded(naming, before, after, d.value.1, naming.encode(d.value.0, to).1)
  }

  // ----- Lists of renames -----------------------------------------------------------------------

  datatype RenameEl = RenameEl(oldCName: Path, newCName: Path, oldIV: bv64, newIV: bv64)

  /** One rename, for which the file first gets its new IV. */
  function Step(naming: Naming, t: Tree, el: RenameEl): Option<Tree> {
    Renamed(KeyedAt(naming, t, el.oldCName, el.oldIV, el.newIV), el.oldCName, el.newCName)
  }

  /** On the way back the file gets its old IV last. */
  function TakenBack(naming: Naming, t: Tree, el: RenameEl, blocked: bool, stuck: bool): Tree {
    var r := Renamed(t, el.newCName, el.oldCName);
    var t2 := if r.Some? && !blocked then r.value else t;
    if stuck then t2 else KeyedAt(naming, t2, el.oldCName, el.newIV, el.oldIV)
  }

  lemma StepBack(naming: Naming, t: Tree, el: RenameEl)
    requires naming.Reversible() && Step(naming, t, el).Some?
    ensures TakenBack(naming, Step(naming, t, el).value, el, false, false) == t
  {
    var keyed := KeyedAt(naming, t, el.oldCName, el.oldIV, el.newIV);
    hide KeyedAt, Get, Put;
    RenameBack(keyed, el.oldCName, el.newCName);
    KeyedBack(naming, t, el.oldCName, el.oldIV, el.newIV);
  }

  /** Coding a header again keeps nothing from being renamed. */
  lemma StepWorks(naming: Naming, t: Tree, el: RenameEl)
    ensures Step(naming, t, el).Some? == Renamed(t, el.oldCName, el.newCName).Some?
  {
    var p := el.oldCName;
    KeyedIs(naming, t, p, el.oldIV, el.newIV);
    if p != [] && Get(t, p).Some? {
      hide Get, Put, KeyedAt, Renamed;
      SameRename(t, p, el.newCName, Keyed(naming, Get(t, p).value, el.oldIV, el.newIV));
    }
  }

  /** The tree after the renames of a list, or none if one of them fails. */
  function Applied(naming: Naming, t: Tree, els: seq<RenameEl>): Option<Tree>
    decreases |els|
  {
    if els == [] then Some(t)
    else
      match Step(naming, t, els[0])
      case None => None
      case Some(t2) => Applied(naming, t2, els[1..])
  }

  lemma {:induction false} AppliedParts(naming: Naming, t: Tree, a: seq<RenameEl>, b: seq<RenameEl>)
    ensures Applied(naming, t, a + b) ==
      match Applied(naming, t, a) { case None => None case Some(t2) => Applied(naming, t2, b) }
    decreases |a|
  {
    hide Step;
    if a == [] {
      assert a + b == b;
    } else {
      assert (a + b)[1..] == a[1..] + b;
      match Step(naming, t, a[0])
      case None =>
      case Some(t2) => AppliedParts(naming, t2, a[1..], b);
    }
  }

  lemma AppliedNext(naming: Naming, t: Tree, els: seq<RenameEl>, n: nat)
    requires n < |els|
    ensures Applied(naming, t, els[..n + 1]) ==
      match Applied(naming, t, els[..n]) { case None => None case Some(t2) => Step(naming, t2, els[n]) }
  {
    hide Step, Applied;
    assert els[..n + 1] == els[..n] + [els[n]];
    AppliedParts(naming, t, els[..n], [els[n]]);
    match Applied(naming, t, els[..n])
    case None =>
    case Some(t2) => AppliedOne(naming, t2, els[n]);
  }

  lemma AppliedOne(naming: Naming, t: Tree, el: RenameEl)
    ensures Applied(naming, t, [el]) == Step(naming, t, el)
  {
    hide Step;
    assert [el][1..] == [];
    match Step(naming, t, el)
    case None =>
    case Some(t2) => assert Applied(naming, t2, []) == Some(t2);
  }

  /** Which steps of a rename fail for reasons that the tree does not show. A rename may fail, and
      then giving the file its old IV again; so may each of the two on the way back. An exception
      may come before the last rename, or after it has failed. */
  datatype Faults = Faults(
    apply: nat -> bool, applyStuck: nat -> bool, undo: nat -> bool, undoStuck: nat -> bool,
    final: bool, thrown: bool, thrownAfter: bool)
  {
    ghost predicate NoneAtAll() {
      Harmless() && !final && Applies()
    }

    /** No rename of the list is kept from being done. */
    ghost predicate Applies() {
      forall k: nat :: !apply(k)
    }

    /** Nothing keeps a failed rename from being taken back. */
    ghost predicate Harmless() {
      && !thrown && !thrownAfter
      && forall k: nat :: !applyStuck(k) && !undo(k) && !undoStuck(k)
    }
  }

  /** The tree after the renames of a list are tried backwards, the last one first, whatever comes of it. */
  function Undone(naming: Naming, t: Tree, els: seq<RenameEl>, faults: Faults): Tree
    decreases |els|
  {
    if els == [] then t
    else
      var n := |els| - 1;
      Undone(naming, TakenBack(naming, t, els[n], faults.undo(n), faults.undoStuck(n)), els[..n], faults)
  }

  /** If nothing else stops it, taking the renames back leads back: no rename can fail for want of
      a source or for a target that exists, and all headers are what they were. */
  lemma {:induction false} UndoneAll(naming: Naming, start: Tree, els: seq<RenameEl>, t: Tree, faults: Faults)
    requires naming.Reversible() && Applied(naming, start, els) == Some(t)
    requires forall k: nat :: k < |els| ==> !faults.undo(k) && !faults.undoStuck(k)
    ensures Undone(naming, t, els, faults) == start
    decreases |els|
  {
    hide Step, TakenBack, Applied;
    if els == [] {
      NoRenames(naming, start);
    } else {
      var n := |els| - 1;
      assert els[..n + 1] == els;
      AppliedNext(naming, start, els, n);
      StepBack(naming, Applied(naming, start, els[..n]).value, els[n]);
      UndoneAll(naming, start, els[..n], Applied(naming, start, els[..n]).value, faults);
    }
  }

  lemma NoRenames(naming: Naming, t: Tree)
    ensures Applied(naming, t, []) == Some(t)
  {
  }

  /** It may be stopped, and then the tree is not what it was: one rename is taken back exactly if
      taking it back is not blocked. */
  lemma OneUndone(naming: Naming, start: Tree, el: RenameEl, t: Tree, faults: Faults)
    requires naming.Reversible() && Applied(naming, start, [el]) == Some(t) && !faults.undoStuck(0)
    ensures Undone(naming, t, [el], faults) == start <==> !faults.undo(0)
  {
    var els, keyed := [el], KeyedAt(naming, start, el.oldCName, el.oldIV, el.newIV);
    assert els[..0] == [];
    assert Undone(naming, t, els, faults) == TakenBack(naming, t, el, faults.undo(0), false);
    AppliedOne(naming, start, el);
    StepBack(naming, start, el);
    KeyedIs(naming, t, el.oldCName, el.newIV, el.oldIV);
    KeyedSame(naming, start, el.oldCName, el.oldIV, el.newIV, el.newCName);
    hide KeyedAt, Get, Put;
    OldGone(keyed, el.oldCName, el.newCName);
  }

  lemma OldGone(t: Tree, from: Path, to: Path)
    requires Renamed(t, from, to).Some?
    ensures Get(t, to).None? && Get(Renamed(t, from, to).value, to).Some? && Get(Renamed(t, from, to).value, from).None?
  {
    hide Get, Put;
    var r := Put(t, from, None).value;
    GetPut(t, from, None);
    GetPut(r, to, Get(t, from));
    if to <= from { GetPrefix(t, to, from); }
    GetStaysNone(r, to, Get(t, from), from);
  }

  lemma KeyedSame(naming: Naming, t: Tree, p: Path, from: bv64, to: bv64, q: Path)
    ensures Get(KeyedAt(naming, t, p, from, to), q).Some? == Get(t, q).Some?
  {
    KeyedIs(naming, t, p, from, to);
    if Get(t, p).Some? && Get(t, p).value.File? {
      var raw := Get(t, p).value.raw;
      hide Get, Put, KeyedAt, Set;
      FileForFile(t, p, raw, naming.rekey(raw, from, to), q);
    }
  }

  /** One rename on the disk. If it fails the file gets its old IV again, unless that fails too. */
  method RenameOne(naming: Naming, disk: Disk, el: RenameEl, blocked: bool, stuck: bool) returns (ok: bool)
    requires naming.Reversible()
    modifies disk
    ensures ok <==> !blocked && Step(naming, old(disk.root), el).Some?
    ensures ok ==> Some(disk.root) == Step(naming, old(disk.root), el)
    ensures !ok && stuck ==> disk.root == KeyedAt(naming, old(disk.root), el.oldCName, el.oldIV, el.newIV)
    ensures !ok && !stuck ==> disk.root == old(disk.root)
  {
    hide KeyedAt, Renamed, CanMove;
    KeyedBack(naming, disk.root, el.oldCName, el.oldIV, el.newIV);
    RenameNode(naming, disk, el.oldCName, el.oldIV, el.newIV);
    RenamedExactly(disk.root, el.oldCName, el.newCName);
    ok := disk.Rename(el.oldCName, el.newCName, blocked);
    if !ok && !stuck {
      RenameNode(naming, disk, el.oldCName, el.newIV, el.oldIV);
    }
  }

  class RenameOp {
    const naming: Naming
    const disk: Disk
    const renameList: seq<RenameEl>
    var last: nat

    constructor (naming: Naming, disk: Disk, renameList: seq<RenameEl>)
      ensures this.naming == naming && this.disk == disk && this.renameList == renameList && last == 0
    {
      this.naming, this.disk, this.renameList, this.last := naming, disk, renameList, 0;
    }

    /** Rename until a rename fails, for whatever reason. */
    method Apply(faults: Faults) returns (ok: bool)
      requires last == 0 && naming.Reversible()
      modifies this`last, disk
      ensures last <= |renameList| && (ok <==> last == |renameList|)
      ensures Applied(naming, old(disk.root), renameList[..last]).Some?
      ensures var t := Applied(naming, old(disk.root), renameList[..last]).value;
        disk.root == if ok || !faults.applyStuck(last) then t else KeyedFor(t, last)
      ensures !ok ==> faults.apply(last) || Applied(naming, old(disk.root), renameList[..last + 1]).None?
    {
      hide KeyedAt, Step;
      while last < |renameList|
        invariant last <= |renameList|
        invariant Applied(naming, old(disk.root), renameList[..last]) == Some(disk.root)
        decreases |renameList| - last
      {
        AppliedNext(naming, old(disk.root), renameList, last);
        var done := RenameOne(naming, disk, renameList[last], faults.apply(last), faults.applyStuck(last));
        if !done {
          return false;
        }
        last := last + 1;
      }
      return true;
    }

    /** The file of rename `k` has its new IV. */
    function KeyedFor(t: Tree, k: nat): Tree
      requires k < |renameList|
    {
      KeyedAt(naming, t, renameList[k].oldCName, renameList[k].oldIV, renameList[k].newIV)
    }

    /** Take the renames back, the last one first. That one of them fails is not noticed. */
    method Undo(faults: Faults)
      requires last <= |renameList|
      modifies disk
      ensures disk.root == Undone(naming, old(disk.root), renameList[..last], faults)
    {
      hide KeyedAt, Renamed, CanMove;
      var it: nat := last;
      while it != 0
        invariant it <= last
        invariant Undone(naming, disk.root, renameList[..it], faults) ==
          Undone(naming, old(disk.root), renameList[..last], faults)
      {
        it := it - 1;
        var el := renameList[it];
        assert renameList[..it + 1][..it] == renameList[..it];
        RenamedExactly(disk.root, el.newCName, el.oldCName);
        var _ := disk.Rename(el.newCName, el.oldCName, faults.undo(it));
        if !faults.undoStuck(it) {
          RenameNode(naming, disk, el.oldCName, el.newIV, el.oldIV);
        }
      }
    }
  }

  // ----- What a list does below one directory ---------------------------------------------------

  /** Applied to any tree with `before` at `p`, the list makes `after` out of that, and leaves the
      rest of the tree alone. */
  ghost predicate Makes(naming: Naming, els: seq<RenameEl>, p: Path, before: Tree, after: Tree) {
    forall t :: Get(t, p) == Some(before) ==> Applied(naming, t, els) == Set(t, p, after)
  }

  ghost predicate Fails(naming: Naming, els: seq<RenameEl>, p: Path, before: Tree) {
    forall t :: Get(t, p) == Some(before) ==> Applied(naming, t, els).None?
  }

  lemma MakesBoth(naming: Naming, a: seq<RenameEl>, b: seq<RenameEl>, p: Path, before: Tree, middle: Tree, after: Tree)
    requires Makes(naming, a, p, before, middle) && Makes(naming, b, p, middle, after)
    ensures Makes(naming, a + b, p, before, after)
  {
    forall t | Get(t, p) == Some(before) ensures Applied(naming, t, a + b) == Set(t, p, after) {
      AppliedParts(naming, t, a, b);
      SetWorks(t, p, middle);
      SetTwice(t, p, middle, after);
    }
  }

  lemma FailsLater(naming: Naming, a: seq<RenameEl>, b: seq<RenameEl>, p: Path, before: Tree, middle: Tree)
    requires Fails(naming, a, p, before) || (Makes(naming, a, p, before, middle) && Fails(naming, b, p, middle))
    ensures Fails(naming, a + b, p, before)
  {
    forall t | Get(t, p) == Some(before) ensures Applied(naming, t, a + b).None? {
      AppliedParts(naming, t, a, b);
      if Applied(naming, t, a).Some? { SetTwice(t, p, middle, middle); }
    }
  }

  lemma {:induction false} EntryOf(t: Tree, p: Path, kids: map<Name, Tree>, c: Name, sub: Option<Tree>)
    requires Get(t, p) == Some(Dir(kids))
    ensures Get(t, p + [c]) == if c in kids then Some(kids[c]) else None
    ensures Put(t, p + [c], sub) == Set(t, p, Dir(WithEntry(kids, c, sub)))
    decreases |p|
  {
    if p == [] {
      assert p + [c] == [c] && [c][1..] == [];
    } else {
      assert (p + [c])[1..] == p[1..] + [c];
      EntryOf(t.kids[p[0]], p[1..], kids, c, sub);
      if |p| == 1 { assert p[1..] == []; }
    }
  }

  /** A list that works below an entry works below the directory. */
  lemma MakesEntry(naming: Naming, els: seq<RenameEl>, p: Path, kids: map<Name, Tree>, c: Name, after: Tree)
    requires c in kids
    ensures Makes(naming, els, p + [c], kids[c], after) ==> Makes(naming, els, p, Dir(kids), Dir(kids[c := after]))
    ensures Fails(naming, els, p + [c], kids[c]) ==> Fails(naming, els, p, Dir(kids))
  {
    forall t | Get(t, p) == Some(Dir(kids))
      ensures Get(t, p + [c]) == Some(kids[c]) && Set(t, p + [c], after) == Set(t, p, Dir(kids[c := after]))
    {
      EntryOf(t, p, kids, c, Some(after));
    }
  }

  function Moved(kids: map<Name, Tree>, c: Name, n: Name): map<Name, Tree>
    requires c in kids
  {
    (kids - {c})[n := kids[c]]
  }

  /** One rename within a directory. */
  lemma MakesMoved(naming: Naming, p: Path, kids: map<Name, Tree>, c: Name, n: Name, from: bv64, to: bv64)
    requires c in kids
    ensures var els := [RenameEl(p + [c], p + [n], from, to)];
      var keyed := kids[c := Keyed(naming, kids[c], from, to)];
      && (n !in kids ==> Makes(naming, els, p, Dir(kids), Dir(Moved(keyed, c, n))))
      && (n in kids ==> Fails(naming, els, p, Dir(kids)))
  {
    var el := RenameEl(p + [c], p + [n], from, to);
    var keyed := kids[c := Keyed(naming, kids[c], from, to)];
    forall t | Get(t, p) == Some(Dir(kids))
      ensures n in kids ==> Applied(naming, t, [el]).None?
      ensures n !in kids ==> Applied(naming, t, [el]) == Set(t, p, Dir(Moved(keyed, c, n)))
    {
      AppliedOne(naming, t, el);
      KeyedEntry(naming, t, p, kids, c, from, to);
      var t1 := KeyedAt(naming, t, p + [c], from, to);
      hide *;
      SetTwice(t, p, Dir(keyed), Dir(Moved(keyed, c, n)));
      MovedWithin(t1, p, keyed, c, n);
    }
  }

  lemma KeyedEntry(naming: Naming, t: Tree, p: Path, kids: map<Name, Tree>, c: Name, from: bv64, to: bv64)
    requires Get(t, p) == Some(Dir(kids)) && c in kids
    ensures Set(t, p, Dir(kids[c := Keyed(naming, kids[c], from, to)])) == Some(KeyedAt(naming, t, p + [c], from, to))
  {
    hide Get, Put;
    EntryOf(t, p, kids, c, Some(Keyed(naming, kids[c], from, to)));
    KeyedIs(naming, t, p + [c], from, to);
  }

  lemma MovedWithin(t: Tree, p: Path, kids: map<Name, Tree>, c: Name, n: Name)
    requires Get(t, p) == Some(Dir(kids)) && c in kids
    ensures Renamed(t, p + [c], p + [n]) == if n in kids then None else Set(t, p, Dir(Moved(kids, c, n)))
  {
    hide Get, Put;
    EntryOf(t, p, kids, c, None);
    EntryOf(t, p, kids, n, None);
    if n !in kids {
      var less := WithEntry(kids, c, None);
      SetWorks(t, p, Dir(less));
      var t2 := Put(t, p + [c], None).value;
      SetTwice(t, p, Dir(less), Dir(Moved(kids, c, n)));
      EntryOf(t2, p, less, n, Some(kids[c]));
    }
  }

  // ----- Making the list ------------------------------------------------------------------------

  /** What is known of the entries while the list is made: those in `todo` are as they were, and
      the others are coded again. */
  ghost predicate Underway(naming: Naming, kids: map<Name, Tree>, todo: set<Name>, cur: map<Name, Tree>, from: bv64,
                           to: bv64) {
    && todo <= kids.Keys
    && (forall c :: c in todo ==> c in cur && cur[c] == kids[c])
    && (forall n :: n in cur ==> n in todo || n in NewNames(naming, kids.Keys - todo, from, to))
    && (forall c :: c in kids.Keys - todo ==>
          NewName(naming, c, from, to) !in todo && EntryCoded(naming, kids, c, cur, from, to))
    && Distinct(naming, kids.Keys - todo, from, to)
  }

  function NewNames(naming: Naming, names: set<Name>, from: bv64, to: bv64): set<Name> {
    set c | c in names :: NewName(naming, c, from, to)
  }

  ghost predicate Distinct(naming: Naming, names: set<Name>, from: bv64, to: bv64) {
    forall c, d :: c in names && d in names && c != d ==> NewName(naming, c, from, to) != NewName(naming, d, from, to)
  }

  ghost predicate EntryCoded(naming: Naming, kids: map<Name, Tree>, c: Name, cur: map<Name, Tree>, from: bv64, to: bv64)
    requires c in kids
  {
    var n := NewName(naming, c, from, to);
    n in cur && RecodedEntry(naming, kids[c], cur[n], naming.decode(c, from), to)
  }

  lemma AllDone(naming: Naming, kids: map<Name, Tree>, cur: map<Name, Tree>, from: bv64, to: bv64)
    requires Underway(naming, kids, {}, cur, from, to) && from != to
    ensures Recoded(naming, Dir(kids), Dir(cur), from, to)
  {
    hide NewName, RecodedEntry;
    assert kids.Keys - {} == kids.Keys;
    forall c | c in kids ensures EntryCoded(naming, kids, c, cur, from, to) {
      assert c in kids.Keys - {};
    }
    assert cur.Keys == (set c | c in kids :: NewName(naming, c, from, to));
  }

  lemma SkippedEntry(naming: Naming, kids: map<Name, Tree>, todo: set<Name>, cur: map<Name, Tree>, from: bv64,
                     to: bv64, c: Name)
    requires Underway(naming, kids, todo, cur, from, to) && c in todo && naming.decode(c, from).None?
    ensures Underway(naming, kids, todo - {c}, cur, from, to)
  {
    hide NewName, EntryCoded, Distinct, NewNames;
    StaysAsItWas(naming, kids, todo, cur, from, to, c);
    NotNewYet(naming, kids, todo, from, to, c);
    OneMoreDone(naming, kids.Keys, todo, c, from, to);
    var was, now := kids.Keys - todo, kids.Keys - (todo - {c});
    assert forall d :: d in now ==> d in was || d == c;
    assert forall n :: n in cur ==> n in todo - {c} || n in NewNames(naming, now, from, to);
    assert forall d :: d in now ==> NewName(naming, d, from, to) !in todo - {c};
  }

  lemma StaysAsItWas(naming: Naming, kids: map<Name, Tree>, todo: set<Name>, cur: map<Name, Tree>, from: bv64,
                     to: bv64, c: Name)
    requires Underway(naming, kids, todo, cur, from, to) && c in todo && naming.decode(c, from).None?
    ensures NewName(naming, c, from, to) == c && EntryCoded(naming, kids, c, cur, from, to)
  {
    hide Distinct, NewNames, Recoded;
  }

  lemma NotNewYet(naming: Naming, kids: map<Name, Tree>, todo: set<Name>, from: bv64, to: bv64, n: Name)
    requires forall c :: c in kids.Keys - todo ==> NewName(naming, c, from, to) != n
    ensures n !in NewNames(naming, kids.Keys - todo, from, to)
  {
  }

  /** One more name is new, and none of those before it. */
  lemma OneMoreDone(naming: Naming, names: set<Name>, todo: set<Name>, c: Name, from: bv64, to: bv64)
    requires c in todo && todo <= names && Distinct(naming, names - todo, from, to)
    requires NewName(naming, c, from, to) !in NewNames(naming, names - todo, from, to)
    ensures names - (todo - {c}) == names - todo + {c}
    ensures Distinct(naming, names - (todo - {c}), from, to)
    ensures NewNames(naming, names - (todo - {c}), from, to) ==
      NewNames(naming, names - todo, from, to) + {NewName(naming, c, from, to)}
  {
    hide NewName;
    assert names - (todo - {c}) == names - todo + {c};
    forall d | d in names - todo ensures NewName(naming, d, from, to) in NewNames(naming, names - todo, from, to) {}
  }

  lemma MovedIs(cur: map<Name, Tree>, c: Name, n: Name, after: Tree)
    requires c in cur && n !in cur
    ensures var cur2 := Moved(cur[c := after], c, n);
      && n in cur2 && cur2[n] == after
      && (forall m :: m in cur2 <==> m == n || (m in cur && m != c))
      && (forall m :: m in cur && m != c ==> cur2[m] == cur[m])
  {
  }

  lemma RenamedEntry(naming: Naming, kids: map<Name, Tree>, todo: set<Name>, cur: map<Name, Tree>, from: bv64, to: bv64,
                     c: Name, after: Tree)
    requires Underway(naming, kids, todo, cur, from, to) && c in todo && naming.decode(c, from).Some?
    requires NewName(naming, c, from, to) !in cur
    requires RecodedEntry(naming, kids[c], after, naming.decode(c, from), to)
    ensures Underway(naming, kids, todo - {c}, Moved(cur[c := after], c, NewName(naming, c, from, to)), from, to)
  {
    hide NewName, RecodedEntry, Moved, EntryCoded, Distinct, NewNames;
    var n := NewName(naming, c, from, to);
    var cur2 := Moved(cur[c := after], c, n);
    MovedIs(cur, c, n, after);
    EntriesStay(naming, kids, todo, cur, from, to, c, after);
    NotNewYet(naming, kids, todo, from, to, n);
    OneMoreDone(naming, kids.Keys, todo, c, from, to);
    var was, now := kids.Keys - todo, kids.Keys - (todo - {c});
    assert forall d :: d in now ==> d in was || d == c;
    assert forall m :: m in cur2 ==> m in todo - {c} || m in NewNames(naming, now, from, to);
    assert forall d :: d in now ==> NewName(naming, d, from, to) !in todo - {c};
  }

  /** The entries that are done stay as they are, and the new name is none of theirs. */
  lemma EntriesStay(naming: Naming, kids: map<Name, Tree>, todo: set<Name>, cur: map<Name, Tree>, from: bv64, to: bv64,
                    c: Name, after: Tree)
    requires Underway(naming, kids, todo, cur, from, to) && c in todo
    requires NewName(naming, c, from, to) !in cur
    requires RecodedEntry(naming, kids[c], after, naming.decode(c, from), to)
    ensures var n := NewName(naming, c, from, to); var cur2 := Moved(cur[c := after], c, n);
      && EntryCoded(naming, kids, c, cur2, from, to)
      && (forall d :: d in kids.Keys - todo ==>
            && NewName(naming, d, from, to) != n && NewName(naming, d, from, to) !in todo
            && EntryCoded(naming, kids, d, cur2, from, to))
  {
    hide NewName, RecodedEntry, Moved, Distinct, NewNames;
    var n := NewName(naming, c, from, to);
    var cur2 := Moved(cur[c := after], c, n);
    MovedIs(cur, c, n, after);
    forall d | d in kids.Keys - todo
      ensures NewName(naming, d, from, to) != n && EntryCoded(naming, kids, d, cur2, from, to)
    {
      assert EntryCoded(naming, kids, d, cur, from, to);
    }
  }

  /** Paths below `p` are no longer than `room`. */
  ghost predicate Room(t: Tree, p: Path, room: nat) {
    forall q :: Get(t, p + q).Some? ==> |q| <= room
  }

  lemma RoomBelow(t: Tree, p: Path, kids: map<Name, Tree>, c: Name, n: Name, room: nat)
    requires Room(t, p, room) && Get(t, p) == Some(Dir(kids)) && c in kids
    ensures room > 0 && Room(t, p + [n], room - 1)
  {
    EntryOf(t, p, kids, c, None);
    RoomFor(t, p, [c], room);
    hide Get;
    forall q | Get(t, p + [n] + q).Some? ensures |q| <= room - 1 {
      RoomOne(t, p, n, q, room);
    }
  }

  lemma RoomOne(t: Tree, p: Path, n: Name, q: Path, room: nat)
    requires Room(t, p, room) && Get(t, p + [n] + q).Some?
    ensures |q| + 1 <= room
  {
    hide Get, Room;
    PathAssoc(p, [n], q);
    RoomFor(t, p, [n] + q, room);
  }

  lemma RoomFor(t: Tree, p: Path, q: Path, room: nat)
    requires Room(t, p, room) && Get(t, p + q).Some?
    ensures |q| <= room
  {
    hide Get;
  }

  lemma PathAssoc(p: Path, q: Path, r: Path)
    ensures p + q + r == p + (q + r)
  {
  }

  /** There is such a bound for any tree. */
  lemma {:induction false} HasRoom(t: Tree) returns (room: nat)
    ensures Room(t, [], room)
    decreases t
  {
    room := 0;
    if t.Dir? {
      var todo := t.kids.Keys;
      while todo != {}
        invariant todo <= t.kids.Keys
        invariant forall c :: c in t.kids && c !in todo ==> room > 0 && Room(t.kids[c], [], room - 1)
      {
        var c :| c in todo;
        var r := HasRoom(t.kids[c]);
        room := if r + 1 > room then r + 1 else room;
        todo := todo - {c};
      }
    }
    forall q | Get(t, [] + q).Some? ensures |q| <= room {
      assert [] + q == q;
      if q != [] {
        assert [] + q[1..] == q[1..];
        assert Get(t.kids[q[0]], [] + q[1..]).Some?;
      }
    }
  }

  /** The list codes again what is below `p`, or it fails because two names clash. */
  ghost predicate Recodes(naming: Naming, list: seq<RenameEl>, p: Path, before: Tree, from: bv64, to: bv64) {
    || (Fails(naming, list, p, before) && !NoClash(naming, before, from, to))
    || exists after :: Makes(naming, list, p, before, after) && Recoded(naming, before, after, from, to)
  }

  lemma RecodesTo(naming: Naming, list: seq<RenameEl>, p: Path, before: Tree, after: Tree, from: bv64, to: bv64)
    requires Makes(naming, list, p, before, after) && Recoded(naming, before, after, from, to)
    ensures Recodes(naming, list, p, before, from, to)
  {
  }

  lemma RecodesNot(naming: Naming, list: seq<RenameEl>, p: Path, before: Tree, from: bv64, to: bv64)
    requires Fails(naming, list, p, before) && !NoClash(naming, before, from, to)
    ensures Recodes(naming, list, p, before, from, to)
  {
  }

  /** Which of the two it is, and what it makes. */
  lemma RecodesHow(naming: Naming, list: seq<RenameEl>, p: Path, before: Tree, from: bv64, to: bv64)
      returns (fails: bool, after: Tree)
    requires Recodes(naming, list, p, before, from, to)
    ensures fails ==> Fails(naming, list, p, before) && !NoClash(naming, before, from, to)
    ensures !fails ==> Makes(naming, list, p, before, after) && Recoded(naming, before, after, from, to)
  {
    hide Makes, Fails, Recoded, NoClash;
    fails, after := Fails(naming, list, p, before) && !NoClash(naming, before, from, to), before;
    if !fails {
      after :| Makes(naming, list, p, before, after) && Recoded(naming, before, after, from, to);
    }
  }

  /** `genRenameList`: the entries of a directory in any order, what is in an entry before the entry.
      The disk is only read. */
  method GenRenameList(naming: Naming, disk: Disk, fromP: Path, toP: Path, ghost room: nat)
    returns (ok: bool, list: seq<RenameEl>)
    requires naming.chained && Room(disk.root, EncodePath(naming, fromP, 0).0, room)
    ensures var f, t := EncodePath(naming, fromP, 0), EncodePath(naming, toP, 0);
      var before := Get(disk.root, f.0);
      before.Some? && before.value.Dir? && WellNamed(naming, before.value, f.1) ==>
        ok && Recodes(naming, list, f.0, before.value, f.1, t.1)
    decreases room, 1
  {
    hide *;
    var from, to := EncodePath(naming, fromP, 0), EncodePath(naming, toP, 0);
    var sourcePath, fromIV, toIV := from.0, from.1, to.1;
    ok, list := true, [];
    var dir := Get(disk.root, sourcePath);
    if fromIV == toIV {
      if dir.Some? && dir.value.Dir? {
        NothingToDo(naming, sourcePath, dir.value);
        SameDirectory(naming, dir.value, fromIV);
        RecodesTo(naming, list, sourcePath, dir.value, dir.value, fromIV, toIV);
      }
      return;
    }
    if dir.None? || dir.value.File? {
      return false, [];
    }
    var kids := dir.value.kids;
    ghost var wellNamed := WellNamed(naming, dir.value, fromIV);
    ghost var cur, fails := kids, false;
    var todo := kids.Keys;
    NothingToDo(naming, sourcePath, Dir(kids));
    NothingDoneYet(naming, kids, fromIV, toIV);
    while todo != {}
      invariant todo <= kids.Keys
      invariant wellNamed ==>
        if fails then Fails(naming, list, sourcePath, Dir(kids)) && !NoClash(naming, Dir(kids), fromIV, toIV)
        else Makes(naming, list, sourcePath, Dir(kids), Dir(cur)) && Underway(naming, kids, todo, cur, fromIV, toIV)
      decreases |todo|
    {
      var c :| c in todo;
      match naming.decode(c, fromIV) {
        case None =>
          if wellNamed && !fails { SkippedEntry(naming, kids, todo, cur, fromIV, toIV, c); }
        case Some(d) =>
          RoomBelow(disk.root, sourcePath, kids, c, naming.encode(d.0, fromIV).0, room);
          var more;
          ok, more, cur, fails := RenameEntry(naming, disk, fromP, toP, room - 1, kids, c, todo, cur, list, fails);
          if !ok {
            return;
          }
          list := list + more;
      }
      todo := todo - {c};
    }
    if wellNamed && !fails {
      AllDone(naming, kids, cur, fromIV, toIV);
      RecodesTo(naming, list, sourcePath, Dir(kids), Dir(cur), fromIV, toIV);
    } else if wellNamed {
      RecodesNot(naming, list, sourcePath, Dir(kids), fromIV, toIV);
    }
  }

  lemma SameDirectory(naming: Naming, t: Tree, iv: bv64)
    ensures t.Dir? ==> Recoded(naming, t, t, iv, iv)
  {
  }

  lemma NothingDoneYet(naming: Naming, kids: map<Name, Tree>, from: bv64, to: bv64)
    ensures Underway(naming, kids, kids.Keys, kids, from, to)
  {
    assert kids.Keys - kids.Keys == {};
  }

  lemma NothingToDo(naming: Naming, p: Path, t: Tree)
    ensures Makes(naming, [], p, t, t)
  {
    forall s | Get(s, p) == Some(t) ensures Set(s, p, t) == Some(s) == Applied(naming, s, []) {
      if p != [] { PutWhereFound(s, p, None); }
    }
  }

  /** One entry that decodes: what is in it, and then the entry itself. */
  method RenameEntry(naming: Naming, disk: Disk, fromP: Path, toP: Path, ghost room: nat, kids: map<Name, Tree>,
                     c: Name,
                     ghost todo: set<Name>, ghost cur0: map<Name, Tree>, ghost list: seq<RenameEl>, ghost fails0: bool)
    returns (ok: bool, more: seq<RenameEl>, ghost cur: map<Name, Tree>, ghost fails: bool)
    requires naming.chained && c in todo && todo <= kids.Keys
    requires var f, t := EncodePath(naming, fromP, 0), EncodePath(naming, toP, 0);
      && Get(disk.root, f.0) == Some(Dir(kids)) && naming.decode(c, f.1).Some? && f.1 != t.1
      && Room(disk.root, f.0 + [naming.encode(naming.decode(c, f.1).value.0, f.1).0], room)
      && (WellNamed(naming, Dir(kids), f.1) ==>
            if fails0 then Fails(naming, list, f.0, Dir(kids)) && !NoClash(naming, Dir(kids), f.1, t.1)
            else Makes(naming, list, f.0, Dir(kids), Dir(cur0)) && Underway(naming, kids, todo, cur0, f.1, t.1))
    ensures var f, t := EncodePath(naming, fromP, 0), EncodePath(naming, toP, 0);
      WellNamed(naming, Dir(kids), f.1) ==>
        && ok
        && if fails then Fails(naming, list + more, f.0, Dir(kids)) && !NoClash(naming, Dir(kids), f.1, t.1)
        else Makes(naming, list + more, f.0, Dir(kids), Dir(cur)) && Underway(naming, kids, todo - {c}, cur, f.1, t.1)
    decreases room, 2
  {
    hide *;
    var from, to := EncodePath(naming, fromP, 0), EncodePath(naming, toP, 0);
    var plainName := naming.decode(c, from.1).value.0;
    var newName := naming.encode(plainName, to.1).0;
    EncodeBelow(naming, fromP, plainName, 0);
    EncodeBelow(naming, toP, plainName, 0);
    var inside := [];
    ghost var after, insideFails := kids[c], false;
    ok := true;
    EntryOf(disk.root, from.0, kids, c, None);
    if kids[c].Dir? {
      ghost var wellNamed := WellNamed(naming, Dir(kids), from.1);
      if wellNamed { CodedEntry(naming, kids, c, from.1, to.1, kids[c]); }
      ok, inside := GenRenameList(naming, disk, fromP + [plainName], toP + [plainName], room);
      if !ok {
        return false, [], cur0, fails0;
      }
      if wellNamed {
        var was, now := naming.encode(plainName, from.1), naming.encode(plainName, to.1);
        insideFails, after := RecodesHow(naming, inside, from.0 + [c], kids[c], was.1, now.1);
      }
    } else {
      NothingToDo(naming, from.0 + [c], kids[c]);
    }
    var oldIV, newIV := naming.encode(plainName, from.1).1, naming.encode(plainName, to.1).1;
    more := inside + [RenameEl(from.0 + [c], from.0 + [newName], oldIV, newIV)];
    fails := fails0 || insideFails || newName in cur0;
    ghost var keyed := Keyed(naming, after, oldIV, newIV);
    cur := if c in cur0 then Moved(cur0[c := keyed], c, newName) else cur0;
    if WellNamed(naming, Dir(kids), from.1) {
      CodedEntry(naming, kids, c, from.1, to.1, after);
      if fails && !fails0 { EntryClash(naming, kids, c, todo, cur0, insideFails, from.1, to.1); }
      EntryDone(naming, from.0, kids, c, todo, cur0, list, fails0, inside, after, insideFails, from.1, to.1,
                oldIV, newIV);
    }
  }

  lemma CodedEntry(naming: Naming, kids: map<Name, Tree>, c: Name, from: bv64, to: bv64, after: Tree)
    requires c in kids && naming.decode(c, from).Some? && WellNamed(naming, Dir(kids), from)
    ensures var d := naming.decode(c, from).value;
      && naming.encode(d.0, from) == (c, d.1) && WellNamed(naming, kids[c], d.1)
      && NewName(naming, c, from, to) == naming.encode(d.0, to).0
      && var n := naming.encode(d.0, to);
         && (kids[c].File? && after == kids[c] ==>
               RecodedEntry(naming, kids[c], Keyed(naming, after, d.1, n.1), naming.decode(c, from), to))
         && (kids[c].Dir? && Recoded(naming, kids[c], after, d.1, n.1) ==>
               RecodedEntry(naming, kids[c], Keyed(naming, after, d.1, n.1), naming.decode(c, from), to))
  {
    assert IsCoded(naming, c, from);
  }

  /** A failure is due to two names that are the same. */
  lemma EntryClash(naming: Naming, kids: map<Name, Tree>, c: Name, todo: set<Name>, cur: map<Name, Tree>,
                   insideFails: bool, from: bv64, to: bv64)
    requires c in todo && todo <= kids.Keys && naming.decode(c, from).Some? && from != to
    requires Underway(naming, kids, todo, cur, from, to)
    requires var d := naming.decode(c, from).value; var n := naming.encode(d.0, to);
      && NewName(naming, c, from, to) == n.0
      && (if insideFails then !NoClash(naming, kids[c], d.1, n.1) else n.0 in cur)
    ensures !NoClash(naming, Dir(kids), from, to)
  {
    var n := NewName(naming, c, from, to);
    if !insideFails {
      hide NewName, EntryCoded, Distinct;
      assert n in todo || n in NewNames(naming, kids.Keys - todo, from, to);
      assert !NewNameIsFree(naming, kids.Keys, c, from, to);
    }
  }

  lemma EntryDone(naming: Naming, p: Path, kids: map<Name, Tree>, c: Name, todo: set<Name>, cur: map<Name, Tree>,
                  list: seq<RenameEl>, fails: bool, inside: seq<RenameEl>, after: Tree, insideFails: bool,
                  from: bv64, to: bv64, oldIV: bv64, newIV: bv64)
    requires c in todo && todo <= kids.Keys && naming.decode(c, from).Some?
    requires if fails then Fails(naming, list, p, Dir(kids))
      else Makes(naming, list, p, Dir(kids), Dir(cur)) && Underway(naming, kids, todo, cur, from, to)
    requires if insideFails then Fails(naming, inside, p + [c], kids[c])
      else
        && Makes(naming, inside, p + [c], kids[c], after)
        && RecodedEntry(naming, kids[c], Keyed(naming, after, oldIV, newIV), naming.decode(c, from), to)
    ensures var n := NewName(naming, c, from, to);
      var all := list + (inside + [RenameEl(p + [c], p + [n], oldIV, newIV)]);
      if fails || insideFails || n in cur then Fails(naming, all, p, Dir(kids))
      else
        && c in cur
        && var done := Moved(cur[c := Keyed(naming, after, oldIV, newIV)], c, n);
           Makes(naming, all, p, Dir(kids), Dir(done)) && Underway(naming, kids, todo - {c}, done, from, to)
  {
    hide Makes, Fails, RecodedEntry, Moved, NewName, Distinct, NewNames, EntryCoded, Keyed;
    var n := NewName(naming, c, from, to);
    var el := [RenameEl(p + [c], p + [n], oldIV, newIV)];
    if fails {
      FailsLater(naming, list, inside + el, p, Dir(kids), Dir(cur));
    } else {
      assert c in cur && cur[c] == kids[c];
      MakesEntry(naming, inside, p, cur, c, after);
      if insideFails {
        FailsLater(naming, inside, el, p, Dir(cur), Dir(cur));
        FailsLater(naming, list, inside + el, p, Dir(kids), Dir(cur));
      } else {
        var keyed := Keyed(naming, after, oldIV, newIV);
        assert cur[c := after][c := keyed] == cur[c := keyed];
        MakesMoved(naming, p, cur[c := after], c, n, oldIV, newIV);
        if n in cur {
          FailsLater(naming, inside, el, p, Dir(cur), Dir(cur[c := after]));
          FailsLater(naming, list, inside + el, p, Dir(kids), Dir(cur));
        } else {
          var done := Moved(cur[c := keyed], c, n);
          MakesBoth(naming, inside, el, p, Dir(cur), Dir(cur[c := after]), Dir(done));
          MakesBoth(naming, list, inside + el, p, Dir(kids), Dir(cur), Dir(done));
          RenamedEntry(naming, kids, todo, cur, from, to, c, keyed);
        }
      }
    }
  }

  // ----- Renaming a directory -------------------------------------------------------------------

  /** The tree with `sub` taken from `from` to `to`. */
  function MovedTo(t: Tree, from: Path, to: Path, sub: Tree): Option<Tree>
    requires from != [] && to != []
  {
    match Put(t, from, None)
    case None => None
    case Some(r) => Put(r, to, Some(sub))
  }

  lemma StepMoves(naming: Naming, t: Tree, el: RenameEl)
    requires Step(naming, t, el).Some?
    ensures el.oldCName != [] && el.newCName != []
    ensures Get(t, el.oldCName).Some? && Get(t, el.newCName).None?
    ensures Step(naming, t, el) ==
      MovedTo(t, el.oldCName, el.newCName, Keyed(naming, Get(t, el.oldCName).value, el.oldIV, el.newIV))
  {
    hide Get, Put, KeyedAt;
    var p, q := el.oldCName, el.newCName;
    KeyedIs(naming, t, p, el.oldIV, el.newIV);
    KeyedSame(naming, t, p, el.oldIV, el.newIV, p);
    KeyedSame(naming, t, p, el.oldIV, el.newIV, q);
    PutTwice(t, p, Some(Keyed(naming, Get(t, p).value, el.oldIV, el.newIV)), None);
  }

  function DiskPath(naming: Naming, p: Path): Path {
    EncodePath(naming, p, 0).0
  }

  /** The file or directory has gone from one place to the other, with all names in it coded for
      the new place, and nothing else has changed. */
  ghost predicate HasMoved(naming: Naming, start: Tree, root: Tree, fromP: Path, toP: Path, after: Tree) {
    var f, t := EncodePath(naming, fromP, 0), EncodePath(naming, toP, 0);
    && f.0 != [] && t.0 != [] && Get(start, f.0).Some? && Get(start, t.0).None?
    && Recoded(naming, Get(start, f.0).value, after, f.1, t.1)
    && MovedTo(start, f.0, t.0, after) == Some(root)
  }

  /** It is where it was, but with all names in it coded for the new place. */
  ghost predicate Waiting(naming: Naming, start: Tree, root: Tree, fromP: Path, toP: Path, after: Tree) {
    var f, t := EncodePath(naming, fromP, 0), EncodePath(naming, toP, 0);
    && Get(start, f.0).Some?
    && Recoded(naming, Get(start, f.0).value, after, f.1, t.1)
    && Set(start, f.0, after) == Some(root)
  }

  /** What a rename that failed has done: the renames in `done`, after which the tree was `left`,
      which has then been undone as far as that went, or not, after an exception. */
  datatype Trace = Trace(after: Tree, done: seq<RenameEl>, left: Tree, threw: bool)

  ghost predicate Stopped(naming: Naming, start: Tree, root: Tree, trace: Trace, faults: Faults) {
    && (trace.threw ==> faults.thrown || faults.thrownAfter)
    && (match Applied(naming, start, trace.done)
        case None => false
        case Some(t) => trace.left == t || (!faults.Harmless() && OneKeyed(naming, t, trace.left)))
    && root == if trace.threw then trace.left else Undone(naming, trace.left, trace.done, faults)
  }

  /** A single file has been given another IV. */
  ghost predicate OneKeyed(naming: Naming, t: Tree, left: Tree) {
    exists p, from, to :: left == KeyedAt(naming, t, p, from, to)
  }

  class DirNode {
    const naming: Naming
    const disk: Disk

    constructor (naming: Naming, disk: Disk)
      ensures this.naming == naming && this.disk == disk
    {
      this.naming, this.disk := naming, disk;
    }

    /** A success has moved the file or directory, has coded all names in it and the headers of
        its files again, and has done nothing else. A failure leaves the disk as it was, unless
        taking a step back fails, unnoticed, or an exception keeps the steps from being taken
        back. The paths in the disk's names come from the plain ones. */
    method Rename(fromP: Path, toP: Path, faults: Faults) returns (ok: bool, ghost trace: Trace)
      requires naming.Reversible()
      modifies disk
      ensures !ok && faults.Harmless() ==> disk.root == old(disk.root)
      ensures !ok ==> Stopped(naming, old(disk.root), disk.root, trace, faults)
      ensures !ok && trace.threw && Codable(old(disk.root), fromP) && IsList(old(disk.root), fromP) ==>
        Waiting(naming, old(disk.root), disk.root, fromP, toP, trace.after)
      ensures ok && Codable(old(disk.root), fromP) ==>
        HasMoved(naming, old(disk.root), disk.root, fromP, toP, trace.after)
      ensures AppliedAndThrown(old(disk.root), fromP, toP, faults) ==> !ok && trace.threw
      ensures faults.NoneAtAll() && Codable(old(disk.root), fromP) && NoneClash(old(disk.root), fromP, toP) ==>
        (ok <==> CanMove(old(disk.root), DiskPath(naming, fromP), DiskPath(naming, toP)))
    {
      hide *;
      var f, t := EncodePath(naming, fromP, 0), EncodePath(naming, toP, 0);
      ghost var start := disk.root;
      IsDiskPath(fromP, toP);
      ListIs(start, fromP);
      FaultsAre(faults);
      if AppliedAndThrown(start, fromP, toP, faults) { AppliedFacts(start, fromP, toP, faults); }
      RenamedExactly(start, f.0, t.0);
      var isDirectory := disk.IsDirectory(f.0);
      if naming.chained && isDirectory {
        ok, trace := RenameAll(fromP, toP, f.0, t.0, faults);
      } else {
        var el := RenameEl(f.0, t.0, f.1, t.1);
        Single(start, fromP, toP, el, faults);
        ok, trace := false, Trace(Found(start, el), [], start, true);
        if !faults.thrown {
          ok := RenameOne(naming, disk, el, faults.final, faults.thrownAfter);
          trace := Trace(trace.after, [], disk.root, !ok && faults.thrownAfter);
        }
      }
    }

    lemma IsDiskPath(fromP: Path, toP: Path)
      ensures DiskPath(naming, fromP) == EncodePath(naming, fromP, 0).0
      ensures DiskPath(naming, toP) == EncodePath(naming, toP, 0).0
    {
    }

    /** The names below a directory are coded names of this naming, where that matters. */
    ghost predicate Codable(start: Tree, fromP: Path) {
      var f := EncodePath(naming, fromP, 0);
      naming.chained && Get(start, f.0).Some? ==> WellNamed(naming, Get(start, f.0).value, f.1)
    }

    /** No two names get in each other's way when they are coded again. */
    ghost predicate NoneClash(start: Tree, fromP: Path, toP: Path) {
      var f, t := EncodePath(naming, fromP, 0), EncodePath(naming, toP, 0);
      naming.chained && Get(start, f.0).Some? ==> NoClash(naming, Get(start, f.0).value, f.1, t.1)
    }

    /** A list of renames has to be made. */
    predicate IsList(start: Tree, fromP: Path) {
      var sub := Get(start, DiskPath(naming, fromP));
      naming.chained && sub.Some? && sub.value.Dir?
    }

    /** Nothing keeps the list from being applied, and then comes an exception. */
    ghost predicate AppliedAndThrown(start: Tree, fromP: Path, toP: Path, faults: Faults) {
      && faults.thrown && faults.Applies() && IsList(start, fromP)
      && Codable(start, fromP) && NoneClash(start, fromP, toP)
    }

    lemma AppliedFacts(start: Tree, fromP: Path, toP: Path, faults: Faults)
      requires AppliedAndThrown(start, fromP, toP, faults)
      ensures faults.thrown && faults.Applies() && IsList(start, fromP)
      ensures Codable(start, fromP) && NoneClash(start, fromP, toP)
    {
    }

    lemma ListIs(start: Tree, fromP: Path)
      ensures var sub := Get(start, EncodePath(naming, fromP, 0).0);
        IsList(start, fromP) <==> naming.chained && sub.Some? && sub.value.Dir?
    {
    }

    /** What a single rename will have moved. */
    ghost function Found(start: Tree, el: RenameEl): Tree {
      match Get(start, el.oldCName)
      case None => File([])
      case Some(sub) => Keyed(naming, sub, el.oldIV, el.newIV)
    }

    /** The case without a list of renames. */
    lemma Single(start: Tree, fromP: Path, toP: Path, el: RenameEl, faults: Faults)
      requires naming.Reversible() && !IsList(start, fromP)
      requires var f, t := EncodePath(naming, fromP, 0), EncodePath(naming, toP, 0);
        el == RenameEl(f.0, t.0, f.1, t.1)
      ensures var keyed := KeyedAt(naming, start, el.oldCName, el.oldIV, el.newIV);
        && (faults.thrown ==> Stopped(naming, start, start, Trace(Found(start, el), [], start, true), faults))
        && (faults.thrownAfter ==> Stopped(naming, start, keyed, Trace(Found(start, el), [], keyed, true), faults))
        && Stopped(naming, start, start, Trace(Found(start, el), [], start, false), faults)
      ensures var r := Step(naming, start, el);
        && r.Some? == Renamed(start, el.oldCName, el.newCName).Some?
        && (r.Some? ==> HasMoved(naming, start, r.value, fromP, toP, Found(start, el)))
    {
      hide Get, Put, Set, KeyedAt, Recoded;
      StepWorks(naming, start, el);
      if Step(naming, start, el).Some? { SingleMoved(start, fromP, toP, el); }
    }

    lemma SingleMoved(start: Tree, fromP: Path, toP: Path, el: RenameEl)
      requires naming.Reversible() && !IsList(start, fromP) && Step(naming, start, el).Some?
      requires var f, t := EncodePath(naming, fromP, 0), EncodePath(naming, toP, 0);
        el == RenameEl(f.0, t.0, f.1, t.1)
      ensures HasMoved(naming, start, Step(naming, start, el).value, fromP, toP, Found(start, el))
    {
      hide *;
      StepMoves(naming, start, el);
      RecodedAlone(start, fromP, toP, el);
    }

    /** What is renamed alone is a file, or a directory whose IV stays. */
    lemma RecodedAlone(start: Tree, fromP: Path, toP: Path, el: RenameEl)
      requires naming.Reversible() && !IsList(start, fromP) && Get(start, el.oldCName).Some?
      requires var f, t := EncodePath(naming, fromP, 0), EncodePath(naming, toP, 0);
        el == RenameEl(f.0, t.0, f.1, t.1)
      requires el.oldCName != [] && el.newCName != [] && Get(start, el.newCName).None?
      requires Step(naming, start, el) ==
        MovedTo(start, el.oldCName, el.newCName, Keyed(naming, Get(start, el.oldCName).value, el.oldIV, el.newIV))
      requires Step(naming, start, el).Some?
      ensures HasMoved(naming, start, Step(naming, start, el).value, fromP, toP, Found(start, el))
    {
      hide Get, Put, KeyedAt, Step, MovedTo;
      if !naming.chained {
        SameIV(naming, fromP, 0);
        SameIV(naming, toP, 0);
      }
    }

    /** The case of a directory whose names depend on its IV. */
    method RenameAll(fromP: Path, toP: Path, fromC: Path, toC: Path, faults: Faults)
      returns (ok: bool, ghost trace: Trace)
      requires naming.Reversible()
      requires naming.chained && fromC == EncodePath(naming, fromP, 0).0 && toC == EncodePath(naming, toP, 0).0
      requires Get(disk.root, fromC).Some? && Get(disk.root, fromC).value.Dir?
      modifies disk
      ensures !ok && faults.Harmless() ==> disk.root == old(disk.root)
      ensures !ok ==> Stopped(naming, old(disk.root), disk.root, trace, faults)
      ensures !ok && trace.threw && Codable(old(disk.root), fromP) ==>
        Waiting(naming, old(disk.root), disk.root, fromP, toP, trace.after)
      ensures ok && Codable(old(disk.root), fromP) ==>
        HasMoved(naming, old(disk.root), disk.root, fromP, toP, trace.after)
      ensures AppliedAndThrown(old(disk.root), fromP, toP, faults) ==> !ok && trace.threw
      ensures faults.NoneAtAll() && Codable(old(disk.root), fromP) && NoneClash(old(disk.root), fromP, toP) ==>
        (ok <==> CanMove(old(disk.root), fromC, toC))
    {
      hide *;
      ghost var start, before := disk.root, Get(disk.root, fromC).value;
      ghost var room := HasRoom(start);
      RoomAt(start, fromC, room);
      RenamedExactly(start, fromC, toC);
      CodableIs(start, fromP, toP);
      FaultsAre(faults);
      if AppliedAndThrown(start, fromP, toP, faults) { AppliedFacts(start, fromP, toP, faults); }
      var listed, list := GenRenameList(naming, disk, fromP, toP, room);
      ok, trace := false, Trace(before, [], start, false);
      NoneStopped(naming, start, before, faults);
      if !listed {
        return;
      }
      ghost var after, fails := before, true;
      if Codable(start, fromP) {
        var f, t := EncodePath(naming, fromP, 0), EncodePath(naming, toP, 0);
        fails, after := RecodesHow(naming, list, fromC, before, f.1, t.1);
      }
      ListWorks(naming, start, fromC, list, before, after);
      var renameOp := new RenameOp(naming, disk, list);
      ok := renameOp.Apply(faults);
      trace := Trace(after, list[..renameOp.last], disk.root, false);
      if !ok {
        ApplyStopped(renameOp, start, trace, faults);
        renameOp.Undo(faults);
        return;
      }
      assert trace.done == list;
      ghost var ready := disk.root;
      TakenBackAll(naming, start, ready, trace, faults);
      FinalStep(start, ready, fromP, toP, before, after);
      ok, trace := false, Trace(after, list, ready, true);
      if !faults.thrown {
        var el := RenameEl(fromC, toC, EncodePath(naming, fromP, 0).1, EncodePath(naming, toP, 0).1);
        ok := RenameOne(naming, disk, el, faults.final, faults.thrownAfter);
        trace := Trace(after, list, disk.root, !ok && faults.thrownAfter);
        if !ok && !faults.thrownAfter {
          renameOp.Undo(faults);
        } else if !ok {
          FinalStuck(naming, start, ready, trace, el, faults);
        }
      }
    }

    lemma CodableIs(start: Tree, fromP: Path, toP: Path)
      requires naming.chained && Get(start, EncodePath(naming, fromP, 0).0).Some?
      ensures var f, t := EncodePath(naming, fromP, 0), EncodePath(naming, toP, 0);
        && (Codable(start, fromP) <==> WellNamed(naming, Get(start, f.0).value, f.1))
        && (NoneClash(start, fromP, toP) <==> NoClash(naming, Get(start, f.0).value, f.1, t.1))
    {
    }

    /** After the list: the directory has its new content where it is, and a rename moves that. */
    lemma FinalStep(start: Tree, ready: Tree, fromP: Path, toP: Path, before: Tree, after: Tree)
      requires var f, t := EncodePath(naming, fromP, 0), EncodePath(naming, toP, 0);
        && Get(start, f.0) == Some(before) && before.Dir?
        && (Codable(start, fromP) ==> Set(start, f.0, after) == Some(ready) && Recoded(naming, before, after, f.1, t.1))
      ensures var f, t := EncodePath(naming, fromP, 0), EncodePath(naming, toP, 0);
        var el := RenameEl(f.0, t.0, f.1, t.1); var r := Step(naming, ready, el);
        Codable(start, fromP) ==>
          && KeyedAt(naming, ready, f.0, f.1, t.1) == ready
          && Waiting(naming, start, ready, fromP, toP, after)
          && Renamed(start, f.0, t.0).Some? == r.Some?
          && (r.Some? ==> HasMoved(naming, start, r.value, fromP, toP, after))
    {
      var f, t := EncodePath(naming, fromP, 0), EncodePath(naming, toP, 0);
      if Codable(start, fromP) {
        hide Codable, EncodePath, Get, Put, KeyedAt;
        SetTwice(start, f.0, after, after);
        KeyedIs(naming, ready, f.0, f.1, t.1);
        if f.0 != [] {
          SameRename(start, f.0, t.0, after);
          PutTwice(start, f.0, Some(after), None);
        }
      }
    }
  }

  lemma FaultsAre(faults: Faults)
    ensures faults.Harmless() ==> !faults.thrown && !faults.thrownAfter
    ensures faults.NoneAtAll() ==> faults.Harmless() && !faults.final && faults.Applies()
  {
  }

  lemma NoneStopped(naming: Naming, start: Tree, after: Tree, faults: Faults)
    ensures Stopped(naming, start, start, Trace(after, [], start, false), faults)
  {
  }

  /** Where the disk is left after the renames in `done`. */
  lemma TakenBackAll(naming: Naming, start: Tree, ready: Tree, trace: Trace, faults: Faults)
    requires naming.Reversible() && Applied(naming, start, trace.done) == Some(ready) && trace.left == ready
    ensures var back := Undone(naming, ready, trace.done, faults);
      && Stopped(naming, start, back, trace.(threw := false), faults)
      && (faults.Harmless() ==> back == start)
    ensures faults.thrown || faults.thrownAfter ==> Stopped(naming, start, ready, trace.(threw := true), faults)
  {
    hide Applied, Undone;
    if faults.Harmless() { UndoneAll(naming, start, trace.done, ready, faults); }
  }

  lemma FinalStuck(naming: Naming, start: Tree, ready: Tree, trace: Trace, el: RenameEl, faults: Faults)
    requires Applied(naming, start, trace.done) == Some(ready) && trace.threw && faults.thrownAfter
    requires trace.left == KeyedAt(naming, ready, el.oldCName, el.oldIV, el.newIV)
    ensures Stopped(naming, start, trace.left, trace, faults)
  {
    hide Applied, KeyedAt;
  }

  /** Where it is left if a rename of the list has failed. */
  lemma ApplyStopped(op: RenameOp, start: Tree, trace: Trace, faults: Faults)
    requires op.naming.Reversible() && op.last < |op.renameList|
    requires trace.done == op.renameList[..op.last] && !trace.threw
    requires var t := Applied(op.naming, start, trace.done);
      t.Some? && trace.left == if faults.applyStuck(op.last) then op.KeyedFor(t.value, op.last) else t.value
    requires faults.apply(op.last) || Applied(op.naming, start, op.renameList[..op.last + 1]).None?
    ensures var back := Undone(op.naming, trace.left, trace.done, faults);
      Stopped(op.naming, start, back, trace, faults) && (faults.Harmless() ==> back == start)
    ensures faults.Applies() ==> Applied(op.naming, start, op.renameList).None?
  {
    hide Applied, Undone, KeyedAt;
    ListStops(op.naming, start, op.renameList, op.last, faults);
    if faults.applyStuck(op.last) {
      assert !faults.Harmless();
      assert OneKeyed(op.naming, Applied(op.naming, start, trace.done).value, trace.left);
    }
    if faults.Harmless() { UndoneAll(op.naming, start, trace.done, trace.left, faults); }
  }

  /** Without faults, only a list that cannot be applied stops early. */
  lemma ListStops(naming: Naming, start: Tree, list: seq<RenameEl>, n: nat, faults: Faults)
    requires n < |list| && (faults.apply(n) || Applied(naming, start, list[..n + 1]).None?)
    ensures faults.Applies() ==> Applied(naming, start, list).None?
  {
    hide Applied;
    if faults.Applies() {
      assert list[..n + 1] + list[n + 1..] == list;
      AppliedParts(naming, start, list[..n + 1], list[n + 1..]);
    }
  }

  /** What the list makes of this tree. */
  lemma ListWorks(naming: Naming, start: Tree, p: Path, list: seq<RenameEl>, before: Tree, after: Tree)
    requires Get(start, p) == Some(before)
    ensures Fails(naming, list, p, before) ==> Applied(naming, start, list).None?
    ensures Makes(naming, list, p, before, after) ==>
      Applied(naming, start, list) == Set(start, p, after) && Applied(naming, start, list).Some?
  {
    SetWorks(start, p, after);
  }

  lemma SameIV(naming: Naming, p: Path, iv: bv64)
    requires !naming.chained
    ensures EncodePath(naming, p, iv).1 == iv
    decreases |p|
  {
    if p != [] { SameIV(naming, p[1..], iv); }
  }

  lemma RoomAt(t: Tree, p: Path, room: nat)
    requires Room(t, [], room)
    ensures Room(t, p, room)
  {
    forall q | Get(t, p + q).Some? ensures |q| <= room {
      assert [] + (p + q) == p + q;
    }
  }

  // ----- What the caller finds afterwards -------------------------------------------------------

  /** The names of a plain path, coded under the IVs along it, decode to themselves. */
  ghost predicate Decodes(naming: Naming, p: Path, iv: bv64)
    decreases |p|
  {
    p != [] ==>
      var c := naming.encode(p[0], iv);
      naming.decode(c.0, iv) == Some((p[0], c.1)) && Decodes(naming, p[1..], c.1)
  }

  /** Whatever had a plain path below the old name has it below the new one, on disk under that
      path's coding, and the header of a file is coded under the IV of that path. */
  lemma {:induction false} FoundAgain(naming: Naming, before: Tree, after: Tree, from: bv64, to: bv64, p: Path)
    requires naming.Reversible()
    requires naming.chained && Recoded(naming, before, after, from, to) && Decodes(naming, p, from)
    requires Get(before, EncodePath(naming, p, from).0).Some?
    ensures var x, y := EncodePath(naming, p, from), EncodePath(naming, p, to);
      && Get(after, y.0).Some?
      && Recoded(naming, Get(before, x.0).value, Get(after, y.0).value, x.1, y.1)
    decreases |p|
  {
    if p != [] {
      var c, n := naming.encode(p[0], from), naming.encode(p[0], to);
      var x, y := EncodePath(naming, p, from), EncodePath(naming, p, to);
      assert x.0[1..] == EncodePath(naming, p[1..], c.1).0 && y.0[1..] == EncodePath(naming, p[1..], n.1).0;
      if from == to {
        SameRecoded(naming, Get(before, x.0).value, x.1);
      } else {
        assert NewName(naming, c.0, from, to) == n.0;
        assert RecodedEntry(naming, before.kids[c.0], after.kids[n.0], naming.decode(c.0, from), to);
        FoundAgain(naming, before.kids[c.0], after.kids[n.0], c.1, n.1, p[1..]);
      }
    }
  }

  lemma SameRecoded(naming: Naming, t: Tree, iv: bv64)
    requires naming.Reversible()
    ensures Recoded(naming, t, t, iv, iv)
  {
  }

  /** Every name in a tree decodes, and would decode back under the other IV. */
  ghost predicate AllDecode(naming: Naming, t: Tree, from: bv64, to: bv64)
    decreases t
  {
    t.Dir? ==> forall c :: c in t.kids ==>
      && naming.decode(c, from).Some?
      && var d := naming.decode(c, from).value; var n := naming.encode(d.0, to);
         naming.decode(n.0, to) == Some((d.0, n.1)) && AllDecode(naming, t.kids[c], d.1, n.1)
  }

  /** Nothing has a plain path below the new name that it did not have below the old one. */
  lemma {:induction false} NothingNew(naming: Naming, before: Tree, after: Tree, from: bv64, to: bv64, p: Path)
    requires naming.chained && Recoded(naming, before, after, from, to)
    requires WellNamed(naming, before, from) && AllDecode(naming, before, from, to) && Decodes(naming, p, to)
    requires Get(after, EncodePath(naming, p, to).0).Some?
    ensures Get(before, EncodePath(naming, p, from).0).Some?
    decreases |p|
  {
    if p != [] && from != to {
      var n := naming.encode(p[0], to);
      var x, y := EncodePath(naming, p, from), EncodePath(naming, p, to);
      assert n.0 in after.kids;
      var c := CameFrom(naming, before, after, from, to, p[0]);
      var d := naming.decode(c, from).value;
      hide Recoded, WellNamed, AllDecode, NewName;
      assert x.0[1..] == EncodePath(naming, p[1..], d.1).0 && y.0[1..] == EncodePath(naming, p[1..], n.1).0;
      NothingNew(naming, before.kids[c], after.kids[n.0], d.1, n.1, p[1..]);
    }
  }

  /** The entry that has got the name of a plain name. */
  lemma CameFrom(naming: Naming, before: Tree, after: Tree, from: bv64, to: bv64, name: Name) returns (c: Name)
    requires Recoded(naming, before, after, from, to) && from != to && after.Dir? && before.Dir?
    requires WellNamed(naming, before, from) && AllDecode(naming, before, from, to)
    requires var n := naming.encode(name, to); n.0 in after.kids && naming.decode(n.0, to) == Some((name, n.1))
    ensures var n := naming.encode(name, to);
      && c in before.kids && naming.decode(c, from).Some? && naming.decode(c, from).value.0 == name
      && var d := naming.decode(c, from).value;
         && naming.encode(name, from) == (c, d.1)
         && Recoded(naming, before.kids[c], after.kids[n.0], d.1, n.1)
         && WellNamed(naming, before.kids[c], d.1) && AllDecode(naming, before.kids[c], d.1, n.1)
  {
    var n := naming.encode(name, to);
    c :| c in before.kids && NewName(naming, c, from, to) == n.0;
    assert IsCoded(naming, c, from);
    assert RecodedEntry(naming, before.kids[c], after.kids[n.0], naming.decode(c, from), to);
  }

  // ----- The same on the disk -------------------------------------------------------------------

  /** Whatever had a plain path below the old name is found below the new one, on the disk where
      that path leads, and a file is the same but for its header, which is coded for that path. */
  lemma Relocated(naming: Naming, start: Tree, root: Tree, fromP: Path, toP: Path, after: Tree, p: Path)
    requires HasMoved(naming, start, root, fromP, toP, after) && naming.Reversible()
    requires naming.chained ==> Decodes(naming, p, EncodePath(naming, fromP, 0).1)
    requires Get(start, DiskPath(naming, fromP + p)).Some?
    ensures var x, y := EncodePath(naming, fromP + p, 0), EncodePath(naming, toP + p, 0);
      && Get(root, y.0).Some?
      && Recoded(naming, Get(start, x.0).value, Get(root, y.0).value, x.1, y.1)
      && (Get(start, x.0).value.File? ==>
            Get(root, y.0) == Some(File(naming.rekey(Get(start, x.0).value.raw, x.1, y.1))))
  {
    var f, t := EncodePath(naming, fromP, 0), EncodePath(naming, toP, 0);
    var before := Get(start, f.0).value;
    BothPlaces(naming, start, root, fromP, toP, after, p);
    if naming.chained {
      hide EncodePath, Get, Recoded, Decodes, HasMoved;
      FoundAgain(naming, before, after, f.1, t.1, p);
    } else {
      SameIV(naming, fromP, 0);
      SameIV(naming, toP, 0);
      SameIV(naming, p, 0);
    }
  }

  /** What the disk has below the two names is what the two trees have. */
  lemma BothPlaces(naming: Naming, start: Tree, root: Tree, fromP: Path, toP: Path, after: Tree, p: Path)
    requires HasMoved(naming, start, root, fromP, toP, after)
    ensures var f, t := EncodePath(naming, fromP, 0), EncodePath(naming, toP, 0);
      var x, y := EncodePath(naming, p, f.1), EncodePath(naming, p, t.1);
      && EncodePath(naming, fromP + p, 0) == (f.0 + x.0, x.1) && EncodePath(naming, toP + p, 0) == (t.0 + y.0, y.1)
      && Get(start, f.0 + x.0) == Get(Get(start, f.0).value, x.0)
      && Get(root, t.0 + y.0) == Get(after, y.0)
  {
    var f, t := EncodePath(naming, fromP, 0), EncodePath(naming, toP, 0);
    EncodeAppend(naming, fromP, p, 0);
    EncodeAppend(naming, toP, p, 0);
    GetAppend(start, f.0, EncodePath(naming, p, f.1).0);
    GetAppend(root, t.0, EncodePath(naming, p, t.1).0);
    hide EncodePath, Get, Put, Recoded;
    GetPut(Put(start, f.0, None).value, t.0, Some(after));
  }

  /** Nothing else is found there, if all names can be coded there and back. */
  lemma NothingElse(naming: Naming, start: Tree, root: Tree, fromP: Path, toP: Path, after: Tree, p: Path)
    requires HasMoved(naming, start, root, fromP, toP, after)
    requires var f, t := EncodePath(naming, fromP, 0), EncodePath(naming, toP, 0);
      var before := Get(start, f.0).value;
      naming.chained ==>
        WellNamed(naming, before, f.1) && AllDecode(naming, before, f.1, t.1) && Decodes(naming, p, t.1)
    requires Get(root, DiskPath(naming, toP + p)).Some?
    ensures Get(start, DiskPath(naming, fromP + p)).Some?
  {
    var f, t := EncodePath(naming, fromP, 0), EncodePath(naming, toP, 0);
    var before := Get(start, f.0).value;
    BothPlaces(naming, start, root, fromP, toP, after, p);
    if naming.chained {
      hide EncodePath, Get, Recoded, Decodes, HasMoved, WellNamed, AllDecode;
      NothingNew(naming, before, after, f.1, t.1, p);
    } else {
      SameIV(naming, fromP, 0);
      SameIV(naming, toP, 0);
    }
  }

  /** At the old name there is nothing any more. */
  lemma OldPlaceEmpty(naming: Naming, start: Tree, root: Tree, fromP: Path, toP: Path, after: Tree, p: Path)
    requires HasMoved(naming, start, root, fromP, toP, after)
    ensures Get(root, DiskPath(naming, fromP + p)).None?
  {
    var f, t := EncodePath(naming, fromP, 0).0, EncodePath(naming, toP, 0).0;
    EncodeAppend(naming, fromP, p, 0);
    GetAppend(root, f, EncodePath(naming, p, EncodePath(naming, fromP, 0).1).0);
    if t <= f { GetPrefix(start, t, f); }
    hide EncodePath, Get, Put, Recoded;
    GetPut(start, f, None);
    GetStaysNone(Put(start, f, None).value, t, Some(after), f);
  }

  /** Paths on the disk that neither name is a part of, and that are no part of either, keep what
      they had. */
  lemma ElsewhereSame(naming: Naming, start: Tree, root: Tree, fromP: Path, toP: Path, after: Tree, q: Path)
    requires HasMoved(naming, start, root, fromP, toP, after)
    requires var f, t := DiskPath(naming, fromP), DiskPath(naming, toP);
      !(f <= q) && !(q <= f) && !(t <= q) && !(q <= t)
    ensures Get(root, q) == Get(start, q)
  {
    var f, t := DiskPath(naming, fromP), DiskPath(naming, toP);
    hide EncodePath, Get, Put, Recoded;
    GetElsewhere(start, f, None, q);
    GetElsewhere(Put(start, f, None).value, t, Some(after), q);
  }

  // ----- What an exception leaves ---------------------------------------------------------------

  /** After an exception the disk is as it was exactly if the directory has the same IV in both
      places, or nothing in it decodes. */
  lemma NotTakenBack(naming: Naming, start: Tree, root: Tree, fromP: Path, toP: Path, after: Tree)
    requires Waiting(naming, start, root, fromP, toP, after)
    requires var f, t := EncodePath(naming, fromP, 0), EncodePath(naming, toP, 0);
      Get(start, f.0).value.Dir? && NoClash(naming, Get(start, f.0).value, f.1, t.1)
    ensures var f, t := EncodePath(naming, fromP, 0), EncodePath(naming, toP, 0);
      root == start <==>
        f.1 == t.1 || forall c :: c in Get(start, f.0).value.kids ==> naming.decode(c, f.1).None?
  {
    var f, t := EncodePath(naming, fromP, 0), EncodePath(naming, toP, 0);
    var before := Get(start, f.0).value;
    assert root == start <==> after == before by {
      hide Recoded, EncodePath, NoClash;
      SetTwice(start, f.0, after, after);
      NothingSet(start, f.0);
    }
    hide Get, Set, EncodePath;
    SameRecoding(naming, before, after, f.1, t.1);
  }

  /** Names that decode show when they are coded again. */
  lemma SameRecoding(naming: Naming, before: Tree, after: Tree, from: bv64, to: bv64)
    requires before.Dir? && Recoded(naming, before, after, from, to) && NoClash(naming, before, from, to)
    ensures after == before <==> from == to || forall c :: c in before.kids ==> naming.decode(c, from).None?
  {
    if from != to {
      if c :| c in before.kids && naming.decode(c, from).Some? {
        assert NewNameIsFree(naming, before.kids.Keys, c, from, to);
        assert NewName(naming, c, from, to) in after.kids;
      } else {
        forall c | c in before.kids ensures c in after.kids && after.kids[c] == before.kids[c] {
          assert NewName(naming, c, from, to) == c;
          assert RecodedEntry(naming, before.kids[c], after.kids[c], naming.decode(c, from), to);
        }
        forall n | n in after.kids ensures n in before.kids {
          var c :| c in before.kids && NewName(naming, c, from, to) == n;
        }
        assert after.kids == before.kids;
      }
    }
  }

  // ----- An exception, for example --------------------------------------------------------------

  /** A naming that puts the low byte of the IV behind each name, and whose names have different
      IVs below them. */
  function TailNaming(): Naming {
    Naming(true, (name, iv) => (name + [Tail(iv)], Below(name)),
           (c, iv) => Untailed(c, iv), (raw, from, to) => raw)
  }

  function Tail(iv: bv64): bv8 {
    if iv == 0 then 0 else if iv == 1 then 1 else 2
  }

  function Below(name: Name): bv64 {
    if name != [] && name[0] == 7 then 1 else 2
  }

  function Untailed(c: Name, iv: bv64): Option<(Name, bv64)> {
    if c != [] && c[|c| - 1] == Tail(iv) then Some((c[..|c| - 1], Below(c[..|c| - 1]))) else None
  }

  const OLD_NAME: Name := [7]
  const NEW_NAME: Name := [8]
  const FILE_NAME: Name := [9]

  /** A directory with one file. */
  function OneFile(): Tree {
    Dir(map[[9, 1] := File([])])
  }

  lemma TailFacts()
    ensures TailNaming().Reversible()
    ensures EncodePath(TailNaming(), [OLD_NAME], 0) == ([[7, 0]], 1)
    ensures EncodePath(TailNaming(), [NEW_NAME], 0) == ([[8, 0]], 2)
    ensures TailNaming().decode([9, 1], 1) == Some((FILE_NAME, 2))
  {
    EncodeOne(TailNaming(), OLD_NAME, 0);
    EncodeOne(TailNaming(), NEW_NAME, 0);
    TailCodes();
  }

  lemma EncodeOne(naming: Naming, name: Name, iv: bv64)
    requires naming.chained
    ensures EncodePath(naming, [name], iv) == ([naming.encode(name, iv).0], naming.encode(name, iv).1)
  {
    var n := naming.encode(name, iv);
    assert [name][1..] == [] && EncodePath(naming, [], n.1) == ([], n.1);
    assert [n.0] + [] == [n.0];
  }

  lemma TailCodes()
    ensures TailNaming().encode(OLD_NAME, 0) == ([7, 0], 1) && TailNaming().encode(NEW_NAME, 0) == ([8, 0], 2)
    ensures TailNaming().decode([9, 1], 1) == Some((FILE_NAME, 2))
  {
    assert OLD_NAME[0] == 7 && NEW_NAME[0] == 8 && FILE_NAME[0] == 9;
    assert Below(OLD_NAME) == 1 && Below(NEW_NAME) == 2 && Below(FILE_NAME) == 2;
    assert Tail(0) == 0 && Tail(1) == 1;
    assert OLD_NAME + [Tail(0)] == [7, 0] && NEW_NAME + [Tail(0)] == [8, 0];
    var c: Name := [9, 1];
    assert c[..|c| - 1] == FILE_NAME && c[|c| - 1] == 1;
    assert Untailed(c, 1) == Some((FILE_NAME, 2));
  }

  lemma TailWorks()
    ensures WellNamed(TailNaming(), OneFile(), 1) && NoClash(TailNaming(), OneFile(), 1, 2)
  {
    TailFacts();
    var naming := TailNaming();
    assert FILE_NAME + [1] == [9, 1];
    var n: Name := FILE_NAME + [2];
    assert n[1] == 2;
    assert NewName(naming, [9, 1], 1, 2) == n;
  }

  /** An exception before the last rename: the directory is still at its old place, but its file is
      not where it was. */
  method ThrownRename() returns (ok: bool, disk: Disk, ghost before: Tree)
    ensures fresh(disk) && before == Dir(map[[7, 0] := OneFile()])
    ensures !ok && disk.root != before
    ensures Get(disk.root, [[7, 0]]).Some? && Get(disk.root, [[8, 0]]).None?
  {
    hide *;
    TailFacts();
    TailWorks();
    disk := new Disk(Dir(map[[7, 0] := OneFile()]));
    before := disk.root;
    var dirNode := new DirNode(TailNaming(), disk);
    var quiet := (k: nat) => false;
    var faults := Faults(quiet, quiet, quiet, quiet, false, true, false);
    ghost var trace;
    ThrownStart(dirNode, faults);
    ok, trace := dirNode.Rename([OLD_NAME], [NEW_NAME], faults);
    ThrownEnd(before, disk.root, trace.after);
  }

  lemma ThrownStart(dirNode: DirNode, faults: Faults)
    requires dirNode.naming == TailNaming() && faults.thrown && forall k: nat :: !faults.apply(k)
    ensures var start := Dir(map[[7, 0] := OneFile()]);
      && dirNode.AppliedAndThrown(start, [OLD_NAME], [NEW_NAME], faults) && dirNode.IsList(start, [OLD_NAME])
      && dirNode.Codable(start, [OLD_NAME])
  {
    TailFacts();
    TailWorks();
    ThrownPlace();
    hide TailNaming, WellNamed, NoClash, EncodePath, Get, OneFile;
    assert OneFile().Dir? && TailNaming().chained by { SmallFacts(); }
  }

  lemma SmallFacts()
    ensures OneFile().Dir? && TailNaming().chained
  {
  }

  lemma ThrownPlace()
    ensures Get(Dir(map[[7, 0] := OneFile()]), [[7, 0]]) == Some(OneFile())
    ensures Get(Dir(map[[7, 0] := OneFile()]), [[8, 0]]) == None
  {
    var p, q: Path := [[7, 0]], [[8, 0]];
    assert p[1..] == [] && q[0] == [8, 0];
    assert Get(OneFile(), []) == Some(OneFile());
    var a, b: Name := [7, 0], [8, 0];
    assert a[0] != b[0];
  }

  lemma ThrownEnd(before: Tree, root: Tree, after: Tree)
    requires before == Dir(map[[7, 0] := OneFile()])
    requires Waiting(TailNaming(), before, root, [OLD_NAME], [NEW_NAME], after)
    ensures root != before && Get(root, [[7, 0]]).Some? && Get(root, [[8, 0]]).None?
  {
    TailFacts();
    TailWorks();
    ThrownPlace();
    NotTakenBack(TailNaming(), before, root, [OLD_NAME], [NEW_NAME], after);
    var p, q: Path := [[7, 0]], [[8, 0]];
    var a, b: Name := [7, 0], [8, 0];
    assert a[0] != b[0] && p[0] != q[0];
    hide TailNaming, Recoded, WellNamed, NoClash, EncodePath, Get, Put;
    assert [9, 1] in OneFile().kids;
    SetTwice(before, p, after, after);
    GetElsewhere(before, p, Some(after), q);
  }
}

/** The naming of directory entries that NameIO gives, with chaining. */
module DirNaming {
  import opened Options
  import opened Names
  import opened NamePath
  import opened DiskTree
  import opened DirNodeModel

  function EntryNaming(coder: Coder, rekey: Rekey): Naming
    requires coder.Usable()
  {
    Naming(true, (n, iv) => EncodeEntry(coder, n, iv), (c, iv) => DecodeEntry(coder, c, iv), rekey)
  }

  function EncodeEntry(coder: Coder, name: Name, iv: bv64): (Name, bv64)
  {
    if !coder.Usable() || name == [] then (name, iv)
    else
      match RecodeName(coder, Encode, name, Some(iv))
      case Err(_) => (name, iv)
      case Ok(c) => (c.name, if c.iv.Some? then c.iv.value else iv)
  }

  function DecodeEntry(coder: Coder, name: Name, iv: bv64): Option<(Name, bv64)>
  {
    if !coder.Usable() || name == [] then None
    else
      match RecodeName(coder, Decode, name, Some(iv))
      case Err(_) => None
      case Ok(c) => Some((c.name, if c.iv.Some? then c.iv.value else iv))
  }

  predicate IsName(name: Name) {
    name != [] && HasNo(name, SLASH) && HasNo(name, 0)
  }

  lemma EntryRoundTrip(coder: Coder, name: Name, iv: bv64)
    requires coder.Valid() && coder.Usable() && IsName(name)
    ensures var e := EncodeEntry(coder, name, iv);
      IsName(e.0) && DecodeEntry(coder, e.0, iv) == Some((name, e.1))
  {
    hide RecodeName, Coder.Valid;
    NameBack(coder, name, Some(iv));
  }

  /** Paths made of names decode to themselves, whatever the IV they start with. */
  lemma {:induction false} PathDecodes(coder: Coder, rekey: Rekey, p: Path, iv: bv64)
    requires coder.Valid() && coder.Usable() && forall k :: 0 <= k < |p| ==> IsName(p[k])
    ensures Decodes(EntryNaming(coder, rekey), p, iv)
    decreases |p|
  {
    if p != [] {
      EntryRoundTrip(coder, p[0], iv);
      assert forall k :: 0 <= k < |p[1..]| ==> p[1..][k] == p[k + 1];
      PathDecodes(coder, rekey, p[1..], EncodeEntry(coder, p[0], iv).1);
    }
  }

  function Joined(p: Path): seq<bv8>
    decreases |p|
  {
    if p == [] then [] else Joined(p[..|p| - 1]) + (if |p| > 1 then [SLASH] else []) + p[|p| - 1]
  }

  /** Coding a path as a string is coding its names one below the other. */
  lemma {:induction false} JoinedPath(io: NameIO, rekey: Rekey, p: Path, iv: bv64)
    requires io.Valid() && io.chained && forall k :: 0 <= k < |p| ==> IsName(p[k])
    ensures var c := EncodePath(EntryNaming(io.coder, rekey), p, iv);
      && io.PathCode(Encode, Joined(p), iv) == Ok((Joined(c.0), c.1))
      && |c.0| == |p| && (p != [] ==> Joined(c.0) != [])
    decreases |p|
  {
    if p != [] {
      var dir, name := p[..|p| - 1], p[|p| - 1];
      assert dir + [name] == p;
      JoinedPath(io, rekey, dir, iv);
      EncodeBelow(EntryNaming(io.coder, rekey), dir, name, iv);
      var c := EncodePath(EntryNaming(io.coder, rekey), dir, iv);
      var n := EncodeEntry(io.coder, name, c.1);
      EntryRoundTrip(io.coder, name, c.1);
      assert (c.0 + [n.0])[..|c.0|] == c.0;
      JoinedBelow(io, rekey, dir, name, iv);
    }
  }

  lemma JoinedBelow(io: NameIO, rekey: Rekey, dir: Path, name: Name, iv: bv64)
    requires io.Valid() && io.chained && IsName(name)
    requires var c := EncodePath(EntryNaming(io.coder, rekey), dir, iv);
      && io.PathCode(Encode, Joined(dir), iv) == Ok((Joined(c.0), c.1))
      && |c.0| == |dir| && (dir != [] ==> Joined(c.0) != [])
    ensures var c := EncodePath(EntryNaming(io.coder, rekey), dir, iv); var n := EncodeEntry(io.coder, name, c.1);
      io.PathCode(Encode, Joined(dir + [name]), iv) == Ok((Joined(c.0 + [n.0]), n.1))
  {
    var c := EncodePath(EntryNaming(io.coder, rekey), dir, iv);
    var n := EncodeEntry(io.coder, name, c.1);
    NameBack(io.coder, name, Some(c.1));
    NameIVKept(io.coder, Encode, name, Some(c.1));
    assert (dir + [name])[..|dir|] == dir && (c.0 + [n.0])[..|c.0|] == c.0;
    hide RecodeName, Recode, EncodePath;
    if dir == [] {
      assert Joined(dir + [name]) == name by { assert [] + [] + name == name; }
      assert Joined(c.0 + [n.0]) == n.0 by { assert [] + [] + n.0 == n.0; }
      FirstOfPath(io, name, iv);
    } else {
      assert Joined(dir + [name]) == Joined(dir) + [SLASH] + name;
      io.PathBelow(Encode, Joined(dir), name, iv);
    }
  }

  lemma FirstOfPath(io: NameIO, name: Name, iv: bv64)
    requires io.Valid() && io.chained && IsName(name)
    ensures io.PathCode(Encode, name, iv) ==
      match RecodeName(io.coder, Encode, name, Some(iv))
      case Err(e) => Err(e)
      case Ok(n) => Ok((n.name, if n.iv.Some? then n.iv.value else iv))
  {
    hide RecodeName;
    NameFirst(io.coder, Encode, name, [], Some(iv), false);
    assert name + [] == name;
    var r := RecodeName(io.coder, Encode, name, Some(iv));
    if r.Ok? { assert r.value.name + [] == r.value.name; }
  }

  // ----- A rename in terms of path strings ------------------------------------------------------

  predicate Named(p: Path) {
    forall k :: 0 <= k < |p| ==> IsName(p[k])
  }

  /** Every entry of the tree decodes, to a name. */
  predicate EveryName(coder: Coder, t: Tree, iv: bv64)
    decreases t
  {
    t.Dir? ==> forall c :: c in t.kids ==>
      var d := DecodeEntry(coder, c, iv);
      d.Some? && IsName(d.value.0) && EveryName(coder, t.kids[c], d.value.1)
  }

  lemma {:induction false} EveryNameDecodes(coder: Coder, rekey: Rekey, t: Tree, from: bv64, to: bv64)
    requires coder.Valid() && coder.Usable() && EveryName(coder, t, from)
    ensures AllDecode(EntryNaming(coder, rekey), t, from, to)
    decreases t
  {
    if t.Dir? {
      var naming := EntryNaming(coder, rekey);
      hide RecodeName, Coder.Valid, IsName, EncodeEntry, DecodeEntry;
      forall c | c in t.kids
        ensures naming.decode(c, from).Some?
        ensures var d := naming.decode(c, from).value; var n := naming.encode(d.0, to);
          naming.decode(n.0, to) == Some((d.0, n.1)) && AllDecode(naming, t.kids[c], d.1, n.1)
      {
        var d := DecodeEntry(coder, c, from).value;
        EntryRoundTrip(coder, d.0, to);
        EveryNameDecodes(coder, rekey, t.kids[c], d.1, EncodeEntry(coder, d.0, to).1);
      }
    }
  }

  /** After a rename, a path string below the new name leads to what the same one below the old
      name led to: there is nothing at the old one, and nothing more at the new one. */
  lemma RenamedPaths(io: NameIO, rekey: Rekey, start: Tree, root: Tree, fromP: Path, toP: Path, after: Tree, p: Path)
    requires io.Valid() && io.chained && Named(fromP) && Named(toP) && Named(p)
    requires EntryNaming(io.coder, rekey).Reversible()
    requires HasMoved(EntryNaming(io.coder, rekey), start, root, fromP, toP, after)
    ensures var naming := EntryNaming(io.coder, rekey);
      var x, y := EncodePath(naming, fromP + p, 0), EncodePath(naming, toP + p, 0);
      && io.PathCode(Encode, Joined(fromP + p), 0) == Ok((Joined(x.0), x.1))
      && io.PathCode(Encode, Joined(toP + p), 0) == Ok((Joined(y.0), y.1))
      && Get(root, x.0).None?
      && (Get(start, x.0).Some? ==> Get(root, y.0).Some?)
      && (Get(start, x.0).Some? && Get(start, x.0).value.File? ==>
            Get(root, y.0) == Some(File(rekey(Get(start, x.0).value.raw, x.1, y.1))))
    ensures var naming := EntryNaming(io.coder, rekey); var f := EncodePath(naming, fromP, 0);
      WellNamed(naming, Get(start, f.0).value, f.1) && EveryName(io.coder, Get(start, f.0).value, f.1) ==>
        (Get(root, DiskPath(naming, toP + p)).Some? <==> Get(start, DiskPath(naming, fromP + p)).Some?)
  {
    var naming := EntryNaming(io.coder, rekey);
    var f, t := EncodePath(naming, fromP, 0), EncodePath(naming, toP, 0);
    JoinedPath(io, rekey, fromP + p, 0);
    JoinedPath(io, rekey, toP + p, 0);
    PathDecodes(io.coder, rekey, p, f.1);
    PathDecodes(io.coder, rekey, p, t.1);
    OldPlaceEmpty(naming, start, root, fromP, toP, after, p);
    var before := Get(start, f.0).value;
    hide RecodeName, Coder.Valid, IsName, EncodeEntry, DecodeEntry, EncodePath, Recoded, Decodes, Get, Put;
    if Get(start, DiskPath(naming, fromP + p)).Some? {
      Relocated(naming, start, root, fromP, toP, after, p);
    } else if Get(root, DiskPath(naming, toP + p)).Some?
              && WellNamed(naming, before, f.1) && EveryName(io.coder, before, f.1) {
      EveryNameDecodes(io.coder, rekey, before, f.1, t.1);
      NothingElse(naming, start, root, fromP, toP, after, p);
    }
  }
}
