/** What the user sees of a volume: a tree with plain names and plain files, which the tree on disk
    codes. Renaming on disk, with everything that has to be coded again, renames in this tree. */
module PlainTree {
  import opened Options
  import opened DiskTree
  import opened DirNodeModel

  /** What a raw file decodes to under the IV that its path leaves. */
  type Reader = (seq<bv8>, bv64) -> seq<bv8>

  /** A coded name decodes to itself, and both ways lead to the same IV. */
  predicate NameReturns(naming: Naming, name: Name, iv: bv64) {
    var c := naming.encode(name, iv);
    naming.decode(c.0, iv) == Some((name, c.1))
  }

  /** The IV of the names in a directory, or of the file, with this name. */
  function Child(naming: Naming, name: Name, iv: bv64): bv64 {
    if naming.chained then naming.encode(name, iv).1 else iv
  }

  ghost predicate Readable(naming: Naming, p: Path, iv: bv64)
    decreases |p|
  {
    p != [] ==> NameReturns(naming, p[0], iv) && Readable(naming, p[1..], Child(naming, p[0], iv))
  }

  /** All names in a plain tree come back under the IVs they have below `iv`. */
  predicate AllReturn(naming: Naming, plain: Tree, iv: bv64)
    decreases plain
  {
    plain.Dir? ==> forall n :: n in plain.kids ==>
      NameReturns(naming, n, iv) && AllReturn(naming, plain.kids[n], Child(naming, n, iv))
  }

  /** The disk has what the plain tree has, under coded names and in coded files, and nothing else. */
  ghost predicate Codes(naming: Naming, read: Reader, plain: Tree, disk: Tree, iv: bv64)
    decreases plain
  {
    match plain
    case File(data) => disk.File? && read(disk.raw, iv) == data
    case Dir(kids) =>
      && disk.Dir?
      && (forall c :: c in disk.kids ==> exists n :: n in kids && naming.encode(n, iv).0 == c)
      && (forall n :: n in kids ==>
            && NameReturns(naming, n, iv)
            && naming.encode(n, iv).0 in disk.kids
            && Codes(naming, read, kids[n], disk.kids[naming.encode(n, iv).0], Child(naming, n, iv)))
  }

  /** Coding the header of a file again for another IV keeps what it decodes to. */
  ghost predicate KeepsContents(naming: Naming, read: Reader) {
    forall raw, from, to :: read(naming.rekey(raw, from, to), to) == read(raw, from)
  }

  // ----- The names ------------------------------------------------------------------------------

  /** An entry with a coded name belongs to the plain entry of that name. */
  lemma EntryFound(naming: Naming, read: Reader, plain: Tree, disk: Tree, iv: bv64, name: Name)
    requires Codes(naming, read, plain, disk, iv) && NameReturns(naming, name, iv)
    ensures plain.Dir? == disk.Dir?
    ensures plain.Dir? ==> (name in plain.kids <==> naming.encode(name, iv).0 in disk.kids)
  {
    if plain.Dir? && naming.encode(name, iv).0 in disk.kids {
      var n :| n in plain.kids && naming.encode(n, iv).0 == naming.encode(name, iv).0;
      assert NameReturns(naming, n, iv);
    }
  }

  lemma EncodeFirst(naming: Naming, p: Path, iv: bv64)
    requires p != []
    ensures var e, rest := EncodePath(naming, p, iv), EncodePath(naming, p[1..], Child(naming, p[0], iv));
      && e == ([naming.encode(p[0], iv).0] + rest.0, rest.1)
      && e.0[0] == naming.encode(p[0], iv).0 && e.0[1..] == rest.0
  {
  }

  lemma {:induction false} EncodeSize(naming: Naming, p: Path, iv: bv64)
    ensures |EncodePath(naming, p, iv).0| == |p|
    decreases |p|
  {
    if p != [] { EncodeSize(naming, p[1..], Child(naming, p[0], iv)); }
  }

  /** A plain path leads to something exactly if its coding does, and what that is codes what the
      plain path leads to. */
  lemma {:induction false} CodesGet(naming: Naming, read: Reader, plain: Tree, disk: Tree, iv: bv64, p: Path)
    requires Codes(naming, read, plain, disk, iv) && Readable(naming, p, iv)
    ensures var e := EncodePath(naming, p, iv); var x, y := Get(plain, p), Get(disk, e.0);
      && x.Some? == y.Some?
      && (x.Some? ==> Codes(naming, read, x.value, y.value, e.1) && x.value.Dir? == y.value.Dir?)
    decreases |p|
  {
    if p != [] {
      EncodeFirst(naming, p, iv);
      EntryFound(naming, read, plain, disk, iv, p[0]);
      hide EncodePath, NameReturns;
      if plain.Dir? && p[0] in plain.kids {
        var c, next := naming.encode(p[0], iv).0, Child(naming, p[0], iv);
        CodesGet(naming, read, plain.kids[p[0]], disk.kids[c], next, p[1..]);
      }
    }
  }

  /** Codings are below each other exactly if the plain paths are. */
  lemma {:induction false} PrefixBoth(naming: Naming, p: Path, q: Path, iv: bv64)
    requires Readable(naming, p, iv) && Readable(naming, q, iv)
    ensures EncodePath(naming, p, iv).0 <= EncodePath(naming, q, iv).0 <==> p <= q
    decreases |p|
  {
    EncodeSize(naming, p, iv);
    EncodeSize(naming, q, iv);
    if p != [] && q != [] {
      var e, f := EncodePath(naming, p, iv).0, EncodePath(naming, q, iv).0;
      EncodeFirst(naming, p, iv);
      EncodeFirst(naming, q, iv);
      hide EncodePath;
      assert p == [p[0]] + p[1..] && q == [q[0]] + q[1..] && e == [e[0]] + e[1..] && f == [f[0]] + f[1..];
      if p[0] == q[0] {
        PrefixBoth(naming, p[1..], q[1..], Child(naming, p[0], iv));
      }
    }
  }

  lemma {:induction false} ReadableParent(naming: Naming, p: Path, iv: bv64)
    requires p != [] && Readable(naming, p, iv)
    ensures |EncodePath(naming, p, iv).0| == |p| && Readable(naming, p[..|p| - 1], iv)
    ensures EncodePath(naming, p[..|p| - 1], iv).0 == EncodePath(naming, p, iv).0[..|p| - 1]
    decreases |p|
  {
    EncodeSize(naming, p, iv);
    if |p| > 1 {
      var next := Child(naming, p[0], iv);
      assert p[..|p| - 1][1..] == p[1..][..|p| - 2];
      ReadableParent(naming, p[1..], next);
      EncodeSize(naming, p[1..], next);
      EncodeFirst(naming, p, iv);
      EncodeFirst(naming, p[..|p| - 1], iv);
    }
  }

  /** A rename is possible on disk exactly if it is in the plain tree. */
  lemma CanMoveBoth(naming: Naming, read: Reader, plain: Tree, disk: Tree, from: Path, to: Path)
    requires Codes(naming, read, plain, disk, 0) && Readable(naming, from, 0) && Readable(naming, to, 0)
    ensures CanMove(disk, DiskPath(naming, from), DiskPath(naming, to)) <==> CanMove(plain, from, to)
  {
    hide Codes, Readable, EncodePath, Get;
    EncodeSize(naming, from, 0);
    EncodeSize(naming, to, 0);
    CodesGet(naming, read, plain, disk, 0, from);
    CodesGet(naming, read, plain, disk, 0, to);
    PrefixBoth(naming, from, to, 0);
    if to != [] {
      ReadableParent(naming, to, 0);
      CodesGet(naming, read, plain, disk, 0, to[..|to| - 1]);
    }
  }

  // ----- Changing both trees --------------------------------------------------------------------

  /** Putting something in the plain tree, and what codes it at the coded path on disk. */
  lemma {:induction false} CodesPut(naming: Naming, read: Reader, plain: Tree, disk: Tree, iv: bv64, p: Path,
                                    sub: Option<Tree>, coded: Option<Tree>)
    requires Codes(naming, read, plain, disk, iv) && p != [] && Readable(naming, p, iv)
    requires Put(plain, p, sub).Some? && Put(disk, EncodePath(naming, p, iv).0, coded).Some?
    requires match (sub, coded)
      case (Some(s), Some(c)) => Codes(naming, read, s, c, EncodePath(naming, p, iv).1)
      case (None, None) => true
      case _ => false
    ensures Codes(naming, read, Put(plain, p, sub).value, Put(disk, EncodePath(naming, p, iv).0, coded).value, iv)
    decreases |p|
  {
    EncodeFirst(naming, p, iv);
    EncodeSize(naming, p, iv);
    EntryFound(naming, read, plain, disk, iv, p[0]);
    var c, next := naming.encode(p[0], iv).0, Child(naming, p[0], iv);
    var e := EncodePath(naming, p, iv);
    assert EncodePath(naming, [], next) == ([], next);
    hide EncodePath;
    if |p| == 1 {
      assert p[1..] == [] && e.1 == next;
      EntryPut(naming, read, plain, disk, iv, p[0], sub, coded);
    } else {
      CodesPut(naming, read, plain.kids[p[0]], disk.kids[c], next, p[1..], sub, coded);
      EntryPut(naming, read, plain, disk, iv, p[0],
               Put(plain.kids[p[0]], p[1..], sub), Put(disk.kids[c], e.0[1..], coded));
    }
  }

  lemma EntryPut(naming: Naming, read: Reader, plain: Tree, disk: Tree, iv: bv64, name: Name,
                 sub: Option<Tree>, coded: Option<Tree>)
    requires Codes(naming, read, plain, disk, iv) && plain.Dir? && disk.Dir? && NameReturns(naming, name, iv)
    requires match (sub, coded)
      case (Some(s), Some(c)) => Codes(naming, read, s, c, Child(naming, name, iv))
      case (None, None) => true
      case _ => false
    ensures Codes(naming, read, Dir(WithEntry(plain.kids, name, sub)),
                  Dir(WithEntry(disk.kids, naming.encode(name, iv).0, coded)), iv)
  {
    var at := naming.encode(name, iv).0;
    var kids, entries := WithEntry(plain.kids, name, sub), WithEntry(disk.kids, at, coded);
    forall n | n in plain.kids && n != name ensures naming.encode(n, iv).0 != at {
      assert NameReturns(naming, n, iv);
    }
    forall c | c in entries ensures exists n :: n in kids && naming.encode(n, iv).0 == c {
      if c != at {
        var n :| n in plain.kids && naming.encode(n, iv).0 == c;
        assert n in kids;
      }
    }
  }

  /** A tree that is coded again codes the same plain tree under the new IV. */
  lemma {:induction false} RecodedCodes(naming: Naming, read: Reader, plain: Tree, before: Tree, after: Tree,
                                        from: bv64, to: bv64)
    requires naming.chained && KeepsContents(naming, read)
    requires Codes(naming, read, plain, before, from) && Recoded(naming, before, after, from, to)
    requires AllReturn(naming, plain, to)
    ensures Codes(naming, read, plain, after, to)
    decreases plain
  {
    hide KeepsContents, Recoded, Codes, AllReturn;
    BothDirs(naming, read, plain, before, after, from, to);
    if plain.Dir? && from != to {
      forall n | n in plain.kids
        ensures naming.encode(n, to).0 in after.kids && NameReturns(naming, n, to)
        ensures Codes(naming, read, plain.kids[n], after.kids[naming.encode(n, to).0], Child(naming, n, to))
      {
        var c, d := EntryRecoded(naming, read, plain, before, after, from, to, n);
        RecodedCodes(naming, read, plain.kids[n], before.kids[c], after.kids[d],
                     Child(naming, n, from), Child(naming, n, to));
      }
      forall d | d in after.kids ensures exists n :: n in plain.kids && naming.encode(n, to).0 == d {
        var n := EntryFrom(naming, read, plain, before, after, from, to, d);
      }
      CodesDir(naming, read, plain, after, to);
    } else {
      SameOrFile(naming, read, plain, before, after, from, to);
    }
  }

  lemma SameOrFile(naming: Naming, read: Reader, plain: Tree, before: Tree, after: Tree, from: bv64, to: bv64)
    requires KeepsContents(naming, read) && (plain.File? || from == to)
    requires Codes(naming, read, plain, before, from) && Recoded(naming, before, after, from, to)
    ensures Codes(naming, read, plain, after, to)
  {
  }

  lemma EntryRecoded(naming: Naming, read: Reader, plain: Tree, before: Tree, after: Tree, from: bv64, to: bv64,
                     n: Name) returns (c: Name, d: Name)
    requires naming.chained && plain.Dir? && from != to && n in plain.kids
    requires Codes(naming, read, plain, before, from) && Recoded(naming, before, after, from, to)
    requires AllReturn(naming, plain, to)
    ensures before.Dir? && after.Dir? && c in before.kids && d in after.kids && d == naming.encode(n, to).0
    ensures Codes(naming, read, plain.kids[n], before.kids[c], Child(naming, n, from))
    ensures Recoded(naming, before.kids[c], after.kids[d], Child(naming, n, from), Child(naming, n, to))
    ensures NameReturns(naming, n, to) && AllReturn(naming, plain.kids[n], Child(naming, n, to))
  {
    c, d := naming.encode(n, from).0, naming.encode(n, to).0;
    assert NameReturns(naming, n, from) && NewName(naming, c, from, to) == d;
    assert RecodedEntry(naming, before.kids[c], after.kids[d], naming.decode(c, from), to);
  }

  /** A tree that is coded again has an entry for each plain one and no other. */
  lemma EntryFrom(naming: Naming, read: Reader, plain: Tree, before: Tree, after: Tree, from: bv64, to: bv64, d: Name)
    returns (n: Name)
    requires plain.Dir? && from != to && after.Dir? && d in after.kids
    requires Codes(naming, read, plain, before, from) && Recoded(naming, before, after, from, to)
    ensures n in plain.kids && naming.encode(n, to).0 == d
  {
    var c: Name :| c in before.kids && NewName(naming, c, from, to) == d;
    n := Behind(naming, read, plain, before, from, c);
  }

  lemma BothDirs(naming: Naming, read: Reader, plain: Tree, before: Tree, after: Tree, from: bv64, to: bv64)
    requires Codes(naming, read, plain, before, from) && Recoded(naming, before, after, from, to)
    ensures plain.Dir? ==> before.Dir? && after.Dir?
  {
  }

  lemma CodesDir(naming: Naming, read: Reader, plain: Tree, disk: Tree, iv: bv64)
    requires plain.Dir? && disk.Dir?
    requires forall n :: n in plain.kids ==>
      && naming.encode(n, iv).0 in disk.kids && NameReturns(naming, n, iv)
      && Codes(naming, read, plain.kids[n], disk.kids[naming.encode(n, iv).0], Child(naming, n, iv))
    requires forall c :: c in disk.kids ==> exists n :: n in plain.kids && naming.encode(n, iv).0 == c
    ensures Codes(naming, read, plain, disk, iv)
  {
  }

  /** After a rename on disk the disk codes the plain tree with that rename. */
  lemma RenamedTree(naming: Naming, read: Reader, plain: Tree, start: Tree, root: Tree, fromP: Path, toP: Path,
                    after: Tree)
    requires naming.Reversible() && KeepsContents(naming, read)
    requires Codes(naming, read, plain, start, 0) && Readable(naming, fromP, 0) && Readable(naming, toP, 0)
    requires HasMoved(naming, start, root, fromP, toP, after)
    requires naming.chained && Get(plain, fromP).Some? ==>
      AllReturn(naming, Get(plain, fromP).value, EncodePath(naming, toP, 0).1)
    ensures Renamed(plain, fromP, toP).Some? && Codes(naming, read, Renamed(plain, fromP, toP).value, root, 0)
  {
    hide Codes, Readable, EncodePath, Get, Put, Recoded, AllReturn, KeepsContents;
    var f, t := EncodePath(naming, fromP, 0), EncodePath(naming, toP, 0);
    var sub := Get(plain, fromP);
    EncodeSize(naming, fromP, 0);
    EncodeSize(naming, toP, 0);
    CodesGet(naming, read, plain, start, 0, fromP);
    CodesGet(naming, read, plain, start, 0, toP);
    SubCodes(naming, read, sub.value, Get(start, f.0).value, after, fromP, toP);
    PutWhereFound(plain, fromP, None);
    CodesPut(naming, read, plain, start, 0, fromP, None, None);
    var rest, left := Put(plain, fromP, None).value, Put(start, f.0, None).value;
    PutSame(left, t.0, Some(after), Get(start, f.0));
    RenamedExactly(start, f.0, t.0);
    CanMoveBoth(naming, read, plain, start, fromP, toP);
    RenamedExactly(plain, fromP, toP);
    CodesPut(naming, read, rest, left, 0, toP, sub, Some(after));
  }

  lemma SubCodes(naming: Naming, read: Reader, sub: Tree, before: Tree, after: Tree, fromP: Path, toP: Path)
    requires naming.Reversible() && KeepsContents(naming, read)
    requires var f, t := EncodePath(naming, fromP, 0), EncodePath(naming, toP, 0);
      && Codes(naming, read, sub, before, f.1) && Recoded(naming, before, after, f.1, t.1)
      && (naming.chained ==> AllReturn(naming, sub, t.1))
    ensures Codes(naming, read, sub, after, EncodePath(naming, toP, 0).1)
  {
    var f, t := EncodePath(naming, fromP, 0), EncodePath(naming, toP, 0);
    if naming.chained {
      RecodedCodes(naming, read, sub, before, after, f.1, t.1);
    } else {
      SameIV(naming, fromP, 0);
      SameIV(naming, toP, 0);
      assert after == before;
    }
  }

  // ----- What is asked of the names in a directory ------------------------------------------------

  /** A disk that codes a plain tree has only names that decode, and decode as what they code. */
  lemma {:induction false} CodedNames(naming: Naming, read: Reader, plain: Tree, disk: Tree, iv: bv64, to: bv64)
    requires naming.chained && Codes(naming, read, plain, disk, iv)
    ensures WellNamed(naming, disk, iv)
    ensures AllReturn(naming, plain, to) ==> AllDecode(naming, disk, iv, to)
    decreases plain
  {
    if plain.Dir? {
      forall c | c in disk.kids
        ensures naming.decode(c, iv).Some? && IsCoded(naming, c, iv)
        ensures WellNamed(naming, disk.kids[c], naming.decode(c, iv).value.1)
        ensures AllReturn(naming, plain, to) ==>
          var d := naming.decode(c, iv).value; var n := naming.encode(d.0, to);
          naming.decode(n.0, to) == Some((d.0, n.1)) && AllDecode(naming, disk.kids[c], d.1, n.1)
      {
        var n :| n in plain.kids && naming.encode(n, iv).0 == c;
        assert NameReturns(naming, n, iv);
        CodedNames(naming, read, plain.kids[n], disk.kids[c], Child(naming, n, iv), Child(naming, n, to));
      }
    }
  }

  /** An entry that does not decode, such as a foreign file, is not asked for anything, and stays. */
  lemma ForeignStays(naming: Naming, kids: map<Name, Tree>, after: Tree, from: bv64, to: bv64, c: Name)
    requires c in kids && naming.decode(c, from).None?
    ensures WellNamed(naming, Dir(kids), from) <==> WellNamed(naming, Dir(kids - {c}), from)
    ensures Recoded(naming, Dir(kids), after, from, to) ==>
      after.Dir? && c in after.kids && after.kids[c] == kids[c]
  {
    if Recoded(naming, Dir(kids), after, from, to) && from != to {
      assert NewName(naming, c, from, to) == c;
      assert RecodedEntry(naming, kids[c], after.kids[c], naming.decode(c, from), to);
    }
  }

  /** Names coded under different IVs are different. */
  ghost predicate SetApart(naming: Naming) {
    forall m, n, a, b :: a != b ==> naming.encode(m, a).0 != naming.encode(n, b).0
  }

  /** Then no two names get in each other's way when a directory is coded again. */
  lemma {:induction false} NeverClash(naming: Naming, read: Reader, plain: Tree, disk: Tree, from: bv64, to: bv64)
    requires naming.chained && SetApart(naming) && Codes(naming, read, plain, disk, from)
    requires AllReturn(naming, plain, to)
    ensures NoClash(naming, disk, from, to)
    decreases plain
  {
    if plain.Dir? && from != to {
      forall c | c in disk.kids
        ensures NewNameIsFree(naming, disk.kids.Keys, c, from, to)
        ensures var d := naming.decode(c, from).value;
          NoClash(naming, disk.kids[c], d.1, naming.encode(d.0, to).1)
      {
        var n := Behind(naming, read, plain, disk, from, c);
        forall d | d in disk.kids ensures d != NewName(naming, c, from, to)
          ensures d != c ==> NewName(naming, d, from, to) != NewName(naming, c, from, to)
        {
          var m := Behind(naming, read, plain, disk, from, d);
          assert NameReturns(naming, m, to) && NameReturns(naming, n, to);
        }
        NeverClash(naming, read, plain.kids[n], disk.kids[c], Child(naming, n, from), Child(naming, n, to));
      }
    }
  }

  lemma Behind(naming: Naming, read: Reader, plain: Tree, disk: Tree, iv: bv64, c: Name) returns (n: Name)
    requires Codes(naming, read, plain, disk, iv) && plain.Dir? && c in disk.kids
    ensures n in plain.kids && naming.encode(n, iv).0 == c && naming.decode(c, iv) == Some((n, naming.encode(n, iv).1))
    ensures Codes(naming, read, plain.kids[n], disk.kids[c], Child(naming, n, iv))
  {
    n :| n in plain.kids && naming.encode(n, iv).0 == c;
    assert NameReturns(naming, n, iv);
  }
}
