/** The file lock table of fusemain.cpp: which handles are open on which name, and the byte ranges
    they have locked. Every method is one critical section. */
module FileLocksModel {
  import opened Options

  datatype Share = ShareRead | ShareWrite | ShareDelete

  datatype Status = Done | Invalid | Denied

  // ----- Ranges ---------------------------------------------------------------------------------

  predicate Overlap(s: int, l: int, start: int, len: int) {
    s < start + len && start < s + l
  }

  predicate Within(x: int, s: int, l: int) {
    s <= x < s + l
  }

  /** Two ranges overlap if they have an offset in common. */
  lemma OverlapIs(s: int, l: int, start: int, len: int)
    requires l > 0 && len > 0
    ensures Overlap(s, l, start, len) <==> exists x :: Within(x, s, l) && Within(x, start, len)
  {
    if Overlap(s, l, start, len) {
      var x := if s < start then start else s;
      assert Within(x, s, l) && Within(x, start, len);
    }
  }

  /** Some range holds the offset. */
  ghost predicate LockedAt(ranges: map<int, int>, x: int) {
    exists s :: s in ranges && Within(x, s, ranges[s])
  }

  /** The ranges of one handle: the keys are their starts. */
  ghost predicate Apart(ranges: map<int, int>) {
    && (forall s :: s in ranges ==> s >= 0 && ranges[s] > 0)
    && (forall s, t :: s in ranges && t in ranges && s < t ==> s + ranges[s] <= t)
  }

  /** The ranges of two handles. */
  ghost predicate Clear(a: map<int, int>, b: map<int, int>) {
    forall s, t :: s in a && t in b ==> !Overlap(s, a[s], t, b[t])
  }

  lemma MoreRanges(a: map<int, int>, b: map<int, int>, start: int, len: int)
    requires start >= 0 && len > 0 && !Hits(a, start, len) && !Hits(b, start, len)
    ensures Apart(a) ==> Apart(a[start := len])
    ensures Clear(a, b) ==> Clear(a[start := len], b)
    ensures Clear(b, a) ==> Clear(b, a[start := len])
  {
    forall s | s in a ensures !Overlap(s, a[s], start, len) {}
    forall s | s in b ensures !Overlap(s, b[s], start, len) {}
  }

  lemma FewerRanges(a: map<int, int>, b: map<int, int>, start: int)
    ensures Apart(a) ==> Apart(a - {start})
    ensures Clear(a, b) ==> Clear(a - {start}, b)
    ensures Clear(b, a) ==> Clear(b, a - {start})
  {
  }

  ghost predicate Hits(ranges: map<int, int>, start: int, len: int) {
    exists s :: s in ranges && Overlap(s, ranges[s], start, len)
  }

  lemma HitsExactly(ranges: map<int, int>, start: int, len: int)
    requires Apart(ranges) && len > 0
    ensures Hits(ranges, start, len) <==> exists x :: Within(x, start, len) && LockedAt(ranges, x)
  {
    hide Overlap;
    if Hits(ranges, start, len) {
      var s :| s in ranges && Overlap(s, ranges[s], start, len);
      OverlapIs(s, ranges[s], start, len);
      var x :| Within(x, s, ranges[s]) && Within(x, start, len);
      assert LockedAt(ranges, x);
    }
    if x :| Within(x, start, len) && LockedAt(ranges, x) {
      var s :| s in ranges && Within(x, s, ranges[s]);
      OverlapIs(s, ranges[s], start, len);
    }
  }

  lemma SomeElement(s: set<int>)
    requires s != {}
    ensures exists x :: x in s
  {
    assert (forall x :: x !in s) ==> s == {};
  }

  /** std::map: the first key that is not less. */
  method LowerBound(ranges: map<int, int>, at: int) returns (k: Option<int>)
    ensures match k
      case None => forall s :: s in ranges ==> s < at
      case Some(j) => j in ranges && j >= at && forall s :: s in ranges && s >= at ==> j <= s
  {
    k := None;
    var todo := ranges.Keys;
    while todo != {}
      invariant todo <= ranges.Keys
      invariant match k
        case None => forall s :: s in ranges && s !in todo ==> s < at
        case Some(j) => j in ranges && j >= at && forall s :: s in ranges && s !in todo && s >= at ==> j <= s
      decreases |todo|
    {
      SomeElement(todo);
      var s :| s in todo;
      if s >= at && (k.None? || s < k.value) { k := Some(s); }
      todo := todo - {s};
    }
  }

  /** The last key that is less. */
  method Previous(ranges: map<int, int>, at: int) returns (k: Option<int>)
    ensures match k
      case None => forall s :: s in ranges ==> s >= at
      case Some(j) => j in ranges && j < at && forall s :: s in ranges && s < at ==> s <= j
  {
    k := None;
    var todo := ranges.Keys;
    while todo != {}
      invariant todo <= ranges.Keys
      invariant match k
        case None => forall s :: s in ranges && s !in todo ==> s >= at
        case Some(j) => j in ranges && j < at && forall s :: s in ranges && s !in todo && s < at ==> s <= j
      decreases |todo|
    {
      SomeElement(todo);
      var s :| s in todo;
      if s < at && (k.None? || s > k.value) { k := Some(s); }
      todo := todo - {s};
    }
  }

  /** The two neighbours of the start decide whether any range of a handle is hit. */
  method TestNeighbours(ranges: map<int, int>, start: int, len: int) returns (locked: bool)
    requires Apart(ranges) && len > 0
    ensures locked <==> Hits(ranges, start, len)
  {
    locked := false;
    var next := LowerBound(ranges, start);
    var previous := Previous(ranges, start);
    if next.Some? && len > next.value - start {
      assert Overlap(next.value, ranges[next.value], start, len);
      locked := true;
    }
    if previous.Some? && ranges[previous.value] > start - previous.value {
      assert Overlap(previous.value, ranges[previous.value], start, len);
      locked := true;
    }
  }

  // ----- Handles and locks ----------------------------------------------------------------------

  class FileHandle {
    const isDir: bool
    const sharedMode: set<Share>
    const fileLock: FileLock
    var nextFile: FileHandle?
    // start and length of each locked range
    var locks: map<int, int>

    constructor (isDir: bool, sharedMode: set<Share>, fileLock: FileLock)
      ensures this.isDir == isDir && this.sharedMode == sharedMode && this.fileLock == fileLock
      ensures nextFile == null && locks == map[]
    {
      this.isDir, this.sharedMode, this.fileLock := isDir, sharedMode, fileLock;
      this.nextFile, this.locks := null, map[];
    }
  }

  function Without(files: seq<FileHandle>, file: FileHandle): seq<FileHandle> {
    if files == [] then []
    else if files[0] == file then Without(files[1..], file)
    else [files[0]] + Without(files[1..], file)
  }

  ghost predicate NoDuplicates(files: seq<FileHandle>) {
    forall i, j :: 0 <= i < j < |files| ==> files[i] != files[j]
  }

  lemma {:induction false} WithoutAbsent(files: seq<FileHandle>, file: FileHandle)
    requires file !in files
    ensures Without(files, file) == files
  {
    if files != [] { WithoutAbsent(files[1..], file); }
  }

  lemma {:induction false} WithoutAt(files: seq<FileHandle>, file: FileHandle, k: nat)
    requires k < |files| && files[k] == file && NoDuplicates(files)
    ensures Without(files, file) == files[..k] + files[k + 1..]
  {
    if k == 0 {
      WithoutAbsent(files[1..], file);
    } else {
      assert files[0] != file;
      WithoutAt(files[1..], file, k - 1);
      assert files[..k] + files[k + 1..] == [files[0]] + (files[1..][..k - 1] + files[1..][k..]);
    }
  }

  lemma {:induction false} WithoutGone(files: seq<FileHandle>, file: FileHandle)
    ensures file !in Without(files, file)
    ensures forall h :: h in Without(files, file) ==> h in files
  {
    if files != [] { WithoutGone(files[1..], file); }
  }

  class FileLock {
    var name: string
    var first: FileHandle?
    // the handles that are linked from `first`
    ghost var files: seq<FileHandle>

    constructor (name: string)
      ensures this.name == name && first == null && files == [] && Linked()
    {
      this.name, this.first, this.files := name, null, [];
    }

    /** The handles make one list, without cycles, that belongs to this lock. */
    ghost predicate Linked()
      reads this, files
    {
      && NoDuplicates(files)
      && first == At(0)
      && (forall k :: 0 <= k < |files| ==> files[k].nextFile == At(k + 1) && files[k].fileLock == this)
    }

    ghost function At(k: nat): FileHandle?
      reads this
    {
      if k < |files| then files[k] else null
    }

    /** No two locked ranges of the file overlap, whoever holds them. */
    ghost predicate Disjoint()
      reads this, files
    {
      && (forall h :: h in files ==> Apart(h.locks))
      && (forall g, h :: g in files && h in files && g != h ==> Clear(g.locks, h.locks))
    }

    /** Some handle, or some other handle if only checking, has locked part of the range. */
    ghost predicate Conflict(file: FileHandle, start: int, len: int, mark: bool)
      reads this, files
    {
      ConflictBefore(|files|, file, start, len, mark)
    }

    ghost predicate ConflictBefore(n: nat, file: FileHandle, start: int, len: int, mark: bool)
      requires n <= |files|
      reads this, files
    {
      exists k :: 0 <= k < n && (mark || files[k] != file) && Hits(files[k].locks, start, len)
    }

    lemma ConflictNext(n: nat, file: FileHandle, start: int, len: int, mark: bool)
      requires n < |files|
      ensures ConflictBefore(n + 1, file, start, len, mark)
        <==> (ConflictBefore(n, file, start, len, mark)
              || ((mark || files[n] != file) && Hits(files[n].locks, start, len)))
    {
      hide Hits;
    }

    lemma NothingLocked()
      requires files == []
      ensures Disjoint()
    {
    }

    lemma FirstIs()
      requires Linked()
      ensures first == null <==> files == []
      ensures NoDuplicates(files)
    {
    }

    method AddFileUnlocked(file: FileHandle)
      requires Linked() && file !in files && file.fileLock == this
      modifies this`first, this`files, file`nextFile
      ensures Linked() && files == [file] + old(files)
      ensures old(Disjoint()) && file.locks == map[] ==> Disjoint()
    {
      file.nextFile := first;
      first := file;
      files := [file] + files;
    }

    /** Take one handle out of the list. */
    method UnlinkAt(ghost k: nat, p: FileHandle?, file: FileHandle) returns (next: FileHandle?)
      requires Linked() && k < |files| && files[k] == file && p == (if k == 0 then null else files[k - 1])
      modifies this`first, this`files, file`nextFile, (if p == null then {} else {p})`nextFile
      ensures Linked() && files == old(files)[..k] + old(files)[k + 1..] && next == At(k)
    {
      ghost var was, rest := files, files[..k] + files[k + 1..];
      assert forall i :: 0 <= i < |rest| ==> rest[i] == was[if i < k then i else i + 1];
      if p == null {
        first := file.nextFile;
      } else {
        p.nextFile := file.nextFile;
      }
      next := file.nextFile;
      file.nextFile := null;
      files := rest;
      forall i | 0 <= i < |rest| ensures rest[i].nextFile == At(i + 1) && rest[i].fileLock == this {
        assert rest[i] == was[if i < k then i else i + 1] && rest[i] != file;
      }
      assert first == At(0);
      assert NoDuplicates(rest);
    }

    /** The part of `remove_file` within the lock. */
    method Unlink(file: FileHandle)
      requires Linked()
      modifies this`first, this`files, (set h <- files)`nextFile
      ensures Linked() && files == Without(old(files), file)
      ensures old(Disjoint()) ==> Disjoint()
    {
      var p: FileHandle?, cur := null, first;
      ghost var k, was, removed := 0, files, false;
      if file !in files { WithoutAbsent(files, file); }
      while cur != null
        invariant Linked() && k <= |files| && cur == At(k) && p == (if k == 0 then null else files[k - 1])
        invariant file !in files[..k]
        invariant if removed then file !in files && files == Without(was, file) else files == was
        invariant forall h :: h in files ==> h in was
        decreases |files| - k
      {
        if cur == file {
          WithoutAt(files, file, k);
          WithoutGone(files, file);
          cur := UnlinkAt(k, p, file);
          removed := true;
        } else {
          p := cur;
          cur := cur.nextFile;
          k := k + 1;
        }
      }
    }

    method IsLocked(file: FileHandle, start: int, len: int, mark: bool) returns (locked: bool)
      requires Linked() && Disjoint() && len > 0
      ensures locked <==> Conflict(file, start, len, mark)
    {
      hide Hits, ConflictBefore, Apart, Clear;
      locked := false;
      var cur := first;
      ghost var k := 0;
      NoConflict(file, start, len, mark);
      while cur != null
        invariant k <= |files| && cur == At(k)
        invariant locked <==> ConflictBefore(k, file, start, len, mark)
        decreases |files| - k
      {
        ConflictNext(k, file, start, len, mark);
        if mark || cur != file {
          var hit := TestNeighbours(cur.locks, start, len);
          if hit { locked := true; }
        }
        cur := cur.nextFile;
        k := k + 1;
      }
    }

    lemma WhoHolds(file: FileHandle, start: int, len: int)
      ensures Taken(file, start, len, true)
        <==> exists h, x :: h in files && Within(x, start, len) && LockedAt(h.locks, x)
    {
      hide LockedAt;
    }

    lemma NoConflict(file: FileHandle, start: int, len: int, mark: bool)
      ensures !ConflictBefore(0, file, start, len, mark)
    {
    }

    /** An offset of the range is in a locked range of some handle, or, if only checking, of some
        other handle. */
    ghost predicate Taken(file: FileHandle, start: int, len: int, mark: bool)
      reads this, files
    {
      exists h, x :: h in files && (mark || h != file) && Within(x, start, len) && LockedAt(h.locks, x)
    }

    lemma ConflictExactly(file: FileHandle, start: int, len: int, mark: bool)
      requires Disjoint() && len > 0
      ensures Conflict(file, start, len, mark) <==> Taken(file, start, len, mark)
    {
      hide Hits, LockedAt, Apart, Clear;
      if Conflict(file, start, len, mark) {
        var k :| 0 <= k < |files| && (mark || files[k] != file) && Hits(files[k].locks, start, len);
        HitsExactly(files[k].locks, start, len);
        var x :| Within(x, start, len) && LockedAt(files[k].locks, x);
        assert files[k] in files;
      }
      if Taken(file, start, len, mark) {
        var h, x :| h in files && (mark || h != file) && Within(x, start, len) && LockedAt(h.locks, x);
        HitsExactly(h.locks, start, len);
        var k :| 0 <= k < |files| && files[k] == h;
      }
    }

    /** No offset is locked by two handles. */
    lemma OneHolder(g: FileHandle, h: FileHandle, x: int)
      requires Disjoint() && g in files && h in files && LockedAt(g.locks, x) && LockedAt(h.locks, x)
      ensures g == h
    {
      var s :| s in g.locks && Within(x, s, g.locks[s]);
      var t :| t in h.locks && Within(x, t, h.locks[t]);
      OverlapIs(s, g.locks[s], t, h.locks[t]);
      assert Overlap(s, g.locks[s], t, h.locks[t]);
    }

    method LockFile(file: FileHandle, start: int, len: int, mark: bool) returns (res: Status)
      requires Linked() && Disjoint() && file in files
      modifies file`locks
      ensures Linked() && Disjoint()
      ensures res.Invalid? <==> start < 0 || len <= 0
      ensures !res.Invalid? ==> (res.Denied? <==> old(Taken(file, start, len, mark)))
      ensures file.locks == if res.Done? && mark then old(file.locks)[start := len] else old(file.locks)
    {
      if start < 0 || len <= 0 {
        return Invalid;
      }
      ConflictExactly(file, start, len, mark);
      var locked := IsLocked(file, start, len, mark);
      if !locked && mark {
        MarkRange(file, start, len);
      }
      res := if locked then Denied else Done;
    }

    method MarkRange(file: FileHandle, start: int, len: int)
      requires Linked() && Disjoint() && file in files && start >= 0 && len > 0
      requires !Conflict(file, start, len, true)
      modifies file`locks
      ensures Linked() && Disjoint() && file.locks == old(file.locks)[start := len]
    {
      forall h | h in files
        ensures Apart(file.locks) ==> Apart(file.locks[start := len])
        ensures Clear(file.locks, h.locks) ==> Clear(file.locks[start := len], h.locks)
        ensures Clear(h.locks, file.locks) ==> Clear(h.locks, file.locks[start := len])
      {
        var k :| 0 <= k < |files| && files[k] == h;
        var own :| 0 <= own < |files| && files[own] == file;
        assert !Hits(files[k].locks, start, len) && !Hits(files[own].locks, start, len);
        MoreRanges(file.locks, h.locks, start, len);
      }
      hide Hits, Conflict, ConflictBefore, Apart, Clear;
      file.locks := file.locks[start := len];
    }

    method UnlockFile(file: FileHandle, start: int, len: int) returns (res: Status)
      requires Linked() && Disjoint() && file in files
      modifies file`locks
      ensures Linked() && Disjoint()
      ensures res ==
        if len == 0 then Done
        else if start < 0 || len < 0 then Invalid
        else if start in old(file.locks) && old(file.locks)[start] == len then Done
        else Denied
      ensures file.locks == if len != 0 && res.Done? then old(file.locks) - {start} else old(file.locks)
    {
      hide Linked, Disjoint;
      if len == 0 {
        return Done;
      }
      if start < 0 || len <= 0 {
        return Invalid;
      }
      res := Denied;
      if start in file.locks && file.locks[start] == len {
        DropRange(file, start);
        res := Done;
      }
    }

    method DropRange(file: FileHandle, start: int)
      requires Linked() && Disjoint() && file in files
      modifies file`locks
      ensures Linked() && Disjoint() && file.locks == old(file.locks) - {start}
    {
      forall h | h in files
        ensures Apart(file.locks) ==> Apart(file.locks - {start})
        ensures Clear(file.locks, h.locks) ==> Clear(file.locks - {start}, h.locks)
        ensures Clear(h.locks, file.locks) ==> Clear(h.locks, file.locks - {start})
      {
        FewerRanges(file.locks, h.locks, start);
      }
      hide Apart, Clear;
      file.locks := file.locks - {start};
    }
  }

  // ----- The table ------------------------------------------------------------------------------

  class FileLocks {
    var table: map<string, FileLock>
    // the open handles, and the locks they belong to
    ghost var handles: set<FileHandle>
    ghost var locks: set<FileLock>

    constructor ()
      ensures Valid() && table == map[] && handles == {} && locks == {}
    {
      table, handles, locks := map[], {}, {};
    }

    /** Every open handle is in the list of its lock, which is registered under its name. No
        registered lock has an empty list, and locked ranges do not overlap. */
    ghost predicate Valid()
      reads this, locks, handles
    {
      && (forall n :: n in table ==> table[n] in locks && table[n].name == n)
      && (forall l :: l in locks ==> (forall h :: h in l.files ==> h in handles))
      && (forall l :: l in locks ==> LockValid(l))
      && (forall h :: h in handles ==> h.fileLock in locks && h in h.fileLock.files)
    }

    ghost predicate LockValid(l: FileLock)
      requires forall h :: h in l.files ==> h in handles
      reads this, l, handles
    {
      && l.Linked() && l.Disjoint() && l.files != []
      && l.name in table && table[l.name] == l
    }

    /** A lock stays as it is if its list and its handles are not touched, whatever its name. */
    twostate lemma LockKept(l: FileLock)
      requires old(l.Linked() && l.Disjoint()) && l.files == old(l.files) && l.first == old(l.first)
      requires forall h :: h in l.files ==> unchanged(h)
      ensures l.Linked() && l.Disjoint()
    {
      forall k | 0 <= k < |l.files| ensures l.files[k].nextFile == l.At(k + 1) && l.files[k].fileLock == l {
        assert l.files[k] in l.files;
      }
    }

    /** All that has changed is one lock, with its handles, from `oldName` to its name. */
    twostate predicate OnlyChanged(new target: FileLock, oldName: string)
      reads this, locks, handles, target
    {
      && target.name in table && table[target.name] == target
      && (oldName != target.name ==> oldName !in table && target.name !in old(table))
      && (forall n :: n != target.name && n != oldName ==>
            (n in table <==> n in old(table)) && (n in table ==> table[n] == old(table)[n]))
      && locks == old(locks) + {target}
      && (if target in old(locks) then oldName in old(table) && old(table)[oldName] == target
          else oldName !in old(table))
      && (forall h :: h in handles ==> h in target.files || (h in old(handles) && h.fileLock != target))
      && (forall h :: h in old(handles) && h.fileLock != target ==> h in handles && unchanged(h))
      && (forall l :: l in old(locks) && l != target ==> unchanged(l))
    }

    /** Then the table is valid again. */
    twostate lemma Again(new target: FileLock, new oldName: string)
      requires old(Valid())
      requires target.Linked() && target.Disjoint() && target.files != []
      requires forall h :: h in target.files ==> h in handles && h.fileLock == target
      requires target.name in table && table[target.name] == target
      requires oldName != target.name ==> oldName !in table && target.name !in old(table)
      requires forall n :: n != target.name && n != oldName ==>
        (n in table <==> n in old(table)) && (n in table ==> table[n] == old(table)[n])
      requires locks == old(locks) + {target}
      requires if target in old(locks) then oldName in old(table) && old(table)[oldName] == target
        else oldName !in old(table)
      requires forall h :: h in handles ==> h in target.files || (h in old(handles) && h.fileLock != target)
      requires forall h :: h in old(handles) && h.fileLock != target ==> h in handles && unchanged(h)
      requires forall l :: l in old(locks) && l != target ==> unchanged(l)
      ensures Valid()
    {
      hide Valid, LockValid, FileLock.Linked, FileLock.Disjoint;
      assert OnlyChanged(target, oldName);
      hide OnlyChanged;
      TableAgain(target, oldName);
      forall l | l in old(locks) && l != target
        ensures (forall h :: h in l.files ==> h in handles) && l.Linked() && l.Disjoint()
        ensures l.files != [] && l.name in table && table[l.name] == l
      {
        OtherAgain(target, oldName, l);
      }
      HandlesAgain(target, oldName);
      Together();
    }

    lemma Together()
      requires forall n :: n in table ==> table[n] in locks && table[n].name == n
      requires forall l :: l in locks ==> forall h :: h in l.files ==> h in handles
      requires forall l :: l in locks ==>
        l.Linked() && l.Disjoint() && l.files != [] && l.name in table && table[l.name] == l
      requires forall h :: h in handles ==> h.fileLock in locks && h in h.fileLock.files
      ensures Valid()
    {
      hide FileLock.Linked, FileLock.Disjoint;
    }

    twostate lemma TableAgain(new target: FileLock, new oldName: string)
      requires old(Valid()) && OnlyChanged(target, oldName)
      ensures forall n :: n in table ==> table[n] in locks && table[n].name == n
      ensures forall l :: l in locks <==> l == target || l in old(locks)
    {
      hide LockValid;
    }

    twostate lemma OtherAgain(new target: FileLock, new oldName: string, new l: FileLock)
      requires old(Valid()) && OnlyChanged(target, oldName) && l in old(locks) && l != target
      ensures (forall h :: h in l.files ==> h in handles) && l.Linked() && l.Disjoint()
      ensures l.files != [] && l.name in table && table[l.name] == l
    {
      assert old(LockValid(l));
      OwnFiles(l);
      assert forall h :: h in l.files ==> h in handles && unchanged(h);
      hide FileLock.Linked, FileLock.Disjoint;
      LockKept(l);
    }

    twostate lemma HandlesAgain(new target: FileLock, new oldName: string)
      requires old(Valid()) && OnlyChanged(target, oldName)
      requires forall h :: h in target.files ==> h.fileLock == target
      ensures forall h :: h in handles ==> h.fileLock in locks && h in h.fileLock.files
    {
      hide LockValid;
    }

    twostate lemma OwnFiles(l: FileLock)
      requires old(l.Linked()) && unchanged(l)
      ensures forall h :: h in l.files ==> h.fileLock == l
    {
    }

    /** The table is valid again when all that has changed is that one lock is gone. */
    twostate lemma AgainWithout(target: FileLock)
      requires old(Valid()) && target in old(locks)
      requires table == old(table) - {old(target.name)} && locks == old(locks) - {target}
      requires forall h :: h in handles <==> h in old(handles) && h.fileLock != target
      requires forall h :: h in handles ==> unchanged(h)
      requires forall l :: l in locks ==> unchanged(l)
      ensures Valid()
    {
      hide FileLock.Linked, FileLock.Disjoint;
      forall l | l in locks
        ensures (forall h :: h in l.files ==> h in handles) && l.Linked() && l.Disjoint()
        ensures l.files != [] && l.name in table && table[l.name] == l
      {
        assert old(LockValid(l)) && old(LockValid(target));
        OwnFiles(l);
        assert forall h :: h in l.files ==> h in handles && unchanged(h);
        LockKept(l);
      }
      hide LockValid;
      Together();
    }

    /** The handles in a lock's list are its own. */
    lemma OwnHandles()
      requires Valid()
      ensures forall l :: l in locks ==>
        l.Linked() && l.Disjoint() && l.files != [] && l.name in table && table[l.name] == l
      ensures forall l, h :: l in locks && h in l.files ==> h.fileLock == l && h in handles
      ensures forall h :: h in handles ==> h.fileLock in locks && h in h.fileLock.files
      ensures forall n :: n in table ==> table[n] in locks && table[n].name == n
    {
      forall l | l in locks ensures LockValid(l) {}
      forall l, h | l in locks && h in l.files ensures h.fileLock == l {
        assert LockValid(l);
      }
    }

    /** Open: refused if some handle that is open does not share what the new one needs. */
    method GetFile(name: string, isDir: bool, required: set<Share>, sharedMode: set<Share>)
      returns (res: Status, file: FileHandle?)
      requires Valid()
      modifies this, if name in table then {table[name]} else {}
      ensures Valid() && !res.Invalid?
      ensures res.Denied? <==>
        name in old(table) && exists h :: h in old(table[name].files) && !(required <= h.sharedMode)
      ensures res.Denied? ==>
        && file == null && table == old(table) && handles == old(handles) && locks == old(locks)
        && table[name].files == old(table[name].files)
      ensures res.Done? ==>
        && file != null && fresh(file) && handles == old(handles) + {file} && file.locks == map[]
        && name in table && file.fileLock == table[name]
      ensures res.Done? && name in old(table) ==>
        table == old(table) && locks == old(locks) && table[name].files == [file] + old(table[name].files)
      ensures res.Done? && name !in old(table) ==>
        && fresh(table[name]) && table == old(table)[name := table[name]]
        && locks == old(locks) + {table[name]} && table[name].files == [file]
    {
      hide FileLock.Linked, FileLock.Disjoint;
      res, file := Done, null;
      if name in table {
        var fileLock := table[name];
        OwnHandles();
        var share := SharedByAll(fileLock);
        hide Valid, LockValid;
        if !(required <= share) {
          res := Denied;
        } else {
          file := new FileHandle(isDir, sharedMode, fileLock);
          AddHandle(fileLock, file);
        }
      } else {
        hide Valid, LockValid;
        file := AddLock(name, isDir, sharedMode);
      }
    }

    /** What all handles in the list share. */
    method SharedByAll(fileLock: FileLock) returns (share: set<Share>)
      requires fileLock.Linked()
      ensures forall x: Share :: x in share <==> (forall h :: h in fileLock.files ==> x in h.sharedMode)
    {
      share := {ShareRead, ShareWrite, ShareDelete};
      assert forall x: Share :: x in share by {
        forall x: Share ensures x in share {
          match x case ShareRead => case ShareWrite => case ShareDelete =>
        }
      }
      var i := fileLock.first;
      ghost var k := 0;
      while i != null
        invariant k <= |fileLock.files| && i == fileLock.At(k)
        invariant forall x: Share :: x in share <==> (forall h :: h in fileLock.files[..k] ==> x in h.sharedMode)
        decreases |fileLock.files| - k
      {
        assert fileLock.files[..k + 1] == fileLock.files[..k] + [i];
        share := share * i.sharedMode;
        i := i.nextFile;
        k := k + 1;
      }
      assert fileLock.files[..k] == fileLock.files;
    }

    method AddHandle(fileLock: FileLock, h: FileHandle)
      requires Valid() && fileLock in locks && h !in handles && h.fileLock == fileLock && h.locks == map[]
      modifies this`handles, fileLock`first, fileLock`files, h`nextFile
      ensures Valid() && handles == old(handles) + {h} && fileLock.files == [h] + old(fileLock.files)
    {
      hide *;
      OwnHandles();
      fileLock.AddFileUnlocked(h);
      handles := handles + {h};
      Again(fileLock, fileLock.name);
    }

    method AddLock(name: string, isDir: bool, sharedMode: set<Share>) returns (file: FileHandle)
      requires Valid() && name !in table
      modifies this
      ensures Valid() && fresh(file) && handles == old(handles) + {file} && file.locks == map[]
      ensures name in table && file.fileLock == table[name] && fresh(table[name])
      ensures table == old(table)[name := table[name]]
      ensures locks == old(locks) + {table[name]} && table[name].files == [file]
    {
      hide *;
      OwnHandles();
      var fileLock := new FileLock(name);
      file := new FileHandle(isDir, sharedMode, fileLock);
      fileLock.NothingLocked();
      fileLock.AddFileUnlocked(file);
      table := table[name := fileLock];
      handles, locks := handles + {file}, locks + {fileLock};
      Again(fileLock, name);
    }

    /** The last thing a handle does. */
    method RemoveFile(file: FileHandle)
      requires Valid() && file in handles
      modifies this, file.fileLock, handles
      ensures Valid() && handles == old(handles) - {file}
      ensures file.fileLock.files == Without(old(file.fileLock.files), file)
      ensures table == if old(file.fileLock.files) == [file] then old(table) - {old(file.fileLock.name)} else old(table)
      ensures locks == if old(file.fileLock.files) == [file] then old(locks) - {file.fileLock} else old(locks)
      ensures forall h :: h in handles ==> h.locks == old(h.locks)
    {
      hide *;
      var fileLock := file.fileLock;
      OwnHandles();
      fileLock.FirstIs();
      LastHandle(fileLock.files, file);
      WithoutGone(fileLock.files, file);
      fileLock.Unlink(file);
      fileLock.FirstIs();
      handles := handles - {file};
      if fileLock.first == null {
        if fileLock.name in table && table[fileLock.name].first == null {
          table := table - {fileLock.name};
          locks := locks - {fileLock};
        }
        AgainWithout(fileLock);
      } else {
        Again(fileLock, fileLock.name);
      }
    }

    lemma LastHandle(files: seq<FileHandle>, file: FileHandle)
      requires NoDuplicates(files) && file in files
      ensures Without(files, file) == [] <==> files == [file]
      ensures forall h :: h in files && h != file ==> h in Without(files, file)
    {
      var k :| 0 <= k < |files| && files[k] == file;
      WithoutAt(files, file, k);
    }

    /** A rename moves the lock to the new name. The table stays valid exactly if that name is free. */
    method RenamedFile(name: string, newName: string)
      requires Valid()
      modifies this`table, (if name in table then {table[name]} else {})`name
      ensures Valid() <==> name == newName || name !in old(table) || newName !in old(table)
      ensures table == if name == newName || name !in old(table) then old(table)
        else old(table)[newName := old(table)[name]] - {name}
      ensures name in old(table) && name != newName ==> old(table)[name].name == newName
    {
      hide *;
      if name == newName {
        return;
      }
      if name in table {
        var fileLock := table[name];
        OwnHandles();
        ghost var taken := newName in table;
        fileLock.name := newName;
        table := table[newName := fileLock];
        table := table - {name};
        if taken {
          if Valid() { OwnHandles(); }
        } else {
          LockKept(fileLock);
          Again(fileLock, name);
        }
      }
    }

    /** A handle locks a range, if no handle of the file has part of it. */
    method Lock(file: FileHandle, start: int, len: int) returns (res: Status)
      requires Valid() && file in handles
      modifies file`locks
      ensures Valid()
      ensures res.Invalid? <==> start < 0 || len <= 0
      ensures !res.Invalid? ==>
        (res.Denied? <==>
          exists h, x :: h in file.fileLock.files && Within(x, start, len) && old(LockedAt(h.locks, x)))
      ensures file.locks == if res.Done? then old(file.locks)[start := len] else old(file.locks)
    {
      hide *;
      OwnHandles();
      file.fileLock.WhoHolds(file, start, len);
      res := file.fileLock.LockFile(file, start, len, true);
      Again(file.fileLock, file.fileLock.name);
    }

    method Unlock(file: FileHandle, start: int, len: int) returns (res: Status)
      requires Valid() && file in handles
      modifies file`locks
      ensures Valid()
      ensures len > 0 && start >= 0 ==>
        (res.Done? <==> start in old(file.locks) && old(file.locks)[start] == len)
      ensures file.locks == if len != 0 && res.Done? then old(file.locks) - {start} else old(file.locks)
    {
      hide *;
      OwnHandles();
      res := file.fileLock.UnlockFile(file, start, len);
      Again(file.fileLock, file.fileLock.name);
    }
  }
}
