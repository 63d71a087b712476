/**
 * The mark bookkeeping of fm.c's batch operations (copy, move, delete):
 * where a marked path lands under the current directory, which marks
 * process_marked works on, and which marks it removes.
 *
 * The file operations themselves are parameters: `walk(path)` is what
 * process_dir returns for a marked directory and `proc(path)` what the
 * per-file operation returns for any other marked entry.
 */
module Batch {
  import opened Wrappers
  import opened MarkSet
  import opened Listing

  /**
   * The destination of `path` when the marks of `root` are copied or moved
   * into `cwd`: the path's part below the root is appended to cwd.
   */
  function DestPath(cwd: string, root: string, path: string): (d: string)
    requires |root| <= |path|
    ensures cwd <= d && |d| == |cwd| + |path| - |root|
  {
    cwd + path[|root|..]
  }

  /** A marked entry lands under cwd with the same name. */
  lemma DestPathOfMark(cwd: string, root: string, entry: string)
    ensures DestPath(cwd, root, root + entry) == cwd + entry
  {
    assert (root + entry)[|root|..] == entry;
  }

  /** Descending into a subdirectory descends into the same subdirectory of the destination. */
  lemma DestPathExtend(cwd: string, root: string, path: string, sub: string)
    requires |root| <= |path|
    ensures DestPath(cwd, root, path + sub) == DestPath(cwd, root, path) + sub
  {
    assert (path + sub)[|root|..] == path[|root|..] + sub;
  }

  /** Mapping back from the destination to the marks' directory gives the source path. */
  lemma DestPathBack(cwd: string, root: string, path: string)
    requires root <= path
    ensures DestPath(root, cwd, DestPath(cwd, root, path)) == path
  {
    var d := DestPath(cwd, root, path);
    assert d[|cwd|..] == path[|root|..];
    assert root + path[|root|..] == path;
  }

  /**
   * The result process_marked gets for one marked entry: a directory whose
   * path is a prefix of cwd (the current directory or one of its ancestors)
   * is refused with -1; another directory is walked; anything else is
   * processed as a single file.
   */
  function EntryResult(dirpath: string, cwd: string, entry: string,
                       walk: string -> int, proc: string -> int): (r: int)
    ensures IsDirName(entry) && dirpath + entry <= cwd ==> r == -1
    ensures IsDirName(entry) && !(dirpath + entry <= cwd) ==> r == walk(dirpath + entry)
    ensures !IsDirName(entry) ==> r == proc(dirpath + entry)
  {
    var path := dirpath + entry;
    if IsDirName(entry) then
      if path <= cwd then -1 else walk(path)
    else proc(path)
  }

  /**
   * The slots after process_marked: a mark is cleared exactly when its
   * entry's operation returned 0; every other slot is kept.
   */
  function Outcome(slots: seq<Slot>, dirpath: string, cwd: string,
                   walk: string -> int, proc: string -> int): (r: seq<Slot>)
    ensures |r| == |slots|
    ensures forall k :: 0 <= k < |slots| ==>
      r[k] == (if slots[k].Some? && EntryResult(dirpath, cwd, slots[k].value, walk, proc) == 0
               then None else slots[k])
  {
    seq(|slots|, k requires 0 <= k < |slots| =>
      if slots[k].Some? && EntryResult(dirpath, cwd, slots[k].value, walk, proc) == 0
      then None else slots[k])
  }

  /** A marked directory that contains cwd keeps its mark. */
  lemma AncestorKeepsMark(slots: seq<Slot>, dirpath: string, cwd: string,
                          walk: string -> int, proc: string -> int, k: int)
    requires 0 <= k < |slots| && slots[k].Some?
    requires IsDirName(slots[k].value) && dirpath + slots[k].value <= cwd
    ensures Outcome(slots, dirpath, cwd, walk, proc)[k] == slots[k]
  {
  }

  /** A slot that is in use makes the count positive. */
  lemma {:induction false} CountPositive(s: seq<Slot>, k: int)
    requires 0 <= k < |s| && s[k].Some?
    ensures Count(s) >= 1
  {
    CountUpdate(s, k, None);
  }

  /**
   * The slots seen by process_marked's loop after `i` slots: the outcome so
   * far, the untouched rest after.
   */
  function Progress(o: seq<Slot>, r: seq<Slot>, i: int): seq<Slot>
    requires |o| == |r| && 0 <= i <= |o|
  {
    r[..i] + o[i..]
  }

  /** One step of the loop replaces slot i of the progress by its outcome. */
  lemma ProgressStep(o: seq<Slot>, r: seq<Slot>, i: int)
    requires |o| == |r| && 0 <= i < |o|
    ensures Progress(o, r, i + 1) == Progress(o, r, i)[i := r[i]]
  {
  }

  /**
   * The state of process_marked's loop before slot i: slots before i hold
   * their outcome and the rest are untouched, unless the set has been
   * emptied, which may have shrunk the array.
   */
  ghost predicate LoopInv(m: Marks, o: seq<Slot>, r: seq<Slot>, d: string, i: int)
    reads m, m.entries
  {
    m.Valid() && InvAt(m.entries[..], m.bulk, m.nentries, m.dirpath, o, r, d, i)
  }

  /** LoopInv on the values of the mark set's fields. */
  ghost predicate InvAt(slots: seq<Slot>, bulk: int, nentries: int, dirpath: string,
                        o: seq<Slot>, r: seq<Slot>, d: string, i: int)
  {
    && |o| == |r| && 0 <= i <= |o|
    && nentries == Count(Progress(o, r, i))
    && (bulk == |o| ==> slots == Progress(o, r, i))
    && (bulk != |o| ==> nentries == 0 && bulk == BULK_INIT < |o|)
    && dirpath == (if nentries == 0 then "" else d)
  }

  /** Before the loop nothing has been processed. */
  lemma LoopEntry(o: seq<Slot>, r: seq<Slot>)
    requires |o| == |r|
    ensures Progress(o, r, 0) == o
  {
  }

  /** When the loop stops, the slots are the outcome, or the set is empty. */
  lemma LoopExit(slots: seq<Slot>, bulk: int, nentries: int, dirpath: string,
                 o: seq<Slot>, d: string, cwd: string, walk: string -> int, proc: string -> int, i: int)
    requires InvAt(slots, bulk, nentries, dirpath, o, Outcome(o, d, cwd, walk, proc), d, i) && i >= bulk
    ensures nentries == Count(Outcome(o, d, cwd, walk, proc))
    ensures bulk == |o| ==> slots == Outcome(o, d, cwd, walk, proc)
    ensures bulk != |o| ==> nentries == 0 && bulk == BULK_INIT
    ensures dirpath == (if nentries == 0 then "" else d)
  {
    var r := Outcome(o, d, cwd, walk, proc);
    if bulk == |o| {
      assert Progress(o, r, i) == r;
    } else {
      EmptiedOutcome(o, r, i);
    }
  }

  /**
   * One iteration of process_marked's loop: a marked entry gets its
   * result, and a result of 0 removes the mark with del_mark.
   */
  method ProcessSlot(m: Marks, i: int, cwd: string, walk: string -> int, proc: string -> int,
                     ghost o: seq<Slot>, ghost d: string)
    requires LoopInv(m, o, Outcome(o, d, cwd, walk, proc), d, i) && i < m.bulk
    modifies m, m.entries
    ensures LoopInv(m, o, Outcome(o, d, cwd, walk, proc), d, i + 1)
    ensures m.entries == old(m.entries) || fresh(m.entries)
  {
    ghost var r := Outcome(o, d, cwd, walk, proc);
    ghost var p := Progress(o, r, i);
    ProgressStep(o, r, i);
    assert p[i] == o[i];
    var entry := m.entries[i];
    if entry.Some? {
      CountPositive(m.entries[..], i);
      assert entry == o[i];
      assert m.dirpath == d;
      var ret := EntryResult(m.dirpath, cwd, entry.value, walk, proc);
      if ret == 0 {
        assert r[i] == None;
        CountUpdate(m.entries[..], i, None);
        assert forall k :: 0 <= k < i ==> m.entries[k] == r[k] && (r[k] == None || r[k] == o[k]);
        // An earlier slot with the same name got the same result, 0, and was cleared.
        assert forall k :: 0 <= k < i ==> m.entries[k] != entry;
        assert IndexOf(m.entries[..], entry.value) == i;
        m.DelMark(entry.value);
        if m.nentries == 0 {
          CountZero(m.entries[..]);
          CountZero(Progress(o, r, i + 1));
          if m.bulk == |o| {
            assert m.entries[..] == Progress(o, r, i + 1);
          }
        }
      } else {
        assert r[i] == o[i];
        assert Progress(o, r, i + 1) == p;
      }
    } else {
      if m.bulk != |o| {
        CountZero(p);
      }
      assert o[i] == None;
      assert Progress(o, r, i + 1) == p;
    }
  }

  /**
   * process_marked's loop over the mark slots, each handled as ProcessSlot
   * says; true when no marks are left. Removing the last mark clears the
   * set as mark_none does, which may shrink the slot array.
   */
  method ProcessMarked(m: Marks, cwd: string, walk: string -> int, proc: string -> int) returns (ok: bool)
    requires m.Valid()
    modifies m, m.entries
    ensures m.Valid() && (m.entries == old(m.entries) || fresh(m.entries))
    ensures ok <==> m.nentries == 0
    ensures m.nentries == Count(Outcome(old(m.entries[..]), old(m.dirpath), cwd, walk, proc))
    ensures m.bulk == old(m.bulk) ==>
      m.entries[..] == Outcome(old(m.entries[..]), old(m.dirpath), cwd, walk, proc)
    ensures m.bulk != old(m.bulk) ==> m.nentries == 0 && m.bulk == BULK_INIT
    ensures m.dirpath == (if m.nentries == 0 then "" else old(m.dirpath))
  {
    ghost var o := m.entries[..];
    ghost var d := m.dirpath;
    LoopEntry(o, Outcome(o, d, cwd, walk, proc));
    var i := Sweep(m, cwd, walk, proc, o, d);
    LoopExit(m.entries[..], m.bulk, m.nentries, m.dirpath, o, d, cwd, walk, proc, i);
    ok := m.nentries == 0;
  }

  /** process_marked's loop: ProcessSlot on every slot of the array. */
  method Sweep(m: Marks, cwd: string, walk: string -> int, proc: string -> int,
               ghost o: seq<Slot>, ghost d: string) returns (i: int)
    requires LoopInv(m, o, Outcome(o, d, cwd, walk, proc), d, 0)
    modifies m, m.entries
    ensures LoopInv(m, o, Outcome(o, d, cwd, walk, proc), d, i) && i >= m.bulk
    ensures m.entries == old(m.entries) || fresh(m.entries)
  {
    i := 0;
    while i < m.bulk
      invariant LoopInv(m, o, Outcome(o, d, cwd, walk, proc), d, i)
      invariant m.entries == old(m.entries) || fresh(m.entries)
      decreases |o| - i
    {
      ProcessSlot(m, i, cwd, walk, proc, o, d);
      i := i + 1;
    }
  }

  /** Once the progress holds no mark, neither does the final outcome. */
  lemma EmptiedOutcome(o: seq<Slot>, r: seq<Slot>, i: int)
    requires |o| == |r| && 0 <= i <= |o|
    requires forall k :: 0 <= k < |o| ==> r[k] == None || r[k] == o[k]
    requires Count(Progress(o, r, i)) == 0
    ensures Count(r) == 0
  {
    CountZero(Progress(o, r, i));
    forall k | 0 <= k < |r|
      ensures r[k] == None
    {
      if k >= i {
        assert Progress(o, r, i)[k] == o[k];
      } else {
        assert Progress(o, r, i)[k] == r[k];
      }
    }
    CountZero(r);
  }
}
