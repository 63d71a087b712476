/**
 * The directory listing of fm.c: which directory entries `ls` keeps and
 * how it names them, the order `rowcmp` sorts them in, and the way `cd`
 * flags the rows that are in the mark set.
 *
 * The file system is abstracted to the sequence of entries readdir
 * returns, each with what lstat and stat report about it; strcoll is a
 * comparison function passed in as `coll`.
 */
module Listing {
  import opened Wrappers
  import opened MarkSet

  /** Listing view flags. */
  const SHOW_FILES: bv8 := 0x01
  const SHOW_DIRS: bv8 := 0x02
  const SHOW_HIDDEN: bv8 := 0x04

  /** One readdir result: its name, whether stat calls it a directory, whether lstat calls it a link. */
  datatype DirEntry = DirEntry(name: string, isDir: bool, isLink: bool)

  /** struct row: `isDir` is S_ISDIR of the stat mode. */
  datatype Row = Row(name: string, isDir: bool, isLink: bool, marked: bool)

  /** The ISDIR macro: a name that carries a slash. */
  predicate IsDirName(name: string): (b: bool)
    ensures b <==> exists k :: 0 <= k < |name| && name[k] == '/'
  {
    '/' in name
  }

  /** A dot-name, shown only with SHOW_HIDDEN. */
  predicate IsHidden(name: string): (b: bool)
    ensures b <==> "." <= name
  {
    |name| > 0 && name[0] == '.'
  }

  /**
   * The per-entry rule of ls: "." and ".." never, dot-names only with
   * SHOW_HIDDEN, directories only with SHOW_DIRS and everything else only
   * with SHOW_FILES; a directory that is not a symbolic link gets a
   * trailing slash.
   */
  function Listed(e: DirEntry, flags: bv8): (r: Option<Row>)
    ensures r.Some? <==>
      && e.name != "." && e.name != ".."
      && (IsHidden(e.name) ==> flags & SHOW_HIDDEN != 0)
      && (if e.isDir then flags & SHOW_DIRS != 0 else flags & SHOW_FILES != 0)
    ensures r.Some? ==> r.value.isDir == e.isDir && r.value.isLink == e.isLink && !r.value.marked
    ensures r.Some? ==> r.value.name == (if e.isDir && !e.isLink then e.name + "/" else e.name)
    ensures r.Some? && !IsDirName(e.name) ==> (IsDirName(r.value.name) <==> e.isDir && !e.isLink)
  {
    if e.name == "." || e.name == ".." then None
    else if flags & SHOW_HIDDEN == 0 && IsHidden(e.name) then None
    else if e.isDir then
      if flags & SHOW_DIRS != 0 then
        Some(Row(if e.isLink then e.name else e.name + "/", true, e.isLink, false))
      else None
    else if flags & SHOW_FILES != 0 then Some(Row(e.name, false, e.isLink, false))
    else None
  }

  /** The rows ls builds from `es`, in readdir order. */
  function Admitted(es: seq<DirEntry>, flags: bv8): (rows: seq<Row>)
    ensures |rows| <= |es|
  {
    if es == [] then []
    else
      var last := Listed(es[|es| - 1], flags);
      Admitted(es[..|es| - 1], flags) + (if last.Some? then [last.value] else [])
  }

  /** Every row ls keeps comes from an entry the per-entry rule admits. */
  lemma {:induction false} AdmittedSound(es: seq<DirEntry>, flags: bv8)
    ensures forall r :: r in Admitted(es, flags) ==>
      exists j :: 0 <= j < |es| && Listed(es[j], flags) == Some(r)
  {
    if es != [] {
      var init := es[..|es| - 1];
      AdmittedSound(init, flags);
      forall r | r in Admitted(es, flags)
        ensures exists j :: 0 <= j < |es| && Listed(es[j], flags) == Some(r)
      {
        if r in Admitted(init, flags) {
          var j :| 0 <= j < |init| && Listed(init[j], flags) == Some(r);
          assert es[j] == init[j];
        } else {
          assert Listed(es[|es| - 1], flags) == Some(r);
        }
      }
    }
  }

  /** Every entry the per-entry rule admits has its row in the listing. */
  lemma {:induction false} AdmittedComplete(es: seq<DirEntry>, flags: bv8)
    ensures forall j :: 0 <= j < |es| && Listed(es[j], flags).Some? ==>
      Listed(es[j], flags).value in Admitted(es, flags)
  {
    if es != [] {
      var init := es[..|es| - 1];
      AdmittedComplete(init, flags);
      forall j | 0 <= j < |es| - 1 && Listed(es[j], flags).Some?
        ensures Listed(es[j], flags).value in Admitted(es, flags)
      {
        assert es[j] == init[j];
      }
    }
  }

  /** An entry that ls skips leaves its row out: the listing is one shorter than the entries at most. */
  lemma {:induction false} AdmittedSkipsOne(es: seq<DirEntry>, flags: bv8, i: int)
    requires 0 <= i < |es| && Listed(es[i], flags).None?
    ensures |Admitted(es, flags)| <= |es| - 1
  {
    var init := es[..|es| - 1];
    if i < |es| - 1 {
      assert init[i] == es[i];
      AdmittedSkipsOne(init, flags, i);
    }
  }

  /** Two entries that ls skips leave the listing at least two shorter than the entries. */
  lemma {:induction false} AdmittedSkipsTwo(es: seq<DirEntry>, flags: bv8, i: int, j: int)
    requires 0 <= i < |es| && Listed(es[i], flags).None?
    requires 0 <= j < |es| && Listed(es[j], flags).None?
    requires i != j
    ensures |Admitted(es, flags)| <= |es| - 2
  {
    var last := |es| - 1;
    var init := es[..last];
    if i == last {
      assert init[j] == es[j];
      AdmittedSkipsOne(init, flags, j);
    } else if j == last {
      assert init[i] == es[i];
      AdmittedSkipsOne(init, flags, i);
    } else {
      assert init[i] == es[i] && init[j] == es[j];
      AdmittedSkipsTwo(init, flags, i, j);
    }
  }

  /** readdir reports the "." and ".." entries of every directory it opens. */
  predicate DotsListed(es: seq<DirEntry>)
  {
    && (exists i :: 0 <= i < |es| && es[i].name == ".")
    && (exists i :: 0 <= i < |es| && es[i].name == "..")
  }

  /**
   * The rows ls keeps fit into the array it allocates for all entries but
   * "." and "..".
   */
  lemma AdmittedFits(es: seq<DirEntry>, flags: bv8)
    requires DotsListed(es)
    ensures |Admitted(es, flags)| <= |es| - 2
  {
    var i :| 0 <= i < |es| && es[i].name == ".";
    var j :| 0 <= j < |es| && es[j].name == "..";
    AdmittedSkipsTwo(es, flags, i, j);
  }

  /** A directory with only its two dot entries lists nothing: ls's early return. */
  lemma DotsOnly(es: seq<DirEntry>, flags: bv8)
    requires DotsListed(es) && |es| == 2
    ensures Admitted(es, flags) == []
  {
    var i :| 0 <= i < |es| && es[i].name == ".";
    var j :| 0 <= j < |es| && es[j].name == "..";
    assert Listed(es[i], flags) == None && Listed(es[j], flags) == None;
    assert Admitted(es[..1], flags) == [] by {
      assert es[..1][..0] == [];
    }
  }

  /**
   * ls: -1 when the directory cannot be opened; otherwise the number of
   * entries kept and their rows. The qsort call that ends ls is not part
   * of this method (see SortedBy).
   */
  method Ls(dir: Option<seq<DirEntry>>, flags: bv8) returns (n: int, rows: seq<Row>)
    requires dir.Some? ==> DotsListed(dir.value)
    ensures dir.None? ==> n == -1 && rows == []
    ensures dir.Some? ==> n == |rows| && rows == Admitted(dir.value, flags)
    ensures dir.Some? ==> n <= |dir.value| - 2
  {
    if dir.None? {
      return -1, [];
    }
    var es := dir.value;
    AdmittedFits(es, flags);
    n := -2;
    var k := 0;
    while k < |es|
      invariant 0 <= k <= |es| && n == k - 2
    {
      n := n + 1;
      k := k + 1;
    }
    if n == 0 {
      DotsOnly(es, flags);
      return 0, [];
    }
    rows := [];
    k := 0;
    while k < |es|
      invariant 0 <= k <= |es|
      invariant rows == Admitted(es[..k], flags)
    {
      var r := Listed(es[k], flags);
      if r.Some? {
        rows := rows + [r.value];
      }
      assert es[..k + 1][..k] == es[..k];
      k := k + 1;
    }
    assert es[..k] == es;
    n := |rows|;
  }

  /** rowcmp: directories before everything else, then names by `coll`. */
  function RowCmp(r1: Row, r2: Row, coll: (string, string) -> int): (c: int)
    ensures r1.isDir && !r2.isDir ==> c < 0
    ensures !r1.isDir && r2.isDir ==> c > 0
    ensures r1.isDir == r2.isDir ==> c == coll(r1.name, r2.name)
  {
    var cmpdir := (if r2.isDir then 1 else 0) - (if r1.isDir then 1 else 0);
    if cmpdir != 0 then cmpdir else coll(r1.name, r2.name)
  }

  /** `coll` is antisymmetric in sign, as strcoll is. */
  ghost predicate Antisymmetric(coll: (string, string) -> int)
  {
    forall a, b :: (coll(a, b) < 0 <==> coll(b, a) > 0) && (coll(a, b) == 0 <==> coll(b, a) == 0)
  }

  /** rowcmp inherits antisymmetry from the name order, as qsort needs. */
  lemma RowCmpAntisymmetric(r1: Row, r2: Row, coll: (string, string) -> int)
    requires Antisymmetric(coll)
    ensures RowCmp(r1, r2, coll) < 0 <==> RowCmp(r2, r1, coll) > 0
    ensures RowCmp(r1, r2, coll) == 0 <==> RowCmp(r2, r1, coll) == 0
  {
    if r1.isDir == r2.isDir {
      assert (coll(r1.name, r2.name) < 0 <==> coll(r2.name, r1.name) > 0)
        && (coll(r1.name, r2.name) == 0 <==> coll(r2.name, r1.name) == 0);
    }
  }

  /** A listing in the order qsort leaves it with rowcmp. */
  predicate SortedBy(rows: seq<Row>, coll: (string, string) -> int)
  {
    forall i, j :: 0 <= i < j < |rows| ==> RowCmp(rows[i], rows[j], coll) <= 0
  }

  /** The number of directory rows. */
  function NumDirs(rows: seq<Row>): (d: nat)
    ensures d <= |rows|
  {
    if rows == [] then 0 else (if rows[0].isDir then 1 else 0) + NumDirs(rows[1..])
  }

  /** In a sorted listing the directories are exactly the first NumDirs rows. */
  lemma {:induction false} DirsFirst(rows: seq<Row>, coll: (string, string) -> int)
    requires SortedBy(rows, coll)
    ensures forall i :: 0 <= i < |rows| ==> (rows[i].isDir <==> i < NumDirs(rows))
  {
    if rows != [] {
      var rest := rows[1..];
      assert SortedBy(rest, coll) by {
        forall i, j | 0 <= i < j < |rest|
          ensures RowCmp(rest[i], rest[j], coll) <= 0
        {
          assert RowCmp(rows[i + 1], rows[j + 1], coll) <= 0;
        }
      }
      DirsFirst(rest, coll);
      if !rows[0].isDir {
        forall i | 1 <= i < |rows|
          ensures !rows[i].isDir
        {
          assert RowCmp(rows[0], rows[i], coll) <= 0;
        }
      }
      forall i | 1 <= i < |rows|
        ensures rows[i].isDir <==> i < NumDirs(rows)
      {
        assert rows[i] == rest[i - 1];
      }
    }
  }

  /**
   * The mark re-application in cd: a row is marked exactly when the
   * listed directory is the mark set's directory and its name is in one
   * of the set's slots.
   */
  method ApplyMarks(rows: array<Row>, cwd: string, marks: Marks)
    requires marks.entries.Length == marks.bulk
    modifies rows
    ensures forall i :: 0 <= i < rows.Length ==>
      rows[i] == old(rows[i]).(marked := cwd == marks.dirpath && Some(old(rows[i]).name) in marks.entries[..])
  {
    if cwd == marks.dirpath {
      var i := 0;
      while i < rows.Length
        invariant 0 <= i <= rows.Length
        invariant forall k :: 0 <= k < i ==>
          rows[k] == old(rows[k]).(marked := Some(old(rows[k]).name) in marks.entries[..])
        invariant forall k :: i <= k < rows.Length ==> rows[k] == old(rows[k])
      {
        var j := 0;
        while j < marks.bulk && marks.entries[j] != Some(rows[i].name)
          invariant 0 <= j <= marks.bulk
          invariant forall k :: 0 <= k < j ==> marks.entries[k] != Some(rows[i].name)
        {
          j := j + 1;
        }
        rows[i] := rows[i].(marked := j < marks.bulk);
        i := i + 1;
      }
    } else {
      var i := 0;
      while i < rows.Length
        invariant 0 <= i <= rows.Length
        invariant forall k :: 0 <= k < i ==> rows[k] == old(rows[k]).(marked := false)
        invariant forall k :: i <= k < rows.Length ==> rows[k] == old(rows[k])
      {
        rows[i] := rows[i].(marked := false);
        i := i + 1;
      }
    }
  }
}
