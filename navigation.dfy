/**
 * Selection and scrolling in fm.c: the clamp update_view applies before
 * drawing, the cursor commands cmd_down, cmd_up, cmd_scroll_down and
 * cmd_scroll_up, and try_to_sel, which reload uses to put the cursor back
 * on the entry it was on.
 *
 * `nfiles` is fm.nfiles (-1 after a failed ls) and `height` is HEIGHT,
 * the number of listing lines the terminal shows.
 */
module Navigation {
  import opened Listing

  function Min(a: int, b: int): int
  {
    if a < b then a else b
  }

  function Max(a: int, b: int): int
  {
    if a > b then a else b
  }

  /** ESEL names a row of the listing, or is 0 when there is none. */
  predicate SelOk(esel: int, nfiles: int)
  {
    0 <= esel <= Max(nfiles - 1, 0)
  }

  /**
   * The window starts inside the listing, does not run past its end, and
   * shows the selected row; a listing that fits is not scrolled.
   */
  predicate ScrollOk(scroll: int, esel: int, nfiles: int, height: int)
  {
    if nfiles > height then 0 <= scroll <= nfiles - height && scroll <= esel <= scroll + height - 1
    else scroll == 0
  }

  /**
   * The position the directory-skipping loop of try_to_sel stops at when
   * started at `i`: the first row from `i` on that is not a directory, but
   * never past the last row.
   */
  function SkipDirs(rows: seq<Row>, i: int): (j: int)
    requires SelOk(i, |rows|)
    ensures i <= j && SelOk(j, |rows|)
    ensures forall k :: i <= k < j ==> rows[k].isDir
    ensures j + 1 < |rows| ==> !rows[j].isDir
    decreases |rows| - i
  {
    if i + 1 < |rows| && rows[i].isDir then SkipDirs(rows, i + 1) else i
  }

  /**
   * The position the name loop of try_to_sel stops at when started at
   * `i`: the first row from `i` on whose name does not collate before
   * `target`, but never past the last row.
   */
  function SkipBefore(rows: seq<Row>, i: int, target: string, coll: (string, string) -> int): (j: int)
    requires SelOk(i, |rows|)
    ensures i <= j && SelOk(j, |rows|)
    ensures forall k :: i <= k < j ==> coll(rows[k].name, target) < 0
    ensures j + 1 < |rows| ==> coll(rows[j].name, target) >= 0
    decreases |rows| - i
  {
    if i + 1 < |rows| && coll(rows[i].name, target) < 0 then SkipBefore(rows, i + 1, target, coll) else i
  }

  /** SkipBefore stops at the first row that does not collate before the target. */
  lemma {:induction false} SkipBeforeStopsAt(rows: seq<Row>, i: int, t: int, target: string, coll: (string, string) -> int)
    requires 0 <= i <= t < |rows|
    requires forall k :: i <= k < t ==> coll(rows[k].name, target) < 0
    requires coll(rows[t].name, target) >= 0
    ensures SkipBefore(rows, i, target, coll) == t
    decreases t - i
  {
    if i < t {
      SkipBeforeStopsAt(rows, i + 1, t, target, coll);
    }
  }

  /** strcmp, the order strcoll gives in the C locale. */
  function StrCmp(a: string, b: string): (c: int)
    ensures c == 0 <==> a == b
  {
    if a == [] && b == [] then 0
    else if a == [] then -1
    else if b == [] then 1
    else if a[0] < b[0] then -1
    else if a[0] > b[0] then 1
    else StrCmp(a[1..], b[1..])
  }

  /** A name order that calls two names equal only when they are. */
  ghost predicate Exact(coll: (string, string) -> int)
  {
    forall a, b :: coll(a, b) == 0 <==> a == b
  }

  /** No two rows share a name, as in any directory listing. */
  predicate DistinctNames(rows: seq<Row>)
  {
    forall i, j :: 0 <= i < j < |rows| ==> rows[i].name != rows[j].name
  }

  /**
   * With the kind of the target row known, re-selection finds it: in a
   * listing sorted by rowcmp with distinct names, skipping the directories
   * only for a non-directory target and then the names that collate
   * before it stops exactly at the target.
   */
  lemma Reselects(rows: seq<Row>, t: int, coll: (string, string) -> int)
    requires SortedBy(rows, coll) && DistinctNames(rows) && Exact(coll)
    requires 0 <= t < |rows|
    ensures SkipBefore(rows, if rows[t].isDir then 0 else SkipDirs(rows, 0), rows[t].name, coll) == t
  {
    var target := rows[t].name;
    DirsFirst(rows, coll);
    var start := if rows[t].isDir then 0 else SkipDirs(rows, 0);
    assert start <= t;
    forall k | start <= k < t
      ensures coll(rows[k].name, target) < 0
    {
      assert rows[k].isDir == rows[t].isDir;
      assert RowCmp(rows[k], rows[t], coll) <= 0;
      assert rows[k].name != target;
    }
    assert coll(target, target) == 0;
    SkipBeforeStopsAt(rows, start, t, target, coll);
  }

  /** The selection state of struct tab; its flags and cwd are parameters where they are used. */
  class Tab {
    var scroll: int
    var esel: int

    /**
     * The clamp in update_view: the selection is brought into the listing
     * and the window is moved just enough to show it.
     */
    method Clamp(nfiles: int, height: int)
      modifies this`esel, this`scroll
      ensures esel == Max(Min(old(esel), nfiles - 1), 0)
      ensures nfiles > height ==>
        scroll == Min(Max(Max(Min(old(scroll), esel), esel - height + 1), 0), nfiles - height)
      ensures nfiles <= height ==> scroll == 0
      ensures SelOk(esel, nfiles)
      ensures height >= 1 ==> ScrollOk(scroll, esel, nfiles, height)
      ensures old(SelOk(esel, nfiles)) ==> esel == old(esel)
      ensures height >= 1 && old(SelOk(esel, nfiles) && ScrollOk(scroll, esel, nfiles, height)) ==>
        scroll == old(scroll)
    {
      esel := Max(Min(esel, nfiles - 1), 0);
      if nfiles > height {
        scroll := Max(Min(scroll, esel), esel - height + 1);
        scroll := Min(Max(scroll, 0), nfiles - height);
      } else {
        scroll := 0;
      }
    }

    /** cmd_down: one row down, unless the listing is empty. */
    method CmdDown(nfiles: int)
      modifies this`esel
      ensures nfiles == 0 ==> esel == old(esel)
      ensures nfiles != 0 ==> esel == Min(old(esel) + 1, nfiles - 1)
      ensures nfiles >= 0 && old(SelOk(esel, nfiles)) ==>
        SelOk(esel, nfiles) && old(esel) <= esel <= old(esel) + 1
    {
      if nfiles != 0 {
        esel := Min(esel + 1, nfiles - 1);
      }
    }

    /** cmd_up: one row up, unless the listing is empty. */
    method CmdUp(nfiles: int)
      modifies this`esel
      ensures nfiles == 0 ==> esel == old(esel)
      ensures nfiles != 0 ==> esel == Max(old(esel) - 1, 0)
      ensures old(SelOk(esel, nfiles)) ==> SelOk(esel, nfiles) && old(esel) - 1 <= esel <= old(esel)
    {
      if nfiles != 0 {
        esel := Max(esel - 1, 0);
      }
    }

    /** cmd_scroll_down: a page down, moving the window with the selection. */
    method CmdScrollDown(nfiles: int, height: int)
      modifies this`esel, this`scroll
      ensures nfiles == 0 ==> esel == old(esel) && scroll == old(scroll)
      ensures nfiles != 0 ==> esel == Min(old(esel) + height, nfiles - 1)
      ensures nfiles != 0 && nfiles > height ==> scroll == Min(old(scroll) + height, nfiles - height)
      ensures nfiles <= height ==> scroll == old(scroll)
      ensures nfiles >= 0 && height >= 1 && old(SelOk(esel, nfiles) && ScrollOk(scroll, esel, nfiles, height)) ==>
        SelOk(esel, nfiles) && ScrollOk(scroll, esel, nfiles, height)
    {
      if nfiles == 0 {
        return;
      }
      esel := Min(esel + height, nfiles - 1);
      if nfiles > height {
        scroll := Min(scroll + height, nfiles - height);
      }
    }

    /** cmd_scroll_up: a page up, moving the window with the selection. */
    method CmdScrollUp(nfiles: int, height: int)
      modifies this`esel, this`scroll
      ensures nfiles == 0 ==> esel == old(esel) && scroll == old(scroll)
      ensures nfiles != 0 ==> esel == Max(old(esel) - height, 0) && scroll == Max(old(scroll) - height, 0)
      ensures height >= 1 && old(SelOk(esel, nfiles) && ScrollOk(scroll, esel, nfiles, height)) ==>
        SelOk(esel, nfiles) && ScrollOk(scroll, esel, nfiles, height)
    {
      if nfiles == 0 {
        return;
      }
      esel := Max(esel - height, 0);
      scroll := Max(scroll - height, 0);
    }

    /**
     * try_to_sel: start at the top; for a target without a slash skip the
     * leading directories; then skip the names that collate before the
     * target. The cursor never passes the last row.
     */
    method TrySel(rows: seq<Row>, target: string, coll: (string, string) -> int)
      modifies this`esel
      ensures esel == SkipBefore(rows, if IsDirName(target) then 0 else SkipDirs(rows, 0), target, coll)
      ensures SelOk(esel, |rows|)
      ensures forall k :: 0 <= k < esel ==>
        (!IsDirName(target) && rows[k].isDir) || coll(rows[k].name, target) < 0
      ensures esel + 1 < |rows| ==> coll(rows[esel].name, target) >= 0
    {
      esel := 0;
      if !IsDirName(target) {
        while esel + 1 < |rows| && rows[esel].isDir
          invariant SelOk(esel, |rows|) && SkipDirs(rows, esel) == SkipDirs(rows, 0)
          invariant forall k :: 0 <= k < esel ==> rows[k].isDir
          decreases |rows| - esel
        {
          esel := esel + 1;
        }
      }
      ghost var start := esel;
      while esel + 1 < |rows| && coll(rows[esel].name, target) < 0
        invariant start <= esel && SelOk(esel, |rows|)
        invariant SkipBefore(rows, esel, target, coll) == SkipBefore(rows, start, target, coll)
        invariant forall k :: start <= k < esel ==> coll(rows[k].name, target) < 0
        decreases |rows| - esel
      {
        esel := esel + 1;
      }
    }

    /**
     * try_to_sel as evidently intended: whether to skip the directories is
     * decided by the kind of the entry that was selected, not by a slash in
     * its name, which symbolic links to directories do not get.
     */
    method TrySelEntry(rows: seq<Row>, target: string, targetIsDir: bool, coll: (string, string) -> int)
      modifies this`esel
      ensures esel == SkipBefore(rows, if targetIsDir then 0 else SkipDirs(rows, 0), target, coll)
      ensures SelOk(esel, |rows|)
      ensures SortedBy(rows, coll) && DistinctNames(rows) && Exact(coll) ==>
        forall t :: 0 <= t < |rows| && rows[t].name == target && rows[t].isDir == targetIsDir ==> esel == t
    {
      esel := 0;
      if !targetIsDir {
        while esel + 1 < |rows| && rows[esel].isDir
          invariant SelOk(esel, |rows|) && SkipDirs(rows, esel) == SkipDirs(rows, 0)
          decreases |rows| - esel
        {
          esel := esel + 1;
        }
      }
      ghost var start := esel;
      while esel + 1 < |rows| && coll(rows[esel].name, target) < 0
        invariant SelOk(esel, |rows|)
        invariant SkipBefore(rows, esel, target, coll) == SkipBefore(rows, start, target, coll)
        decreases |rows| - esel
      {
        esel := esel + 1;
      }
      if SortedBy(rows, coll) && DistinctNames(rows) && Exact(coll) {
        forall t | 0 <= t < |rows| && rows[t].name == target && rows[t].isDir == targetIsDir
          ensures esel == t
        {
          Reselects(rows, t, coll);
        }
      }
    }
  }

  /**
   * reload on a listing whose selected entry is a symbolic link to a
   * directory: the link sorts among the directories but has no slash, so
   * try_to_sel skips it and the cursor lands on the file after it.
   */
  method SymlinkedDirLosesSelection() returns (sel: int)
    ensures sel == 1
  {
    var rows := [Row("link", true, true, false), Row("a.txt", false, false, false)];
    assert SkipDirs(rows, 0) == 1;
    assert SkipBefore(rows, 1, "link", StrCmp) == 1;
    var tab := new Tab;
    tab.TrySel(rows, rows[0].name, StrCmp);
    sel := tab.esel;
  }

  /** The corrected re-selection keeps the cursor on the symbolic link. */
  method SymlinkedDirKeepsSelection() returns (sel: int)
    ensures sel == 0
  {
    var rows := [Row("link", true, true, false), Row("a.txt", false, false, false)];
    assert SkipBefore(rows, 0, "link", StrCmp) == 0;
    var tab := new Tab;
    tab.TrySelEntry(rows, rows[0].name, rows[0].isDir, StrCmp);
    sel := tab.esel;
  }
}
