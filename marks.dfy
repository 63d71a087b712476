/**
 * The mark set of fm.c (struct marks, init_marks, mark_none, add_mark,
 * del_mark): a growable array of optional entry names, all belonging to
 * one source directory `dirpath`.
 */
module MarkSet {
  import opened Wrappers

  /** Initial capacity of the slot array. */
  const BULK_INIT: int := 5
  /** Above this capacity, clearing the set shrinks the array back to BULK_INIT. */
  const BULK_THRESH: int := 256

  /** One slot of the array: a marked entry name, or NULL. */
  type Slot = Option<string>

  /** 1 for a slot holding a name, 0 for a null slot. */
  function Used(o: Slot): nat
  {
    if o.Some? then 1 else 0
  }

  /** The number of non-null slots of `s`. */
  function Count(s: seq<Slot>): nat
  {
    if s == [] then 0 else Used(s[0]) + Count(s[1..])
  }

  /**
   * Capacity after the set is cleared, mark_none's shrink rule: never above
   * BULK_THRESH, never grown, and either kept or back to BULK_INIT.
   */
  function ClearedBulk(bulk: int): (r: int)
    ensures r <= BULK_THRESH
    ensures r == BULK_INIT || r == bulk
    ensures BULK_INIT <= bulk ==> BULK_INIT <= r <= bulk
  {
    if bulk > BULK_THRESH then BULK_INIT else bulk
  }

  /** There are never more non-null slots than slots. */
  lemma {:induction false} CountBound(s: seq<Slot>)
    ensures Count(s) <= |s|
  {
    if s != [] {
      CountBound(s[1..]);
    }
  }

  /** No slot is in use exactly when every slot is null. */
  lemma {:induction false} CountZero(s: seq<Slot>)
    ensures Count(s) == 0 <==> forall k :: 0 <= k < |s| ==> s[k] == None
  {
    if s != [] {
      CountZero(s[1..]);
      assert forall k :: 1 <= k < |s| ==> s[k] == s[1..][k - 1];
    }
  }

  /** Overwriting one slot changes the count by what the slot held and now holds. */
  lemma {:induction false} CountUpdate(s: seq<Slot>, i: int, v: Slot)
    requires 0 <= i < |s|
    ensures Count(s[i := v]) == Count(s) - Used(s[i]) + Used(v)
  {
    if i == 0 {
      assert s[i := v][1..] == s[1..];
    } else {
      assert s[i := v][1..] == s[1..][i - 1 := v];
      CountUpdate(s[1..], i - 1, v);
    }
  }

  /** `n` null slots, as memset leaves them. */
  function Nulls(n: nat): seq<Slot>
  {
    seq(n, _ => None)
  }

  /** Appending null slots does not change the count. */
  lemma CountPadded(s: seq<Slot>, n: nat)
    ensures Count(s + Nulls(n)) == Count(s)
  {
    CountAppend(s, Nulls(n));
    CountZero(Nulls(n));
  }

  /** The count of a concatenation is the sum of the counts of its parts. */
  lemma {:induction false} CountAppend(a: seq<Slot>, b: seq<Slot>)
    ensures Count(a + b) == Count(a) + Count(b)
  {
    if a == [] {
      assert a + b == b;
    } else {
      assert (a + b)[1..] == a[1..] + b;
      CountAppend(a[1..], b);
    }
  }

  /**
   * The first null slot, which add_mark's search loop finds; one exists
   * whenever fewer names are marked than there are slots.
   */
  function FirstFree(s: seq<Slot>): (i: int)
    requires Count(s) < |s|
    ensures 0 <= i < |s| && s[i] == None
    ensures forall k :: 0 <= k < i ==> s[k].Some?
  {
    if s[0] == None then 0
    else
      1 + FirstFree(s[1..])
  }

  /** The first slot holding `x`, which del_mark's search loop finds. */
  function IndexOf(s: seq<Slot>, x: string): (i: int)
    requires Some(x) in s
    ensures 0 <= i < |s| && s[i] == Some(x)
    ensures forall k :: 0 <= k < i ==> s[k] != Some(x)
  {
    if s[0] == Some(x) then 0
    else
      assert Some(x) in s[1..];
      1 + IndexOf(s[1..], x)
  }

  /** struct marks. */
  class Marks {
    var dirpath: string
    var bulk: int
    var nentries: int
    var entries: array<Slot>

    /**
     * bulk is the array's capacity and never below BULK_INIT; nentries counts
     * the non-null slots (mark_none's loop relies on this); an empty set has
     * no directory.
     */
    ghost predicate Valid()
      reads this, entries
    {
      && entries.Length == bulk
      && BULK_INIT <= bulk
      && nentries == Count(entries[..])
      && (nentries == 0 ==> dirpath == "")
    }

    /** init_marks: an empty set of BULK_INIT null slots. */
    constructor ()
      ensures Valid() && fresh(entries)
      ensures dirpath == "" && bulk == BULK_INIT && nentries == 0
      ensures forall k :: 0 <= k < bulk ==> entries[k] == None
    {
      dirpath := "";
      bulk := BULK_INIT;
      nentries := 0;
      entries := new Slot[BULK_INIT](_ => None);
      new;
      CountZero(entries[..]);
    }

    /**
     * mark_none: unmark everything and forget the directory; an array that
     * grew past BULK_THRESH is replaced by a fresh one of BULK_INIT slots.
     */
    method MarkNone()
      requires Valid()
      modifies this, entries
      ensures Valid() && (entries == old(entries) || fresh(entries))
      ensures dirpath == "" && nentries == 0
      ensures bulk == ClearedBulk(old(bulk))
      ensures old(bulk) <= BULK_THRESH ==> entries == old(entries)
      ensures forall k :: 0 <= k < bulk ==> entries[k] == None
    {
      dirpath := "";
      ClearSlots();
      if bulk > BULK_THRESH {
        bulk := BULK_INIT;
        entries := new Slot[BULK_INIT](_ => None);
        CountZero(entries[..]);
      }
    }

    /** mark_none's loop: null the slots in use until none is left. */
    method ClearSlots()
      requires Valid() && dirpath == ""
      modifies this, entries
      ensures Valid() && entries == old(entries) && bulk == old(bulk) && dirpath == ""
      ensures nentries == 0 && forall k :: 0 <= k < bulk ==> entries[k] == None
    {
      var i := 0;
      while i < bulk && nentries != 0
        invariant 0 <= i <= bulk == entries.Length
        invariant entries == old(entries) && bulk == old(bulk) && dirpath == ""
        invariant nentries == Count(entries[i..])
        invariant forall k :: 0 <= k < i ==> entries[k] == None
      {
        ghost var before := entries[..];
        assert entries[i..] == [entries[i]] + entries[i + 1..];
        if entries[i].Some? {
          entries[i] := None;
          nentries := nentries - 1;
        }
        assert entries[i + 1..] == before[i + 1..];
        i := i + 1;
      }
      assert i == bulk ==> entries[i..] == [];
      CountZero(entries[i..]);
      assert forall k :: i <= k < bulk ==> entries[k] == entries[i..][k - i];
      CountZero(entries[..]);
    }

    /**
     * The growth step of add_mark when every slot is taken: the array is
     * reallocated with bulk/2 extra slots, the old ones copied and the new
     * ones zeroed.
     */
    method Expand()
      requires Valid() && nentries == bulk
      modifies this
      ensures Valid() && fresh(entries)
      ensures dirpath == old(dirpath) && nentries == old(nentries)
      ensures bulk == old(bulk) + old(bulk) / 2
      ensures entries[..] == old(entries[..]) + Nulls(old(bulk) / 2)
    {
      var extra := bulk / 2;
      ghost var was := entries[..];
      var grown := new Slot[bulk + extra](_ => None);
      forall k | 0 <= k < bulk {
        grown[k] := entries[k];
      }
      assert grown[..] == was + Nulls(extra);
      CountPadded(was, extra);
      entries := grown;
      bulk := bulk + extra;
    }

    /**
     * add_mark: mark `entry` of directory `dir`. A different directory first
     * discards every mark and takes slot 0; otherwise the entry goes into the
     * first null slot, and a full array grows by half its size first.
     */
    method AddMark(dir: string, entry: string)
      requires Valid()
      modifies this, entries
      ensures Valid() && (entries == old(entries) || fresh(entries))
      ensures dirpath == dir
      ensures old(dirpath) != dir ==>
        && nentries == 1
        && bulk == ClearedBulk(old(bulk))
        && entries[..] == [Some(entry)] + Nulls(bulk - 1)
      ensures old(dirpath) == dir ==>
        && nentries == old(nentries) + 1
      ensures old(dirpath) == dir && old(nentries) == old(bulk) ==>
        && bulk == old(bulk) + old(bulk) / 2
        && entries[..] == old(entries[..]) + [Some(entry)] + Nulls(old(bulk) / 2 - 1)
      ensures old(dirpath) == dir && old(nentries) < old(bulk) ==>
        && bulk == old(bulk) && entries == old(entries)
        && entries[..] == old(entries[..])[FirstFree(old(entries[..])) := Some(entry)]
    {
      var i: int;
      if dirpath == dir {
        if nentries == bulk {
          Expand();
          i := nentries;
        } else {
          CountBound(entries[..]);
          ghost var free := FirstFree(entries[..]);
          i := 0;
          while i < bulk && entries[i] != None
            invariant 0 <= i <= free
            invariant forall k :: 0 <= k < i ==> entries[k].Some?
          {
            i := i + 1;
          }
        }
      } else {
        MarkNone();
        dirpath := dir;
        i := 0;
      }
      CountUpdate(entries[..], i, Some(entry));
      entries[i] := Some(entry);
      nentries := nentries + 1;
    }

    /**
     * del_mark: with more than one mark, null the first slot holding `entry`
     * (which must be there: the search would otherwise run past the array);
     * with at most one mark, clear the whole set as mark_none does.
     */
    method DelMark(entry: string)
      requires Valid()
      requires nentries > 1 ==> Some(entry) in entries[..]
      modifies this, entries
      ensures Valid() && (entries == old(entries) || fresh(entries))
      ensures old(nentries) > 1 ==>
        && dirpath == old(dirpath) && bulk == old(bulk) && entries == old(entries)
        && nentries == old(nentries) - 1
        && entries[..] == old(entries[..])[IndexOf(old(entries[..]), entry) := None]
      ensures old(nentries) <= 1 ==>
        && dirpath == "" && nentries == 0
        && bulk == ClearedBulk(old(bulk))
        && (forall k :: 0 <= k < bulk ==> entries[k] == None)
    {
      if nentries > 1 {
        ghost var at := IndexOf(entries[..], entry);
        var i := 0;
        while i < bulk && entries[i] != Some(entry)
          invariant 0 <= i <= at
        {
          i := i + 1;
        }
        CountUpdate(entries[..], i, None);
        entries[i] := None;
        nentries := nentries - 1;
      } else {
        MarkNone();
      }
    }
  }
}
