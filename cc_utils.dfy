/**
 * `CCUtils.updateHigherElements` of the course creator: after a lesson or
 * task is inserted or deleted, every sibling directory whose orderable has an
 * index above a threshold gets its index shifted by `delta` and its directory
 * renamed to `prefix + newIndex`.
 *
 * A directory is a `Dir`: its current name and the index of the orderable
 * (lesson or task) that the caller's lookup function gives for it, or None
 * when the lookup gives null. The array of directories is updated in place,
 * one entry per processed directory, as the Java loop does with
 * `orderable.setIndex` and `dir.rename`.
 */
module CourseCreator {
  import opened Wrappers
  import opened Decimal

  datatype Dir = Dir(name: string, orderable: Option<int>)

  function Index(d: Dir): int
    requires d.orderable.Some?
  {
    d.orderable.value
  }

  /** The filter of the source: the orderable is not null and its index is above the threshold. */
  predicate IsHigher(d: Dir, threshold: int) {
    d.orderable.Some? && d.orderable.value > threshold
  }

  /** The name a directory with index `i` should carry. */
  function NameFor(prefix: string, i: int): string {
    prefix + IntToString(i)
  }

  /** The name `dir.rename` is called with when `d` is processed. */
  function TargetName(d: Dir, prefix: string, delta: int): string
    requires d.orderable.Some?
  {
    NameFor(prefix, Index(d) + delta)
  }

  // ---------------------------------------------------------------------
  // Processing order
  // ---------------------------------------------------------------------

  /** The sign of `EduUtils.INDEX_COMPARATOR`, taken to compare indices ascending. */
  function CompareIndex(a: int, b: int): int {
    if a < b then -1 else if a == b then 0 else 1
  }

  /** The comparator handed to `Collections.sort`: `(-delta) * compare(o1, o2)`. */
  function RenameComparator(ds: seq<Dir>, delta: int, p: nat, q: nat): int
    requires p < |ds| && q < |ds| && ds[p].orderable.Some? && ds[q].orderable.Some?
  {
    (-delta) * CompareIndex(Index(ds[p]), Index(ds[q]))
  }

  /**
   * Directory `p` is processed before directory `q`: for a positive delta
   * the higher index goes first, for a negative delta the lower one, and
   * directories the comparator ranks equal keep their input order (the sort
   * is stable and its input is in array order).
   */
  predicate Precedes(ds: seq<Dir>, delta: int, p: nat, q: nat) {
    var i, j := SortKey(ds, delta, p), SortKey(ds, delta, q);
    i < j || (i == j && p < q)
  }

  /**
   * The index of the orderable at position `p` as the comparator sees it:
   * negated for a positive delta, ignored for a zero delta. Positions
   * without an orderable never reach the comparator; they get key 0.
   */
  function SortKey(ds: seq<Dir>, delta: int, p: nat): int {
    if p < |ds| && ds[p].orderable.Some? then
      if delta > 0 then -Index(ds[p]) else if delta < 0 then Index(ds[p]) else 0
    else 0
  }

  /** `Precedes` is exactly the order that the sign-flipped comparator and a stable sort produce. */
  lemma PrecedesMatchesComparator(ds: seq<Dir>, delta: int, p: nat, q: nat)
    requires p < |ds| && q < |ds| && ds[p].orderable.Some? && ds[q].orderable.Some?
    ensures var c := RenameComparator(ds, delta, p, q);
      Precedes(ds, delta, p, q) <==> c < 0 || (c == 0 && p < q)
  {
    var k := CompareIndex(Index(ds[p]), Index(ds[q]));
    if delta > 0 {
      assert k < 0 ==> (-delta) * k > 0;
      assert k > 0 ==> (-delta) * k < 0;
    } else if delta < 0 {
      assert k < 0 ==> (-delta) * k < 0;
      assert k > 0 ==> (-delta) * k > 0;
    }
  }

  predicate AllOrderable(ds: seq<Dir>, s: seq<nat>) {
    forall i :: 0 <= i < |s| ==> s[i] < |ds| && ds[s[i]].orderable.Some?
  }

  predicate Distinct(s: seq<nat>) {
    forall i, j :: 0 <= i < j < |s| ==> s[i] != s[j]
  }

  predicate StrictlyIncreasing(s: seq<nat>) {
    forall i, j :: 0 <= i < j < |s| ==> s[i] < s[j]
  }

  /** `s` holds exactly the positions of the directories the filter keeps. */
  predicate SelectsHigher(ds: seq<Dir>, threshold: int, s: seq<nat>) {
    && (forall i :: 0 <= i < |s| ==> s[i] < |ds| && IsHigher(ds[s[i]], threshold))
    && (forall p :: 0 <= p < |ds| && IsHigher(ds[p], threshold) ==> p in s)
  }

  predicate SortedForRenaming(ds: seq<Dir>, delta: int, s: seq<nat>) {
    forall i, j :: 0 <= i < j < |s| ==> Precedes(ds, delta, s[i], s[j])
  }

  /** The order in which `updateHigherElements` processes the directories. */
  ghost predicate RenameOrder(ds: seq<Dir>, threshold: int, delta: int, order: seq<nat>) {
    SelectsHigher(ds, threshold, order) && SortedForRenaming(ds, delta, order)
  }

  /** The processing order is determined: two orders that both satisfy `RenameOrder` are equal. */
  lemma {:induction false} SortedUnique(ds: seq<Dir>, delta: int, s1: seq<nat>, s2: seq<nat>)
    requires SortedForRenaming(ds, delta, s1) && SortedForRenaming(ds, delta, s2)
    requires forall x :: x in s1 <==> x in s2
    ensures s1 == s2
  {
    assert s1 != [] ==> s1[0] in s2;
    assert s2 != [] ==> s2[0] in s1;
    if s1 != [] {
      var i :| 0 <= i < |s1| && s1[i] == s2[0];
      var j :| 0 <= j < |s2| && s2[j] == s1[0];
      if i > 0 && j > 0 {
        assert false;
      }
      assert s1[0] == s2[0];
      forall x
        ensures x in s1[1..] <==> x in s2[1..]
      {
        if x in s1[1..] {
          var m :| 1 <= m < |s1| && s1[m] == x;
          assert Precedes(ds, delta, s1[0], s1[m]);
          assert x in s2;
          assert x != s2[0];
        }
        if x in s2[1..] {
          var m :| 1 <= m < |s2| && s2[m] == x;
          assert Precedes(ds, delta, s2[0], s2[m]);
          assert x in s1;
          assert x != s1[0];
        }
      }
      SortedUnique(ds, delta, s1[1..], s2[1..]);
      assert s1 == [s1[0]] + s1[1..];
      assert s2 == [s2[0]] + s2[1..];
    }
  }

  /**
   * The direction of processing: descending indices for a positive delta,
   * ascending for a negative one, and the input order when delta is 0 (the
   * comparator is then constantly 0).
   */
  lemma ProcessingDirection(ds: seq<Dir>, threshold: int, delta: int, order: seq<nat>)
    requires RenameOrder(ds, threshold, delta, order)
    ensures delta > 0 ==> forall i, j :: 0 <= i < j < |order| ==> Index(ds[order[i]]) >= Index(ds[order[j]])
    ensures delta < 0 ==> forall i, j :: 0 <= i < j < |order| ==> Index(ds[order[i]]) <= Index(ds[order[j]])
    ensures delta == 0 ==> StrictlyIncreasing(order)
  {
  }

  // ---------------------------------------------------------------------
  // Effect of processing
  // ---------------------------------------------------------------------

  /**
   * Processing one directory: its orderable gets index `index + delta`, then
   * the directory is renamed to `prefix + newIndex`, unless that rename
   * throws (its position is in `renameFails`), which is logged and swallowed.
   */
  function Shift(d: Dir, p: nat, prefix: string, delta: int, renameFails: set<nat>): (r: Dir)
    requires d.orderable.Some?
  {
    var newIndex := Index(d) + delta;
    Dir(if p in renameFails then d.name else NameFor(prefix, newIndex), Some(newIndex))
  }

  function Step(ds: seq<Dir>, p: nat, prefix: string, delta: int, renameFails: set<nat>): seq<Dir> {
    if p < |ds| && ds[p].orderable.Some? then ds[p := Shift(ds[p], p, prefix, delta, renameFails)] else ds
  }

  /** The directories after processing the positions of `s` in turn. */
  function Run(ds: seq<Dir>, s: seq<nat>, prefix: string, delta: int, renameFails: set<nat>): (r: seq<Dir>)
    ensures |r| == |ds|
    ensures forall p :: 0 <= p < |ds| ==> (r[p].orderable.Some? <==> ds[p].orderable.Some?)
  {
    if s == [] then ds
    else Step(Run(ds, s[..|s| - 1], prefix, delta, renameFails), s[|s| - 1], prefix, delta, renameFails)
  }

  /** A directory that has not been processed yet is exactly as it was. */
  lemma {:induction false} RunFrame(ds: seq<Dir>, s: seq<nat>, prefix: string, delta: int, renameFails: set<nat>, p: nat)
    requires p < |ds| && p !in s
    ensures Run(ds, s, prefix, delta, renameFails)[p] == ds[p]
  {
    if s != [] {
      RunFrame(ds, s[..|s| - 1], prefix, delta, renameFails, p);
    }
  }

  /** A directory processed once has been shifted once, from its original state. */
  lemma {:induction false} RunShifts(ds: seq<Dir>, s: seq<nat>, prefix: string, delta: int, renameFails: set<nat>, p: nat)
    requires AllOrderable(ds, s) && Distinct(s)
    requires p in s
    ensures p < |ds| && ds[p].orderable.Some?
    ensures Run(ds, s, prefix, delta, renameFails)[p] == Shift(ds[p], p, prefix, delta, renameFails)
  {
    var last := s[|s| - 1];
    var init := s[..|s| - 1];
    if p == last {
      assert p !in init;
      RunFrame(ds, init, prefix, delta, renameFails, p);
    } else {
      assert p in init;
      RunShifts(ds, init, prefix, delta, renameFails, p);
    }
  }

  /**
   * Only the selected directories change, each exactly once: the orderable
   * index moves by `delta` and the name becomes `prefix + newIndex` unless
   * the rename failed, in which case the old name stays.
   */
  lemma RunRenumbers(ds: seq<Dir>, threshold: int, prefix: string, delta: int, renameFails: set<nat>, order: seq<nat>)
    requires RenameOrder(ds, threshold, delta, order) && Distinct(order)
    ensures var r := Run(ds, order, prefix, delta, renameFails);
      forall p :: 0 <= p < |ds| ==>
        r[p] == if IsHigher(ds[p], threshold) then Shift(ds[p], p, prefix, delta, renameFails) else ds[p]
  {
    forall p | 0 <= p < |ds|
      ensures Run(ds, order, prefix, delta, renameFails)[p]
           == if IsHigher(ds[p], threshold) then Shift(ds[p], p, prefix, delta, renameFails) else ds[p]
    {
      if IsHigher(ds[p], threshold) {
        RunShifts(ds, order, prefix, delta, renameFails, p);
      } else {
        assert p !in order;
        RunFrame(ds, order, prefix, delta, renameFails, p);
      }
    }
  }

  // ---------------------------------------------------------------------
  // Collision freedom
  // ---------------------------------------------------------------------

  /** Every selected directory is named after its index. */
  predicate CanonicalNames(ds: seq<Dir>, threshold: int, prefix: string) {
    forall p :: 0 <= p < |ds| && IsHigher(ds[p], threshold) ==> ds[p].name == NameFor(prefix, Index(ds[p]))
  }

  /**
   * What the comment in the source relies on: when directory `order[k]` is
   * renamed, no selected directory still waiting for its turn holds the
   * target name, for any nonzero delta.
   */
  lemma NoCollisionWithPending(ds: seq<Dir>, threshold: int, prefix: string, delta: int, renameFails: set<nat>, order: seq<nat>)
    requires RenameOrder(ds, threshold, delta, order)
    requires delta != 0
    requires CanonicalNames(ds, threshold, prefix)
    ensures forall k, j :: 0 <= k < j < |order| ==>
      var st := Run(ds, order[..k], prefix, delta, renameFails);
      st[order[j]].name != TargetName(st[order[k]], prefix, delta)
  {
    forall k, j | 0 <= k < j < |order|
      ensures var st := Run(ds, order[..k], prefix, delta, renameFails);
        st[order[j]].name != TargetName(st[order[k]], prefix, delta)
    {
      PendingNameDiffers(ds, threshold, prefix, delta, renameFails, order, k, j);
    }
  }

  lemma PendingNameDiffers(ds: seq<Dir>, threshold: int, prefix: string, delta: int, renameFails: set<nat>, order: seq<nat>, k: nat, j: nat)
    requires RenameOrder(ds, threshold, delta, order)
    requires delta != 0
    requires CanonicalNames(ds, threshold, prefix)
    requires k < j < |order|
    ensures var st := Run(ds, order[..k], prefix, delta, renameFails);
      && st[order[k]] == ds[order[k]] && st[order[j]] == ds[order[j]]
      && st[order[j]].name != TargetName(st[order[k]], prefix, delta)
  {
    var p, q := order[k], order[j];
    assert Precedes(ds, delta, p, q);
    assert p !in order[..k] by {
      forall m | 0 <= m < k ensures order[m] != p { assert Precedes(ds, delta, order[m], p); }
    }
    assert q !in order[..k] by {
      forall m | 0 <= m < k ensures order[m] != q { assert Precedes(ds, delta, order[m], q); }
    }
    RunFrame(ds, order[..k], prefix, delta, renameFails, p);
    RunFrame(ds, order[..k], prefix, delta, renameFails, q);
    assert Index(ds[q]) != Index(ds[p]) + delta;
    if ds[q].name == TargetName(ds[p], prefix, delta) {
      PrefixedNameInjective(prefix, Index(ds[q]), Index(ds[p]) + delta);
    }
  }

  /** A sorted order never repeats a directory. */
  lemma SortedDistinct(ds: seq<Dir>, delta: int, s: seq<nat>)
    requires SortedForRenaming(ds, delta, s)
    ensures Distinct(s)
  {
  }

  /**
   * The conditions under which the callers expect no rename to collide:
   * selected directories carry distinct indices, none of their renames
   * fails, and no directory outside the selection holds one of the new
   * names.
   */
  ghost predicate SafeToRenumber(ds: seq<Dir>, threshold: int, prefix: string, delta: int, renameFails: set<nat>) {
    && CanonicalNames(ds, threshold, prefix)
    && (forall p, q :: 0 <= p < q < |ds| && IsHigher(ds[p], threshold) && IsHigher(ds[q], threshold) ==> Index(ds[p]) != Index(ds[q]))
    && (forall p :: 0 <= p < |ds| && IsHigher(ds[p], threshold) ==> p !in renameFails)
    && (forall p, q :: 0 <= p < |ds| && 0 <= q < |ds| && IsHigher(ds[p], threshold) && !IsHigher(ds[q], threshold) ==>
          ds[q].name != TargetName(ds[p], prefix, delta))
  }

  /** A directory renamed earlier now carries a name different from the target of the current one. */
  lemma ProcessedNameDiffers(ds: seq<Dir>, threshold: int, prefix: string, delta: int, renameFails: set<nat>, order: seq<nat>, m: nat, k: nat)
    requires RenameOrder(ds, threshold, delta, order)
    requires SafeToRenumber(ds, threshold, prefix, delta, renameFails)
    requires m < k < |order|
    ensures var st := Run(ds, order[..k], prefix, delta, renameFails);
      && st[order[k]] == ds[order[k]]
      && st[order[m]].name != TargetName(st[order[k]], prefix, delta)
  {
    var p, q := order[k], order[m];
    SortedDistinct(ds, delta, order);
    assert Distinct(order[..k]);
    assert p !in order[..k];
    assert q in order[..k];
    RunFrame(ds, order[..k], prefix, delta, renameFails, p);
    RunShifts(ds, order[..k], prefix, delta, renameFails, q);
    assert Index(ds[q]) != Index(ds[p]) by {
      if q < p { assert Index(ds[q]) != Index(ds[p]); } else { assert Index(ds[p]) != Index(ds[q]); }
    }
    if NameFor(prefix, Index(ds[q]) + delta) == TargetName(ds[p], prefix, delta) {
      PrefixedNameInjective(prefix, Index(ds[q]) + delta, Index(ds[p]) + delta);
    }
  }

  /** A directory outside the selection never holds the target of the current rename. */
  lemma UnselectedNameDiffers(ds: seq<Dir>, threshold: int, prefix: string, delta: int, renameFails: set<nat>, order: seq<nat>, k: nat, q: nat)
    requires RenameOrder(ds, threshold, delta, order)
    requires SafeToRenumber(ds, threshold, prefix, delta, renameFails)
    requires k < |order| && q < |ds| && !IsHigher(ds[q], threshold)
    ensures var st := Run(ds, order[..k], prefix, delta, renameFails);
      st[q].name != TargetName(st[order[k]], prefix, delta)
  {
    SortedDistinct(ds, delta, order);
    assert order[k] !in order[..k];
    assert q !in order[..k];
    RunFrame(ds, order[..k], prefix, delta, renameFails, order[k]);
    RunFrame(ds, order[..k], prefix, delta, renameFails, q);
  }

  /**
   * Under `SafeToRenumber`, no rename ever targets a name held by another
   * directory at that moment: neither one still waiting, nor one already
   * renamed, nor one outside the selection.
   */
  lemma NoRenameCollision(ds: seq<Dir>, threshold: int, prefix: string, delta: int, renameFails: set<nat>, order: seq<nat>)
    requires RenameOrder(ds, threshold, delta, order)
    requires delta != 0
    requires SafeToRenumber(ds, threshold, prefix, delta, renameFails)
    ensures forall k, q :: 0 <= k < |order| && 0 <= q < |ds| && q != order[k] ==>
      var st := Run(ds, order[..k], prefix, delta, renameFails);
      st[q].name != TargetName(st[order[k]], prefix, delta)
  {
    forall k, q | 0 <= k < |order| && 0 <= q < |ds| && q != order[k]
      ensures var st := Run(ds, order[..k], prefix, delta, renameFails);
        st[q].name != TargetName(st[order[k]], prefix, delta)
    {
      if !IsHigher(ds[q], threshold) {
        UnselectedNameDiffers(ds, threshold, prefix, delta, renameFails, order, k, q);
      } else {
        assert q in order;
        var j :| 0 <= j < |order| && order[j] == q;
        if j < k {
          ProcessedNameDiffers(ds, threshold, prefix, delta, renameFails, order, j, k);
        } else {
          PendingNameDiffers(ds, threshold, prefix, delta, renameFails, order, k, j);
        }
      }
    }
  }

  // ---------------------------------------------------------------------
  // The imperative operation
  // ---------------------------------------------------------------------

  /** The filter: the positions of the directories whose orderable is non-null with index above `threshold`, in array order. */
  method SelectHigher(dirs: array<Dir>, threshold: int) returns (selected: seq<nat>)
    ensures SelectsHigher(dirs[..], threshold, selected)
    ensures StrictlyIncreasing(selected)
  {
    selected := [];
    var p := 0;
    while p < dirs.Length
      invariant 0 <= p <= dirs.Length
      invariant forall i :: 0 <= i < |selected| ==> selected[i] < p && IsHigher(dirs[selected[i]], threshold)
      invariant forall q :: 0 <= q < p && IsHigher(dirs[q], threshold) ==> q in selected
      invariant StrictlyIncreasing(selected)
    {
      if IsHigher(dirs[p], threshold) {
        selected := selected + [p];
      }
      p := p + 1;
    }
  }

  /** `q` does not have to be processed before `p`. */
  predicate NotAfter(ds: seq<Dir>, delta: int, p: nat, q: nat) {
    !Precedes(ds, delta, q, p)
  }

  lemma {:induction false} DistinctCounts(s: seq<nat>)
    requires Distinct(s)
    ensures forall x :: multiset(s)[x] <= 1
  {
    if s != [] {
      var init := s[..|s| - 1];
      assert s == init + [s[|s| - 1]];
      assert s[|s| - 1] !in init;
      DistinctCounts(init);
    }
  }

  lemma CountsDistinct(s: seq<nat>)
    requires forall x :: multiset(s)[x] <= 1
    ensures Distinct(s)
  {
    forall i, j | 0 <= i < j < |s|
      ensures s[i] != s[j]
    {
      assert s == s[..j] + s[j..];
      assert multiset(s) == multiset(s[..j]) + multiset(s[j..]);
      assert s[i] in multiset(s[..j]);
      assert s[j] in multiset(s[j..]);
      assert multiset(s)[s[j]] >= multiset(s[..j])[s[j]] + 1;
    }
  }

  /** `Collections.sort` with the renaming comparator, as an insertion sort over the selected positions. */
  method SortForRenaming(ds: seq<Dir>, delta: int, a: array<nat>)
    requires Distinct(a[..])
    modifies a
    ensures multiset(a[..]) == old(multiset(a[..]))
    ensures Distinct(a[..])
    ensures SortedForRenaming(ds, delta, a[..])
  {
    DistinctCounts(a[..]);
    var i := 0;
    while i < a.Length
      invariant 0 <= i <= a.Length
      invariant multiset(a[..]) == old(multiset(a[..]))
      invariant forall m, n :: 0 <= m < n < i ==> NotAfter(ds, delta, a[m], a[n])
    {
      InsertIntoPrefix(ds, delta, a, i);
      i := i + 1;
    }
    CountsDistinct(a[..]);
  }

  /** One pass of the insertion sort: `a[i]` moves down into the sorted prefix `a[..i]`. */
  method InsertIntoPrefix(ds: seq<Dir>, delta: int, a: array<nat>, i: nat)
    requires i < a.Length
    requires forall m, n :: 0 <= m < n < i ==> NotAfter(ds, delta, a[m], a[n])
    modifies a
    ensures multiset(a[..]) == old(multiset(a[..]))
    ensures forall m, n :: 0 <= m < n <= i ==> NotAfter(ds, delta, a[m], a[n])
  {
    var j := i;
    while j > 0 && Precedes(ds, delta, a[j], a[j - 1])
      invariant 0 <= j <= i
      invariant multiset(a[..]) == old(multiset(a[..]))
      invariant forall m, n :: 0 <= m < n <= i && m != j && n != j ==> NotAfter(ds, delta, a[m], a[n])
      invariant forall n :: j < n <= i ==> NotAfter(ds, delta, a[j], a[n])
    {
      a[j - 1], a[j] := a[j], a[j - 1];
      j := j - 1;
    }
  }

  /**
   * `updateHigherElements(dirs, lookup, threshold, prefix, delta)`. Returns
   * the order in which the directories were processed (the sequence of
   * `setIndex`/`rename` calls), which the Java method does not return.
   */
  method UpdateHigherElements(dirs: array<Dir>, threshold: int, prefix: string, delta: int, renameFails: set<nat>)
    returns (order: seq<nat>)
    modifies dirs
    ensures RenameOrder(old(dirs[..]), threshold, delta, order) && Distinct(order)
    ensures dirs[..] == Run(old(dirs[..]), order, prefix, delta, renameFails)
    ensures forall p :: 0 <= p < dirs.Length ==>
      dirs[p] == if IsHigher(old(dirs[p]), threshold) then Shift(old(dirs[p]), p, prefix, delta, renameFails) else old(dirs[p])
  {
    var selected := SelectHigher(dirs, threshold);
    var a := new nat[|selected|](i requires 0 <= i < |selected| => selected[i]);
    assert a[..] == selected;
    assert Distinct(selected);
    SortForRenaming(dirs[..], delta, a);
    order := a[..];
    SameElements(order, selected);
    forall i | 0 <= i < |order|
      ensures order[i] < dirs.Length && IsHigher(dirs[order[i]], threshold)
    {
      assert order[i] in selected;
    }
    ShiftAndRename(dirs, order, prefix, delta, renameFails);
    RunRenumbers(old(dirs[..]), threshold, prefix, delta, renameFails, order);
  }

  lemma SameElements(s: seq<nat>, t: seq<nat>)
    requires multiset(s) == multiset(t)
    ensures forall x :: x in s <==> x in t
  {
    forall x ensures x in s <==> x in t {
      assert x in s <==> x in multiset(s);
      assert x in t <==> x in multiset(t);
    }
  }

  /** The loop of the source: each directory of `order` in turn gets its index shifted, then is renamed. */
  method ShiftAndRename(dirs: array<Dir>, order: seq<nat>, prefix: string, delta: int, renameFails: set<nat>)
    requires AllOrderable(dirs[..], order) && Distinct(order)
    modifies dirs
    ensures dirs[..] == Run(old(dirs[..]), order, prefix, delta, renameFails)
  {
    var k := 0;
    while k < |order|
      invariant 0 <= k <= |order|
      invariant dirs[..] == Run(old(dirs[..]), order[..k], prefix, delta, renameFails)
    {
      var p := order[k];
      assert p !in order[..k];
      RunFrame(old(dirs[..]), order[..k], prefix, delta, renameFails, p);
      var d := dirs[p];
      var newIndex := d.orderable.value + delta;
      if p in renameFails {
        dirs[p] := Dir(d.name, Some(newIndex));
      } else {
        dirs[p] := Dir(NameFor(prefix, newIndex), Some(newIndex));
      }
      assert order[..k + 1][..k] == order[..k];
      k := k + 1;
    }
    assert order[..k] == order;
  }

  // ---------------------------------------------------------------------
  // A concrete run
  // ---------------------------------------------------------------------

  /**
   * Lesson 2 of lessons 1..4 was deleted: with threshold 2 and delta -1 the
   * directories of lessons 3 and 4 are processed in ascending order (3 first)
   * and become lesson2 and lesson3.
   */
  lemma DeletionExample(order: seq<nat>)
    requires RenameOrder([Dir("lesson1", Some(1)), Dir("lesson3", Some(3)), Dir("lesson4", Some(4))], 2, -1, order)
    ensures order == [1, 2]
    ensures Run([Dir("lesson1", Some(1)), Dir("lesson3", Some(3)), Dir("lesson4", Some(4))], order, "lesson", -1, {})
         == [Dir("lesson1", Some(1)), Dir("lesson2", Some(2)), Dir("lesson3", Some(3))]
  {
    var ds := [Dir("lesson1", Some(1)), Dir("lesson3", Some(3)), Dir("lesson4", Some(4))];
    assert RenameOrder(ds, 2, -1, [1, 2]);
    forall x ensures x in order <==> x in [1, 2] {
      if x in order {
        var i :| 0 <= i < |order| && order[i] == x;
        assert IsHigher(ds[order[i]], 2);
      }
    }
    SortedUnique(ds, -1, order, [1, 2]);
    assert NatToString(2) == "2" && NatToString(3) == "3";
    assert NameFor("lesson", 2) == "lesson2" && NameFor("lesson", 3) == "lesson3";
    var first := Run(ds, [1], "lesson", -1, {});
    assert [1][..0] == [];
    assert first == [Dir("lesson1", Some(1)), Dir("lesson2", Some(2)), Dir("lesson4", Some(4))];
    assert [1, 2][..1] == [1];
  }
}
