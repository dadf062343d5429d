/** The singly linked string lists of list.c, and the sequence functions that
    specify their operations. */
module StringLists {

  // ----- Specification on sequences -------------------------------------

  function Without(xs: seq<string>, x: string): seq<string> {
    if xs == [] then []
    else
      var rest := Without(xs[..|xs| - 1], x);
      if xs[|xs| - 1] == x then rest else rest + [xs[|xs| - 1]]
  }

  function WithoutAll(xs: seq<string>, ys: seq<string>): seq<string> {
    if ys == [] then xs else Without(WithoutAll(xs, ys[..|ys| - 1]), ys[|ys| - 1])
  }

  function AddUnique(xs: seq<string>, x: string): seq<string> {
    if x in xs then xs else xs + [x]
  }

  function AddAllUnique(xs: seq<string>, ys: seq<string>): seq<string> {
    if ys == [] then xs else AddUnique(AddAllUnique(xs, ys[..|ys| - 1]), ys[|ys| - 1])
  }

  /** `strncmp(s, t, n) == 0`, where t has at least n characters */
  predicate SameStart(s: string, t: string, n: nat)
    requires n <= |t|
    ensures SameStart(s, t, n) <==> |s| >= n && forall i | 0 <= i < n :: s[i] == t[i]
  {
    |s| >= n && s[..n] == t[..n]
  }

  // One more element at the end of the second list: a step of the loops below.

  lemma WithoutStep(xs: seq<string>, i: nat, x: string)
    requires i < |xs|
    ensures Without(xs[..i + 1], x) == if xs[i] == x then Without(xs[..i], x) else Without(xs[..i], x) + [xs[i]]
  {
    assert xs[..i + 1][..i] == xs[..i];
  }

  lemma WithoutAllStep(xs: seq<string>, ys: seq<string>, i: nat)
    requires i < |ys|
    ensures WithoutAll(xs, ys[..i + 1]) == Without(WithoutAll(xs, ys[..i]), ys[i])
  {
    assert ys[..i + 1][..i] == ys[..i];
  }

  lemma AddAllUniqueStep(xs: seq<string>, ys: seq<string>, i: nat)
    requires i < |ys|
    ensures AddAllUnique(xs, ys[..i + 1]) == AddUnique(AddAllUnique(xs, ys[..i]), ys[i])
  {
    assert ys[..i + 1][..i] == ys[..i];
  }

  predicate NoDuplicates(xs: seq<string>) {
    forall i, j | 0 <= i < j < |xs| :: xs[i] != xs[j]
  }

  lemma {:induction false} WithoutMembers(xs: seq<string>, x: string)
    ensures forall v :: v in Without(xs, x) <==> v in xs && v != x
    ensures |Without(xs, x)| <= |xs|
  {
    if xs != [] {
      var n := |xs| - 1;
      WithoutMembers(xs[..n], x);
      assert xs == xs[..n] + [xs[n]];
    }
  }

  lemma {:induction false} WithoutAllMembers(xs: seq<string>, ys: seq<string>)
    ensures forall v :: v in WithoutAll(xs, ys) <==> v in xs && v !in ys
  {
    if ys != [] {
      var n := |ys| - 1;
      WithoutAllMembers(xs, ys[..n]);
      WithoutMembers(WithoutAll(xs, ys[..n]), ys[n]);
      assert ys == ys[..n] + [ys[n]];
    }
  }

  lemma {:induction false} AddAllUniqueMembers(xs: seq<string>, ys: seq<string>)
    ensures forall v :: v in AddAllUnique(xs, ys) <==> v in xs || v in ys
    ensures NoDuplicates(xs) ==> NoDuplicates(AddAllUnique(xs, ys))
  {
    if ys != [] {
      var n := |ys| - 1;
      AddAllUniqueMembers(xs, ys[..n]);
      assert ys == ys[..n] + [ys[n]];
    }
  }

  lemma {:induction false} WithoutAbsent(xs: seq<string>, x: string)
    requires x !in xs
    ensures Without(xs, x) == xs
  {
    if xs != [] {
      WithoutAbsent(xs[..|xs| - 1], x);
    }
  }

  /** Removing never changes the order or the uniqueness of what stays. */
  lemma {:induction false} WithoutKeepsUnique(xs: seq<string>, x: string)
    requires NoDuplicates(xs)
    ensures NoDuplicates(Without(xs, x))
  {
    if xs != [] {
      var n := |xs| - 1;
      WithoutKeepsUnique(xs[..n], x);
      WithoutMembers(xs[..n], x);
      assert xs[n] !in xs[..n];
    }
  }

  lemma {:induction false} WithoutAllKeepsUnique(xs: seq<string>, ys: seq<string>)
    requires NoDuplicates(xs)
    ensures NoDuplicates(WithoutAll(xs, ys))
  {
    if ys != [] {
      WithoutAllKeepsUnique(xs, ys[..|ys| - 1]);
      WithoutKeepsUnique(WithoutAll(xs, ys[..|ys| - 1]), ys[|ys| - 1]);
    }
  }

  lemma {:induction false} AddAllUniqueAssociative(xs: seq<string>, ys: seq<string>, zs: seq<string>)
    ensures AddAllUnique(AddAllUnique(xs, ys), zs) == AddAllUnique(xs, AddAllUnique(ys, zs))
  {
    if zs != [] {
      var n := |zs| - 1;
      var w := AddAllUnique(ys, zs[..n]);
      AddAllUniqueAssociative(xs, ys, zs[..n]);
      AddAllUniqueMembers(xs, w);
      if zs[n] !in w {
        assert (w + [zs[n]])[..|w|] == w;
      }
    }
  }

  lemma {:induction false} WithoutDistributes(xs: seq<string>, ys: seq<string>, r: string)
    ensures Without(AddAllUnique(xs, ys), r) == AddAllUnique(Without(xs, r), Without(ys, r))
  {
    if ys != [] {
      var n := |ys| - 1;
      var front := AddAllUnique(xs, ys[..n]);
      WithoutDistributes(xs, ys[..n], r);
      WithoutMembers(front, r);
      if ys[n] !in front {
        assert (front + [ys[n]])[..|front|] == front;
      }
      if ys[n] != r {
        var tail := Without(ys[..n], r);
        assert (tail + [ys[n]])[..|tail|] == tail;
      }
    }
  }

  lemma {:induction false} WithoutAllDistributes(xs: seq<string>, ys: seq<string>, rs: seq<string>)
    ensures WithoutAll(AddAllUnique(xs, ys), rs) == AddAllUnique(WithoutAll(xs, rs), WithoutAll(ys, rs))
  {
    if rs != [] {
      var n := |rs| - 1;
      WithoutAllDistributes(xs, ys, rs[..n]);
      WithoutDistributes(WithoutAll(xs, rs[..n]), WithoutAll(ys, rs[..n]), rs[n]);
    }
  }

  lemma {:induction false} WithoutAllTwice(xs: seq<string>, ys: seq<string>, zs: seq<string>)
    ensures WithoutAll(WithoutAll(xs, ys), zs) == WithoutAll(xs, AddAllUnique(ys, zs))
  {
    if zs != [] {
      var n := |zs| - 1;
      var w := AddAllUnique(ys, zs[..n]);
      WithoutAllTwice(xs, ys, zs[..n]);
      if zs[n] in w {
        WithoutAllMembers(xs, w);
        WithoutAbsent(WithoutAll(xs, w), zs[n]);
      } else {
        assert (w + [zs[n]])[..|w|] == w;
      }
    }
  }

  /** Appending a duplicate-free list to a disjoint one is concatenation. */
  lemma {:induction false} AddAllUniqueDisjoint(xs: seq<string>, ys: seq<string>)
    requires NoDuplicates(ys)
    requires forall y | y in ys :: y !in xs
    ensures AddAllUnique(xs, ys) == xs + ys
  {
    if ys != [] {
      var n := |ys| - 1;
      AddAllUniqueDisjoint(xs, ys[..n]);
      assert ys == ys[..n] + [ys[n]];
      assert ys[n] !in ys[..n];
      assert xs + ys == (xs + ys[..n]) + [ys[n]];
    }
  }

  // ----- The linked list --------------------------------------------------

  /** `struct list_entry` */
  class Entry {
    const str: string
    var next: Entry?

    constructor (str: string)
      ensures this.str == str && next == null
    {
      this.str := str;
      next := null;
    }
  }

  ghost function Strings(entries: seq<Entry>): (r: seq<string>)
    ensures |r| == |entries| && forall i | 0 <= i < |entries| :: r[i] == entries[i].str
  {
    seq(|entries|, i requires 0 <= i < |entries| => entries[i].str)
  }

  ghost predicate Distinct(entries: seq<Entry>) {
    forall i, j | 0 <= i < j < |entries| :: entries[i] != entries[j]
  }

  /** Each entry links to the next, and the last one links to `end`. */
  ghost predicate Chain(entries: seq<Entry>, end: Entry?)
    reads entries
  {
    && (forall i | 0 <= i < |entries| - 1 :: entries[i].next == entries[i + 1])
    && (entries != [] ==> entries[|entries| - 1].next == end)
  }

  /** `kept` are distinct entries that do not occur at or after position i of `all`. */
  ghost predicate Sifted(all: seq<Entry>, i: nat, kept: seq<Entry>) {
    && Distinct(kept)
    && forall j, k | 0 <= j < |kept| && i <= k < |all| :: kept[j] != all[k]
  }

  lemma StringsEmpty(all: seq<Entry>, str: string)
    ensures Strings([]) == Without(Strings(all)[..0], str)
  {}

  lemma SiftedIsDistinct(all: seq<Entry>, i: nat, kept: seq<Entry>)
    requires Sifted(all, i, kept)
    ensures Distinct(kept)
  {}

  lemma ChainExtend(entries: seq<Entry>, e: Entry, end: Entry?)
    requires Chain(entries, e) && e.next == end
    ensures Chain(entries + [e], end) && Strings(entries + [e]) == Strings(entries) + [e.str]
  {}

  lemma SiftStep(all: seq<Entry>, i: nat, kept: seq<Entry>)
    requires Distinct(all) && i < |all| && Sifted(all, i, kept)
    ensures Sifted(all, i + 1, kept) && Sifted(all, i + 1, kept + [all[i]])
    ensures forall j, k | 0 <= j < |kept| && i <= k < |all| :: kept[j] != all[k]
    ensures forall j | 0 <= j < |kept| - 1 :: kept[j] != kept[|kept| - 1]
  {}

  /** `struct list`. The ghost spine lists the entries from first to last. */
  class StringList {
    var first: Entry?
    var last: Entry?
    ghost var spine: seq<Entry>
    ghost var Repr: set<object>

    /** `list_is_valid`: no entry twice (so no cycle), `last` is the last entry, and it ends the list. */
    ghost predicate Valid()
      reads this, Repr
      ensures Valid() ==> this in Repr
    {
      && this in Repr
      && (forall i | 0 <= i < |spine| :: spine[i] in Repr)
      && Distinct(spine) && Chain(spine, null)
      && first == (if spine == [] then null else spine[0])
      && last == (if spine == [] then null else spine[|spine| - 1])
    }

    ghost function Contents(): seq<string>
      reads this
    {
      Strings(spine)
    }

    /** `init_list` */
    constructor ()
      ensures Valid() && Contents() == [] && fresh(Repr)
    {
      first, last, spine, Repr := null, null, [], {this};
    }

    /** `enlist` */
    method Enlist(str: string)
      requires Valid()
      modifies Repr
      ensures Valid() && fresh(Repr - old(Repr))
      ensures Contents() == old(Contents()) + [str]
    {
      var cur := new Entry(str);
      if last != null {
        last.next := cur;
        last := cur;
      } else {
        first := cur;
        last := cur;
      }
      spine := spine + [cur];
      Repr := Repr + {cur};
    }

    /** The whole-string scan of `enlist_unique`. */
    method Contains(str: string) returns (found: bool)
      requires Valid()
      ensures found <==> str in Contents()
    {
      var cur := first;
      ghost var i := 0;
      while cur != null
        invariant 0 <= i <= |spine|
        invariant cur == if i < |spine| then spine[i] else null
        invariant str !in Contents()[..i]
        decreases |spine| - i
      {
        if cur.str == str {
          assert Contents()[i] == str;
          return true;
        }
        assert Contents()[..i + 1] == Contents()[..i] + [cur.str];
        cur := cur.next;
        i := i + 1;
      }
      assert Contents()[..i] == Contents();
      found := false;
    }

    /** The scan of `enlist_unique` for the first characters of a string. */
    method ContainsStart(str: string, significant: nat) returns (found: bool)
      requires Valid() && significant <= |str|
      ensures found <==> exists i :: 0 <= i < |Contents()| && SameStart(Contents()[i], str, significant)
    {
      var cur := first;
      ghost var i := 0;
      while cur != null
        invariant 0 <= i <= |spine|
        invariant cur == if i < |spine| then spine[i] else null
        invariant forall j | 0 <= j < i :: !SameStart(Contents()[j], str, significant)
        decreases |spine| - i
      {
        if SameStart(cur.str, str, significant) {
          assert Contents()[i] == cur.str;
          return true;
        }
        cur := cur.next;
        i := i + 1;
      }
      found := false;
    }

    /** `enlist_unique`: if a number of significant characters is given, only these are compared. */
    method EnlistUnique(str: string, significant: nat)
      requires Valid() && significant <= |str|
      modifies Repr
      ensures Valid() && fresh(Repr - old(Repr))
      ensures significant == 0 ==> Contents() == AddUnique(old(Contents()), str)
      ensures significant > 0 ==>
                Contents() == if exists i :: 0 <= i < |old(Contents())|
                                               && SameStart(old(Contents())[i], str, significant)
                              then old(Contents()) else old(Contents()) + [str]
    {
      var found;
      if significant > 0 {
        found := ContainsStart(str, significant);
      } else {
        found := Contains(str);
      }
      if !found {
        Enlist(str);
      }
    }

    /** `list_remove_all` */
    method RemoveAll()
      requires Valid()
      modifies this
      ensures Valid() && Repr == old(Repr)
      ensures Contents() == []
    {
      first, last, spine := null, null, [];
    }

    /** The state of the loop in `list_remove_item` before entry i: the entries kept so far
        are linked up to `cur`, the entries still to be visited are untouched. */
    ghost predicate Sifting(all: seq<Entry>, i: nat, kept: seq<Entry>, prev: Entry?, cur: Entry?)
      reads this, all, kept
    {
      && i <= |all| && cur == (if i < |all| then all[i] else null)
      && (forall k | 0 <= k < |all| :: all[k] in Repr)
      && (forall k | i <= k < |all| - 1 :: all[k].next == all[k + 1])
      && (i < |all| ==> all[|all| - 1].next == null)
      && (forall j | 0 <= j < |kept| :: kept[j] in Repr)
      && Sifted(all, i, kept) && Chain(kept, cur)
      && prev == (if kept == [] then null else kept[|kept| - 1])
      && first == (if kept == [] then cur else kept[0])
    }

    lemma SiftingAt(all: seq<Entry>, i: nat, kept: seq<Entry>, prev: Entry?, cur: Entry)
      requires Sifting(all, i, kept, prev, cur)
      ensures i < |all| && cur == all[i] && cur.str == Strings(all)[i] && cur in Repr
      ensures prev != null ==> prev in Repr
    {}

    /** What is left to do after the loop is to set `last`. */
    lemma SiftingDone(all: seq<Entry>, i: nat, kept: seq<Entry>, prev: Entry?)
      requires Sifting(all, i, kept, prev, null)
      ensures i == |all| && Distinct(kept) && Chain(kept, null)
      ensures forall j | 0 <= j < |kept| :: kept[j] in Repr
      ensures first == (if kept == [] then null else kept[0])
      ensures prev == (if kept == [] then null else kept[|kept| - 1])
    {
      SiftedIsDistinct(all, i, kept);
    }

    lemma KeepCurrent(all: seq<Entry>, i: nat, kept: seq<Entry>, prev: Entry?, cur: Entry)
      requires Distinct(all) && i < |all| && Sifting(all, i, kept, prev, cur)
      ensures Sifting(all, i + 1, kept + [cur], cur, cur.next)
      ensures Strings(kept + [cur]) == Strings(kept) + [cur.str]
    {
      SiftStep(all, i, kept);
      ChainExtend(kept, cur, cur.next);
    }

    /** Links around the current entry. */
    method DropCurrent(ghost all: seq<Entry>, ghost i: nat, ghost kept: seq<Entry>, prev: Entry?, cur: Entry)
      requires Distinct(all) && i < |all| && Sifting(all, i, kept, prev, cur)
      modifies this`first, if prev == null then {} else {prev}
      ensures cur.next == old(cur.next) && Sifting(all, i + 1, kept, prev, cur.next)
    {
      SiftStep(all, i, kept);
      if prev != null {
        prev.next := cur.next;
      } else {
        first := cur.next;
      }
    }

    /** The loop of `list_remove_item`. */
    method Sift(str: string, ghost all: seq<Entry>) returns (prev: Entry?, count: nat, ghost kept: seq<Entry>)
      requires this in Repr && Distinct(all) && Sifting(all, 0, [], null, first)
      modifies Repr
      ensures unchanged(`spine) && unchanged(`Repr) && Sifting(all, |all|, kept, prev, null)
      ensures count == |all| - |kept| && Strings(kept) == Without(Strings(all), str)
    {
      hide Sifting, Distinct, Without, Strings;
      prev, count, kept := null, 0, [];
      var cur := first;
      ghost var i: nat := 0;
      StringsEmpty(all, str);
      while cur != null
        invariant unchanged(`spine) && unchanged(`Repr) && Distinct(all)
        invariant Sifting(all, i, kept, prev, cur) && count == i - |kept|
        invariant i <= |all| && Strings(kept) == Without(Strings(all)[..i], str)
        decreases |all| - i
      {
        SiftingAt(all, i, kept, prev, cur);
        WithoutStep(Strings(all), i, str);
        var next := cur.next;
        if cur.str == str {
          count := count + 1;
          DropCurrent(all, i, kept, prev, cur);
        } else {
          KeepCurrent(all, i, kept, prev, cur);
          prev, kept := cur, kept + [cur];
        }
        i := i + 1;
        cur := next;
      }
      SiftingDone(all, i, kept, prev);
      assert Strings(all)[..i] == Strings(all);
    }

    /** `list_remove_item`: unlinks every entry with the given string and returns how many there were. */
    method RemoveItem(str: string) returns (count: nat)
      requires Valid()
      modifies Repr
      ensures Valid() && Repr == old(Repr)
      ensures Contents() == Without(old(Contents()), str)
      ensures count == |old(Contents())| - |Contents()|
    {
      ghost var kept;
      last, count, kept := Sift(str, spine);
      SiftingDone(spine, |spine|, kept, last);
      spine := kept;
    }

    /** `list_remove_list` */
    method RemoveList(src: StringList) returns (count: nat)
      requires Valid() && src.Valid() && Repr !! src.Repr
      modifies Repr
      ensures Valid() && Repr == old(Repr)
      ensures Contents() == WithoutAll(old(Contents()), src.Contents())
      ensures count == |old(Contents())| - |Contents()|
    {
      count := 0;
      var cur := src.first;
      ghost var i := 0;
      while cur != null
        invariant Valid() && Repr == old(Repr)
        invariant 0 <= i <= |src.spine| && cur == if i < |src.spine| then src.spine[i] else null
        invariant Contents() == WithoutAll(old(Contents()), src.Contents()[..i])
        invariant count == |old(Contents())| - |Contents()|
        decreases |src.spine| - i
      {
        WithoutAllStep(old(Contents()), src.Contents(), i);
        var removed := RemoveItem(cur.str);
        count := count + removed;
        cur := cur.next;
        i := i + 1;
      }
      assert src.Contents()[..i] == src.Contents();
    }

    /** The loop of `list_duplicate`: copies the entries that start at `start`. */
    static method CopyEntries(start: Entry, ghost all: seq<Entry>)
      returns (first: Entry, last: Entry, ghost copied: seq<Entry>)
      requires Chain(all, null) && all != [] && all[0] == start
      ensures forall k | 0 <= k < |copied| :: fresh(copied[k])
      ensures Distinct(copied) && Chain(copied, null) && Strings(copied) == Strings(all)
      ensures copied != [] && first == copied[0] && last == copied[|copied| - 1]
    {
      last := new Entry(start.str);
      first, copied := last, [last];
      var cur := start.next;
      while cur != null
        invariant 1 <= |copied| <= |all|
        invariant cur == if |copied| < |all| then all[|copied|] else null
        invariant forall k | 0 <= k < |copied| :: fresh(copied[k])
        invariant forall k | 0 <= k < |copied| :: copied[k].str == all[k].str
        invariant Distinct(copied) && Chain(copied, null)
        invariant first == copied[0] && last == copied[|copied| - 1]
        decreases |all| - |copied|
      {
        var entry := new Entry(cur.str);
        last.next := entry;
        last := entry;
        copied := copied + [entry];
        cur := cur.next;
      }
    }

    /** `list_duplicate`: the copy keeps order and repetitions. */
    method Duplicate(src: StringList)
      requires Valid() && src.Valid() && Repr !! src.Repr
      modifies Repr
      ensures Valid() && fresh(Repr - old(Repr))
      ensures Contents() == src.Contents()
    {
      hide Distinct;
      RemoveAll();
      if src.first != null {
        ghost var copied;
        first, last, copied := CopyEntries(src.first, src.spine);
        spine := copied;
        Repr := Repr + set e | e in copied;
      }
    }

    /** `list_append_list_unique` */
    method AppendListUnique(src: StringList)
      requires Valid() && src.Valid() && Repr !! src.Repr
      modifies Repr
      ensures Valid() && fresh(Repr - old(Repr))
      ensures Contents() == AddAllUnique(old(Contents()), src.Contents())
    {
      var cur := src.first;
      ghost var i := 0;
      while cur != null
        invariant Valid() && fresh(Repr - old(Repr))
        invariant 0 <= i <= |src.spine| && cur == if i < |src.spine| then src.spine[i] else null
        invariant Contents() == AddAllUnique(old(Contents()), src.Contents()[..i])
        decreases |src.spine| - i
      {
        AddAllUniqueStep(old(Contents()), src.Contents(), i);
        EnlistUnique(cur.str, 0);
        cur := cur.next;
        i := i + 1;
      }
      assert src.Contents()[..i] == src.Contents();
    }
  }
}
