/** The flag words of actions.c: one bit per action that has a flag, 31 in all.
    The bits of an `unsigned long` above those stand for nothing. */
module Bits {
  const MASK_ALL: bv31 := 0x7FFF_FFFF

  /** The ACTION constants of project.h are the powers of two below 2^31. */
  const BITS: nat := 31

  function Flag(bit: nat): bv31
    requires bit < BITS
  {
    (1 as bv31) << bit
  }

  predicate Meets(x: bv31, y: bv31) {
    x & y != 0
  }

  predicate On(bits: bv31, bit: nat)
    requires bit < BITS
  {
    Meets(bits, Flag(bit))
  }

  function MergeMask(mask: bv31, srcMask: bv31): bv31 {
    mask & srcMask
  }

  function MergeAdd(add: bv31, srcMask: bv31, srcAdd: bv31): bv31 {
    MergeMask(add, srcMask) | srcAdd
  }

  /** `x | y` */
  function Union(x: bv31, y: bv31): bv31 {
    x | y
  }

  /** `~x` */
  function Complement(x: bv31): bv31 {
    !x
  }

  lemma InPlace(bits: bv31, srcMask: bv31, srcAdd: bv31)
    ensures (bits & srcMask) | srcAdd == MergeAdd(bits, srcMask, srcAdd)
  {}

  lemma AddComposes(flags: bv31, am: bv31, aa: bv31, bm: bv31, ba: bv31)
    ensures MergeAdd(MergeAdd(flags, am, aa), bm, ba) == MergeAdd(flags, MergeMask(am, bm), MergeAdd(aa, bm, ba))
  {}

  lemma MasksAssociate(a: bv31, b: bv31, c: bv31)
    ensures MergeMask(MergeMask(a, b), c) == MergeMask(a, MergeMask(b, c))
  {}

  lemma MaskAllKeeps(flags: bv31)
    ensures MergeAdd(flags, MASK_ALL, 0) == flags && MergeMask(MASK_ALL, flags) == flags
  {}

  lemma MaskAllMerges(mask: bv31)
    ensures MergeMask(mask, MASK_ALL) == mask
  {}

  lemma NothingToKeep(srcMask: bv31, srcAdd: bv31)
    ensures MergeAdd(0, srcMask, srcAdd) == srcAdd
  {}

  predicate SingleBit(f: bv31) {
    f != 0 && f & (f - 1) == 0
  }

  lemma FlagsAreSingleBits(i: nat, j: nat)
    requires i < BITS && j < BITS
    ensures SingleBit(Flag(i))
    ensures i != j ==> Flag(i) & Flag(j) == 0
  {}

  lemma RawOr(x: bv31, y: bv31, f: bv31)
    ensures ((x | y) & f != 0) <==> x & f != 0 || y & f != 0
  {}

  lemma MeetsOr(x: bv31, y: bv31, f: bv31)
    ensures Meets(x | y, f) <==> Meets(x, f) || Meets(y, f)
  {
    RawOr(x, y, f);
  }

  lemma RawMergeMask(bits: bv31, mask: bv31, f: bv31)
    requires f != 0 && f & (f - 1) == 0
    ensures ((bits & mask) & f != 0) <==> bits & f != 0 && mask & f != 0
  {}

  lemma MeetsMergeMask(bits: bv31, mask: bv31, f: bv31)
    requires SingleBit(f)
    ensures Meets(MergeMask(bits, mask), f) <==> Meets(bits, f) && Meets(mask, f)
  {
    RawMergeMask(bits, mask, f);
  }

  lemma MeetsMergeAdd(bits: bv31, mask: bv31, add: bv31, f: bv31)
    requires SingleBit(f)
    ensures Meets(MergeAdd(bits, mask, add), f) <==> (Meets(bits, f) && Meets(mask, f)) || Meets(add, f)
  {
    hide Meets, SingleBit, MergeMask;
    MeetsMergeMask(bits, mask, f);
    MeetsOr(MergeMask(bits, mask), add, f);
  }

  lemma SingleBits(f: bv31, g: bv31)
    requires SingleBit(f) && SingleBit(g)
    ensures Meets(MASK_ALL, f) && !Meets(0, f)
    ensures !Meets(Complement(f), f) && Meets(f, f)
    ensures f & g == 0 ==> Meets(Complement(f), g) && !Meets(f, g)
  {}

  /** Merging, seen one flag at a time. */
  lemma OnMerge(bits: bv31, mask: bv31, add: bv31, bit: nat)
    requires bit < BITS
    ensures On(MergeAdd(bits, mask, add), bit) <==> (On(bits, bit) && On(mask, bit)) || On(add, bit)
    ensures On(MergeMask(bits, mask), bit) <==> On(bits, bit) && On(mask, bit)
  {
    hide Flag, Meets, SingleBit, MergeAdd, MergeMask;
    FlagsAreSingleBits(bit, bit);
    MeetsMergeAdd(bits, mask, add, Flag(bit));
    MeetsMergeMask(bits, mask, Flag(bit));
  }

  lemma MeetsUnion(x: bv31, y: bv31, f: bv31)
    ensures Meets(Union(x, y), f) <==> Meets(x, f) || Meets(y, f)
  {
    MeetsOr(x, y, f);
  }

  lemma OnUnion(x: bv31, y: bv31, bit: nat)
    requires bit < BITS
    ensures On(Union(x, y), bit) <==> On(x, bit) || On(y, bit)
  {
    hide Flag, Meets;
    MeetsUnion(x, y, Flag(bit));
  }

  lemma OnFlag(flag: nat, bit: nat)
    requires flag < BITS && bit < BITS
    ensures On(MASK_ALL, bit) && !On(0, bit)
    ensures On(Flag(flag), bit) <==> flag == bit
    ensures On(Complement(Flag(flag)), bit) <==> flag != bit
  {
    hide Flag, Meets, SingleBit, Complement;
    FlagsAreSingleBits(flag, bit);
    FlagsAreSingleBits(bit, flag);
    SingleBits(Flag(flag), Flag(bit));
    SingleBits(Flag(bit), Flag(flag));
  }

  lemma FlagValues()
    ensures Flag(0) == 0x1 && Flag(1) == 0x2 && Flag(2) == 0x4 && Flag(3) == 0x8
    ensures Flag(4) == 0x10 && Flag(5) == 0x20 && Flag(6) == 0x40 && Flag(7) == 0x80
    ensures Flag(8) == 0x100 && Flag(9) == 0x200 && Flag(10) == 0x400 && Flag(11) == 0x800
    ensures Flag(12) == 0x1000 && Flag(13) == 0x2000 && Flag(14) == 0x4000 && Flag(15) == 0x8000
    ensures Flag(16) == 0x10000 && Flag(17) == 0x20000 && Flag(18) == 0x40000 && Flag(19) == 0x80000
    ensures Flag(20) == 0x100000 && Flag(21) == 0x200000 && Flag(22) == 0x400000 && Flag(23) == 0x800000
    ensures Flag(24) == 0x1000000 && Flag(25) == 0x2000000 && Flag(26) == 0x4000000 && Flag(27) == 0x8000000
    ensures Flag(28) == 0x10000000 && Flag(29) == 0x20000000 && Flag(30) == 0x40000000
  {}

  /** The words agree on a group of bits. */
  predicate SameOn(x: bv31, y: bv31, group: bv31) {
    x & group == y & group
  }

  lemma RawSameBit(x: bv31, y: bv31, f: bv31)
    requires f != 0 && f & (f - 1) == 0 && (x & f != 0 <==> y & f != 0)
    ensures x & f == y & f
  {}

  lemma RawSame(x: bv31, y: bv31, low: bv31, f: bv31)
    requires x & low == y & low && x & f == y & f
    ensures x & (low | f) == y & (low | f)
  {}

  lemma SameMeets(x: bv31, y: bv31, f: bv31)
    requires SingleBit(f) && Meets(x, f) == Meets(y, f)
    ensures SameOn(x, y, f)
  {
    RawSameBit(x, y, f);
  }

  lemma SameOne(x: bv31, y: bv31, bit: nat)
    requires bit < BITS && On(x, bit) == On(y, bit)
    ensures SameOn(x, y, Flag(bit))
  {
    hide Flag, Meets, SingleBit, SameOn;
    FlagsAreSingleBits(bit, bit);
    SameMeets(x, y, Flag(bit));
  }

  lemma SameBoth(x: bv31, y: bv31, low: bv31, f: bv31)
    requires SameOn(x, y, low) && SameOn(x, y, f)
    ensures SameOn(x, y, low | f)
  {
    RawSame(x, y, low, f);
  }

  lemma SameBit(x: bv31, y: bv31, bit: nat, low: bv31, next: bv31)
    requires bit < BITS && On(x, bit) == On(y, bit) && SameOn(x, y, low) && next == low | Flag(bit)
    ensures SameOn(x, y, next)
  {
    hide Flag, SameOn, On;
    SameOne(x, y, bit);
    SameBoth(x, y, low, Flag(bit));
  }

  lemma SameNone(x: bv31, y: bv31)
    ensures SameOn(x, y, 0)
  {}

  lemma SameAll(x: bv31, y: bv31)
    requires SameOn(x, y, MASK_ALL)
    ensures x == y
  {}

  /** A word is determined by its flags. */
  lemma SameFlags(x: bv31, y: bv31)
    requires forall bit | 0 <= bit < BITS :: On(x, bit) == On(y, bit)
    ensures x == y
  {
    hide Flag, On, SameOn;
    FlagValues();
    SameNone(x, y);
    SameBit(x, y, 0, 0x0, 0x1);
    SameBit(x, y, 1, 0x1, 0x3);
    SameBit(x, y, 2, 0x3, 0x7);
    SameBit(x, y, 3, 0x7, 0xf);
    SameBit(x, y, 4, 0xf, 0x1f);
    SameBit(x, y, 5, 0x1f, 0x3f);
    SameBit(x, y, 6, 0x3f, 0x7f);
    SameBit(x, y, 7, 0x7f, 0xff);
    SameBit(x, y, 8, 0xff, 0x1ff);
    SameBit(x, y, 9, 0x1ff, 0x3ff);
    SameBit(x, y, 10, 0x3ff, 0x7ff);
    SameBit(x, y, 11, 0x7ff, 0xfff);
    SameBit(x, y, 12, 0xfff, 0x1fff);
    SameBit(x, y, 13, 0x1fff, 0x3fff);
    SameBit(x, y, 14, 0x3fff, 0x7fff);
    SameBit(x, y, 15, 0x7fff, 0xffff);
    SameBit(x, y, 16, 0xffff, 0x1ffff);
    SameBit(x, y, 17, 0x1ffff, 0x3ffff);
    SameBit(x, y, 18, 0x3ffff, 0x7ffff);
    SameBit(x, y, 19, 0x7ffff, 0xfffff);
    SameBit(x, y, 20, 0xfffff, 0x1fffff);
    SameBit(x, y, 21, 0x1fffff, 0x3fffff);
    SameBit(x, y, 22, 0x3fffff, 0x7fffff);
    SameBit(x, y, 23, 0x7fffff, 0xffffff);
    SameBit(x, y, 24, 0xffffff, 0x1ffffff);
    SameBit(x, y, 25, 0x1ffffff, 0x3ffffff);
    SameBit(x, y, 26, 0x3ffffff, 0x7ffffff);
    SameBit(x, y, 27, 0x7ffffff, 0xfffffff);
    SameBit(x, y, 28, 0xfffffff, 0x1fffffff);
    SameBit(x, y, 29, 0x1fffffff, 0x3fffffff);
    SameBit(x, y, 30, 0x3fffffff, 0x7fffffff);
    SameAll(x, y);
  }
}
