/** Small memory images with four page tables, for runs of the page-table walk that go wrong and
    as an instance of a table tree. */
module Images {
  import opened Bits
  import opened PhysMem
  import opened Paging
  import opened NxPatch

  /** `n` bytes, all zero. */
  function Zeros(n: nat): (m: seq<Byte>)
    ensures |m| == n
  {
    seq(n, _ => 0)
  }

  lemma {:induction false} ZeroValue(n: nat)
    ensures Value(Zeros(n)) == 0
  {
    if n > 0 {
      assert Zeros(n)[1..] == Zeros(n - 1);
      ZeroValue(n - 1);
    }
  }

  /** 16 KB with a page table in each page: `entries[k]` is the first entry in page `k`, and all
      other entries are zero. */
  function Chain(entries: seq<nat>): (m: seq<Byte>)
    requires |entries| <= 4
    ensures |m| == 4 * TWO12
  {
    if entries == [] then Zeros(4 * TWO12)
    else
      var last := |entries| - 1;
      Put(Chain(entries[..last]), last * TWO12, entries[last])
  }

  lemma {:induction false} ChainWord(entries: seq<nat>, s: nat)
    requires |entries| <= 4 && s % 8 == 0 && s + 8 <= 4 * TWO12
    requires forall e :: e in entries ==> e < TWO64
    ensures Word(Chain(entries), s) ==
      if s % TWO12 == 0 && s / TWO12 < |entries| then entries[s / TWO12] else 0
  {
    hide Word, Put;
    if entries == [] {
      ZeroWord(s);
    } else {
      var last := |entries| - 1;
      assert entries[last] in entries && forall e :: e in entries[..last] ==> e in entries;
      ChainWord(entries[..last], s);
      if s == last * TWO12 {
        WordOfPut(Chain(entries[..last]), s, entries[last]);
      } else {
        AlignedApart(s, last * TWO12);
        WordFrame(Chain(entries[..last]), last * TWO12, entries[last], s);
      }
    }
  }

  lemma ZeroWord(s: nat)
    requires s + 8 <= 4 * TWO12
    ensures Word(Zeros(4 * TWO12), s) == 0
  {
    assert Zeros(4 * TWO12)[s..s + 8] == Zeros(8);
    ZeroValue(8);
  }

  // The C code follows an entry that is not zero, whether or not it is present.

  /** The processor finds the top-level entry absent, the C walk goes astray. */
  lemma AbsentLeavesImage()
    ensures var m := Chain([0xf_ffff_ffff_f000]);
      Translate(m, 0, 0) == Walked([0], NotPresent) && FindPte(m, 0, 0) == Wild
  {
    hide Word, Chain, And, FirstFrame;
    var m := Chain([0xf_ffff_ffff_f000]);
    ChainWord([0xf_ffff_ffff_f000], 0);
    Indices(0);
    TableAddress(0xf_ffff_ffff_f000, 4);
  }

  /** The processor finds the top-level entry absent, and the C code returns 0, having cleared a bit
      in the last table of a chain of absent entries. */
  lemma AbsentPatched()
    ensures var m := Chain([0x1000, 0x2000, 0x3000]);
      Translate(m, 0, 0) == Walked([0], NotPresent) && FindPte(m, 0, 0) == Pte(0x3000)
  {
    hide Word, Chain, And, FirstFrame, TableIndex, PageVaddr;
    var entries: seq<nat> := [0x1000, 0x2000, 0x3000];
    var m := Chain(entries);
    Indices(0);
    ChainWord(entries, 0);
    ChainWord(entries, 0x1000);
    ChainWord(entries, 0x2000);
    TableAddress(0x1000, 4);
    TableAddress(0x2000, 3);
    TableAddress(0x3000, 2);
    assert FindFrom(m, 0x3000, 0, 1) == Pte(0x3000);
    assert FindFrom(m, 0x2000, 0, 2) == Pte(0x3000);
    assert FindFrom(m, 0x1000, 0, 3) == Pte(0x3000);
  }

  // It takes large pages for tables.

  /** A 2 MB page that maps the tables themselves: the C code patches a word of the first table. */
  lemma LargePagePatched()
    ensures var m := Chain([0x1001, 0x2001, 0x81]);
      var w := Translate(m, 0, 0x1000);
      w.slots == [0, 0x1000, 0x2000] && w.end.Leaf? && FindPte(m, 0, 0x1000) == Pte(8)
  {
    hide Word, Chain, And, FirstFrame, TableIndex, PageVaddr;
    var entries: seq<nat> := [0x1001, 0x2001, 0x81];
    var m := Chain(entries);
    Indices(0x1000);
    ChainWord(entries, 0);
    ChainWord(entries, 0x1000);
    ChainWord(entries, 0x2000);
    TableAddress(0x1001, 4);
    TableAddress(0x2001, 3);
    LargeFrames();
    LargeTarget(0x81, 2);
    assert FindFrom(m, 0, 0x1000, 1) == Pte(8);
    assert FindFrom(m, 0x2000, 0x1000, 2) == Pte(8);
    assert FindFrom(m, 0x1000, 0x1000, 3) == Pte(8);
  }

  /** A 1 GB page: the word of it that the C code takes for the next entry is zero. */
  lemma HugePageRefused()
    ensures var m := Chain([0x1001, 0x81]);
      var w := Translate(m, 0, 0x20_0000);
      w.slots == [0, 0x1000] && w.end.Leaf? && FindPte(m, 0, 0x20_0000) == Error(-3)
  {
    hide Word, Chain, And, FirstFrame, TableIndex, PageVaddr;
    var entries: seq<nat> := [0x1001, 0x81];
    var m := Chain(entries);
    Indices(0x20_0000);
    ChainWord(entries, 0);
    ChainWord(entries, 8);
    ChainWord(entries, 0x1000);
    TableAddress(0x1001, 4);
    LargeFrames();
    LargeTarget(0x81, 3);
    assert FindFrom(m, 0, 0x20_0000, 2) == Error(-3);
    assert FindFrom(m, 0x1000, 0x20_0000, 3) == Error(-3);
  }

  lemma LargeFrames()
    ensures LargePage(0x81) && FirstFrame(0x81, 2) == FirstFrame(0x81, 3) == 0
  {
  }

  // An image whose tables form a tree.

  /** Four tables, one below the other; the only leaf entry has execute-disable set. */
  const TREE: seq<nat> := [0x1001, 0x2001, 0x3001, TWO63 + 1]

  /** The bits of `va` from the index at `level` down. */
  function Tail(va: nat, level: nat): nat
    requires 1 <= level <= 4
  {
    va % (512 * Span(level))
  }

  lemma TailIndex(va: nat, level: nat)
    requires 1 <= level <= 4
    ensures Tail(va, level) / Span(level) == Index(va, level)
  {
    hide Span;
    FieldOfRemainder(va, Span(level));
  }

  lemma FieldOfRemainder(w: nat, d: nat)
    requires d > 0
    ensures w % (512 * d) / d == w / d % 512
  {
    var q, r := w / d, w % d;
    var y, i := q / 512, q % 512;
    MulGap(i, 512, d);
    assert w == q * d + r && q * d == y * (512 * d) + i * d;
    RemainderUnique(w, 512 * d, y, i * d + r);
    RemainderUnique(i * d + r, d, i, r);
  }

  lemma TailBelow(va: nat, level: nat)
    requires 2 <= level <= 4 && Index(va, level) == 0
    ensures Tail(va, level) == Tail(va, level - 1)
  {
    hide Index;
    TailIndex(va, level);
    hide Span;
    var d := Span(level);
    assert d == 512 * Span(level - 1) by { SpanBelow(level); }
    var q, r := va / (512 * d), va % (512 * d);
    assert va == q * (512 * d) + r;
    assert q * (512 * d) == (q * 512) * d;
    RemainderUnique(va, d, q * 512, r);
  }

  lemma SpanBelow(level: nat)
    requires 2 <= level <= 4
    ensures Span(level) == 512 * Span(level - 1)
  {
  }

  /** A walk of `va` that started at `level` is in page `p`, its indices up to there all zero. */
  predicate Reached(slot: nat, va: nat, level: nat, p: nat)
    requires 4 - level <= p <= 3 && 1 <= level <= 4
  {
    slot == p * TWO12 + 8 * Index(va, 4 - p) && Tail(va, level) == Tail(va, 4 - p)
  }

  /** The walk goes down one page at a time. */
  predicate Descends(slots: seq<nat>, va: nat, level: nat)
    requires 1 <= level <= 4
  {
    |slots| <= level && forall i :: 0 <= i < |slots| ==> Reached(slots[i], va, level, 4 - level + i)
  }

  lemma DescendsOne(slot: nat, slots: seq<nat>, va: nat, level: nat)
    requires 2 <= level <= 4 && Index(va, level) == 0 && Descends(slots, va, level - 1)
    requires slot == Slot(4 - level, va, level)
    ensures Descends([slot] + slots, va, level)
  {
    hide Index, Tail;
    TailBelow(va, level);
    var all := [slot] + slots;
    forall i | 0 <= i < |all| ensures Reached(all[i], va, level, 4 - level + i) {
      if i > 0 {
        var p := 4 - level + i;
        assert all[i] == slots[i - 1];
        assert Reached(slots[i - 1], va, level - 1, 4 - (level - 1) + (i - 1));
        assert Reached(slots[i - 1], va, level - 1, p);
      }
    }
  }

  lemma DescendsAlone(va: nat, level: nat)
    requires 1 <= level <= 4
    ensures Descends([Slot(4 - level, va, level)], va, level)
  {
  }

  /** What an entry of the image makes of a walk. */
  lemma TreeEntry(va: nat, level: nat)
    requires 1 <= level <= 4
    ensures var slot := Slot(4 - level, va, level);
      && slot + 8 <= |Chain(TREE)|
      && Decode(Word(Chain(TREE), slot), va, level) ==
         if Index(va, level) != 0 then Stop(NotPresent)
         else if level == 1 then Stop(Leaf(LeafAddress(TWO63 + 1, va, 1)))
         else Next(5 - level)
  {
    hide Word, Chain, Index, LeafAddress;
    var i := Index(va, level);
    var slot := Slot(4 - level, va, level);
    RemainderUnique(slot, TWO12, 4 - level, 8 * i);
    ChainWord(TREE, slot);
  }

  lemma {:induction false} TreeWalk(va: nat, level: nat)
    requires 1 <= level <= 4
    ensures var slots := Walk(Chain(TREE), 4 - level, va, level).slots;
      && Descends(slots, va, level)
      && (Tail(va, level) == 0 ==> |slots| == level)
    decreases level
  {
    hide Word, Chain, Index, LeafAddress, Descends, Tail, Decode, Slot;
    TreeEntry(va, level);
    TailIndex(va, level);
    if level > 1 && Index(va, level) == 0 {
      TailBelow(va, level);
      TreeWalk(va, level - 1);
      DescendsOne(Slot(4 - level, va, level), Walk(Chain(TREE), 5 - level, va, level - 1).slots, va, level);
    } else {
      DescendsAlone(va, level);
    }
  }

  /** Two walks that read the same slot have come there along the same indices. */
  lemma SameSlotSamePrefix(slot: nat, va: nat, p: nat, va': nat, p': nat)
    requires p <= 3 && p' <= 3 && Reached(slot, va, 4, p) && Reached(slot, va', 4, p')
    ensures p == p' && Prefix(va, p) == Prefix(va', p)
  {
    hide Index, Tail, Prefix;
    RemainderUnique(slot, TWO12, p, 8 * Index(va, 4 - p));
    RemainderUnique(slot, TWO12, p', 8 * Index(va', 4 - p'));
    TailIndex(va, 4 - p);
    TailIndex(va', 4 - p);
    PrefixOfTail(va, p);
    PrefixOfTail(va', p);
  }

  lemma PrefixOfTail(va: nat, p: nat)
    requires p <= 3
    ensures Prefix(va, p) == Tail(va, 4) / Span(4 - p)
  {
  }

  /** The image is tree shaped, and its first page is mapped through all four tables. */
  lemma TreeExists()
    ensures TreeShaped(Chain(TREE), 0)
    ensures |Translate(Chain(TREE), 0, 0).slots| == 4
    ensures !MayExecute(Chain(TREE), Translate(Chain(TREE), 0, 0).slots)
  {
    hide Word, Chain, Index, Walk, Reached, Prefix;
    forall va: nat, va': nat, i: nat, j: nat |
      var w, w' := Translate(Chain(TREE), 0, va).slots, Translate(Chain(TREE), 0, va').slots;
      i < |w| && j < |w'| && w[i] == w'[j]
      ensures i == j && Prefix(va, i) == Prefix(va', j)
    {
      TreeWalk(va, 4);
      TreeWalk(va', 4);
      SameSlotSamePrefix(Translate(Chain(TREE), 0, va).slots[i], va, i, va', j);
    }
    TreeWalk(0, 4);
    FirstLeaf(Translate(Chain(TREE), 0, 0).slots[3]);
  }

  lemma FirstLeaf(slot: nat)
    requires Reached(slot, 0, 4, 3)
    ensures slot + 8 <= |Chain(TREE)| && NoExecute(Word(Chain(TREE), slot))
  {
    hide Word, Chain;
    ChainWord(TREE, slot);
  }
}
