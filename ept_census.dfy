/** The census helpers `empty`, `global_size` and `global_capacity`, related
    to the number of tables and pages in the tree, and how an add or a remove
    moves them. */
module EptCensus {
  import opened EptAddress
  import opened EptTree
  import opened EptInsert

  /** What one slot adds to the table count and to the page count. */
  function SlotTables(s: Slot): nat
  {
    match s
    case Branch(c) => Tables(c)
    case _ => 0
  }

  function SlotPages(s: Slot): nat
  {
    match s
    case Free => 0
    case Leaf(_) => 1
    case Branch(c) => Pages(c)
  }

  /** A fresh table holds no entry, one table, no page, and 512 slots. */
  lemma EmptyCensus()
    ensures Size(EmptyTree()) == 0 && Pages(EmptyTree()) == 0
    ensures Tables(EmptyTree()) == 1 && Capacity(EmptyTree()) == Entries
  {
    EmptyBelow(EmptyTree(), Entries);
  }

  lemma {:induction false} EmptyBelow(t: Tree, n: nat)
    requires n <= |t.slots| && IsEmpty(t)
    ensures SizeBelow(t, n) == 0 && PagesBelow(t, n) == 0
    ensures TablesBelow(t, n) == 0 && CapacityBelow(t, n) == 0
    decreases n
  {
    if n > 0 {
      assert t.slots[n - 1].Free?;
      EmptyBelow(t, n - 1);
    }
  }

  /** `empty()` holds exactly when `global_size()` is zero; an empty table
      holds no page, counts as one table and reserves only its own slots. */
  lemma EmptyIffSizeZero(t: Tree)
    ensures IsEmpty(t) <==> Size(t) == 0
    ensures IsEmpty(t) ==> Pages(t) == 0 && Tables(t) == 1 && Capacity(t) == |t.slots|
  {
    if IsEmpty(t) {
      EmptyBelow(t, |t.slots|);
    }
  }

  /** Every used entry is a page or the link to one of the tables below the
      root, so `global_size() + 1` is pages plus tables. */
  lemma SizeCensus(t: Tree)
    ensures Size(t) + 1 == Pages(t) + Tables(t)
    decreases t, 1
  {
    SizeCensusBelow(t, |t.slots|);
  }

  lemma {:induction false} SizeCensusBelow(t: Tree, n: nat)
    requires n <= |t.slots|
    ensures SizeBelow(t, n) == PagesBelow(t, n) + TablesBelow(t, n)
    decreases t, 0, n
  {
    if n > 0 {
      SizeCensusBelow(t, n - 1);
      match t.slots[n - 1]
      case Free =>
      case Leaf(_) =>
      case Branch(c) => SizeCensus(c);
    }
  }

  /** `global_capacity()` is 512 slots for every table in a well-formed tree. */
  lemma CapacityIsTables(t: Tree, bits: Shift)
    requires Wf(t, bits)
    ensures Capacity(t) == Entries * Tables(t)
    decreases t, 1
  {
    CapacityBelowIsTables(t, bits, Entries);
  }

  lemma {:induction false} CapacityBelowIsTables(t: Tree, bits: Shift, n: nat)
    requires Wf(t, bits) && n <= Entries
    ensures CapacityBelow(t, n) == Entries * TablesBelow(t, n)
    decreases t, 0, n
  {
    if n > 0 {
      CapacityBelowIsTables(t, bits, n - 1);
      match t.slots[n - 1]
      case Free =>
      case Leaf(_) =>
      case Branch(c) => CapacityIsTables(c, bits - IndexWidth);
    }
  }

  /** Replacing one slot moves the table and page counts by the difference of
      what the old and the new slot hold. */
  lemma UpdateCensus(t: Tree, i: nat, x: Slot)
    requires i < |t.slots|
    ensures Tables(Tree(t.slots[i := x])) + SlotTables(t.slots[i]) == Tables(t) + SlotTables(x)
    ensures Pages(Tree(t.slots[i := x])) + SlotPages(t.slots[i]) == Pages(t) + SlotPages(x)
  {
    UpdateBelow(t, i, x, |t.slots|);
  }

  lemma {:induction false} UpdateBelow(t: Tree, i: nat, x: Slot, n: nat)
    requires i < |t.slots| && n <= |t.slots|
    ensures var t' := Tree(t.slots[i := x]);
      TablesBelow(t', n) + (if i < n then SlotTables(t.slots[i]) else 0)
        == TablesBelow(t, n) + (if i < n then SlotTables(x) else 0)
    ensures var t' := Tree(t.slots[i := x]);
      PagesBelow(t', n) + (if i < n then SlotPages(t.slots[i]) else 0)
        == PagesBelow(t, n) + (if i < n then SlotPages(x) else 0)
    decreases n
  {
    if n > 0 {
      UpdateBelow(t, i, x, n - 1);
    }
  }

  /** A fresh add maps one more page and creates one table for every level
      between the end of the old walk and the stop level. */
  lemma {:induction false} InsertFreshCensus(t: Tree, gpa: Gpa, bits: Shift, end: Shift)
    requires Wf(t, bits) && end <= bits
    requires Walk(t, gpa, bits).slot.Free? && Walk(t, gpa, bits).bits >= end
    ensures Pages(Insert(t, gpa, bits, end).tree) == Pages(t) + 1
    ensures Tables(Insert(t, gpa, bits, end).tree) == Tables(t) + (Walk(t, gpa, bits).bits - end) / IndexWidth
    decreases bits
  {
    var i := Index(gpa, bits);
    var s := t.slots[i];
    if bits > end {
      var c := if s.Branch? then s.child else EmptyTree();
      var below := Insert(c, gpa, bits - IndexWidth, end);
      assert Insert(t, gpa, bits, end).tree == Tree(t.slots[i := Branch(below.tree)]) by {
        if s.Free? {
          EmptyWf(bits - IndexWidth);
          LookupEmpty(c, gpa, bits - IndexWidth);
          InsertFresh(c, gpa, bits - IndexWidth, end);
        }
        InsertDescend(t, gpa, bits, end);
      }
      assert Pages(below.tree) == SlotPages(s) + 1 &&
             Tables(below.tree) == SlotTables(s) + (Walk(t, gpa, bits).bits - end) / IndexWidth by {
        EmptyWf(bits - IndexWidth);
        if s.Free? {
          LookupEmpty(c, gpa, bits - IndexWidth);
          EmptyCensus();
        }
        InsertFreshCensus(c, gpa, bits - IndexWidth, end);
      }
      UpdateCensus(t, i, Branch(below.tree));
    } else {
      UpdateCensus(t, i, Leaf(PageSizeBit));
    }
  }

  /** One 4K page on an empty root creates the PDPT, PD and PT above it: four
      tables, one page, and four used entries. */
  lemma Add4KOnEmptyRootCensus(gpa: Gpa)
    ensures Wf(Insert(EmptyTree(), gpa, Pml4From, PtFrom).tree, Pml4From)
    ensures Tables(Insert(EmptyTree(), gpa, Pml4From, PtFrom).tree) == 4
    ensures Pages(Insert(EmptyTree(), gpa, Pml4From, PtFrom).tree) == 1
    ensures Size(Insert(EmptyTree(), gpa, Pml4From, PtFrom).tree) == 4
  {
    EmptyWf(Pml4From);
    LookupEmpty(EmptyTree(), gpa, Pml4From);
    EmptyCensus();
    InsertFresh(EmptyTree(), gpa, Pml4From, PtFrom);
    InsertFreshCensus(EmptyTree(), gpa, Pml4From, PtFrom);
    SizeCensus(Insert(EmptyTree(), gpa, Pml4From, PtFrom).tree);
  }
}
