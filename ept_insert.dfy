/** What `add_page_1g`, `add_page_2m` and `add_page_4k` promise, proved of the
    value-level `Insert`: the result depends only on where the translation
    walk of the address ends, relative to the requested stop level. */
module EptInsert {
  import opened EptAddress
  import opened EptTree

  /** A successful insertion yields a well-formed, non-empty table; a failed
      one leaves the tree as it was. */
  lemma {:induction false} InsertWf(t: Tree, gpa: Gpa, bits: Shift, end: Shift)
    requires Wf(t, bits) && end <= bits
    ensures Wf(Insert(t, gpa, bits, end).tree, bits)
    ensures Insert(t, gpa, bits, end).result.Success? ==> !IsEmpty(Insert(t, gpa, bits, end).tree)
    ensures Insert(t, gpa, bits, end).result.Failure? ==> Insert(t, gpa, bits, end).tree == t
    decreases bits
  {
    var i := Index(gpa, bits);
    var s := t.slots[i];
    if bits > end && !s.Leaf? {
      var c := if s.Branch? then s.child else EmptyTree();
      EmptyWf(bits - IndexWidth);
      InsertWf(c, gpa, bits - IndexWidth, end);
      var below := Insert(c, gpa, bits - IndexWidth, end);
      if below.result.Success? {
        var t' := Tree(t.slots[i := Branch(below.tree)]);
        assert t'.slots[i].Branch?;
        assert Wf(t', bits) by {
          forall j | 0 <= j < Entries && t'.slots[j].Branch?
            ensures bits > PtFrom && Wf(t'.slots[j].child, bits - IndexWidth) && !IsEmpty(t'.slots[j].child)
          {
            if j != i { assert t'.slots[j] == t.slots[j]; }
          }
        }
      }
    } else if bits == end && s.Free? {
      var t' := Tree(t.slots[i := Leaf(PageSizeBit)]);
      assert t'.slots[i].Leaf?;
      assert Wf(t', bits) by {
        forall j | 0 <= j < Entries && t'.slots[j].Branch?
          ensures bits > PtFrom && Wf(t'.slots[j].child, bits - IndexWidth) && !IsEmpty(t'.slots[j].child)
        {
          assert j != i && t'.slots[j] == t.slots[j];
        }
      }
    } else if bits == end && s.Leaf? {
      assert t.slots[i].Leaf?;
    }
  }

  /** One step of an add above the stop level through a slot that is not a
      page: the outcome is that of the add one level down, and the new tree
      links the child's new tree in that slot (unless a failed add would have
      linked a table it never created). */
  lemma {:induction false} InsertDescend(t: Tree, gpa: Gpa, bits: Shift, end: Shift)
    requires Wf(t, bits) && end < bits && !t.slots[Index(gpa, bits)].Leaf?
    ensures var s := t.slots[Index(gpa, bits)];
      var below := Insert(if s.Branch? then s.child else EmptyTree(), gpa, bits - IndexWidth, end);
      && Wf(Insert(t, gpa, bits, end).tree, bits)
      && Insert(t, gpa, bits, end).result == below.result
      && (s.Branch? || below.result.Success? ==>
            Insert(t, gpa, bits, end).tree == Tree(t.slots[Index(gpa, bits) := Branch(below.tree)]))
  {
    InsertWf(t, gpa, bits, end);
    var i := Index(gpa, bits);
    var s := t.slots[i];
    if s.Branch? {
      InsertWf(s.child, gpa, bits - IndexWidth, end);
      assert t.slots[i := Branch(s.child)] == t.slots;
    }
  }

  /** Idempotent add: when the walk already ends at a page of the requested
      granularity, that entry is returned unmodified and the tree is unchanged. */
  lemma {:induction false} InsertIdempotent(t: Tree, gpa: Gpa, bits: Shift, end: Shift, a: bv64)
    requires Wf(t, bits) && end <= bits
    requires Walk(t, gpa, bits) == Stop(Leaf(a), end)
    ensures Insert(t, gpa, bits, end) == Added(t, Success(Page(a)))
    decreases bits
  {
    var i := Index(gpa, bits);
    if bits > end {
      var c := t.slots[i].child;
      InsertIdempotent(c, gpa, bits - IndexWidth, end, a);
      assert t.slots[i := Branch(c)] == t.slots;
    }
  }

  /** A page of coarser granularity already covers the address: the add fails
      with PageConflict and the tree is unchanged. */
  lemma {:induction false} InsertCoarserPage(t: Tree, gpa: Gpa, bits: Shift, end: Shift)
    requires Wf(t, bits) && end <= bits
    requires Walk(t, gpa, bits).slot.Leaf? && Walk(t, gpa, bits).bits > end
    ensures Insert(t, gpa, bits, end) == Added(t, Failure(PageConflict))
    decreases bits
  {
    var s := t.slots[Index(gpa, bits)];
    if s.Branch? {
      InsertCoarserPage(s.child, gpa, bits - IndexWidth, end);
    }
  }

  /** The slot at the stop level is a table (a finer mapping exists below it):
      the add fails with TableConflict and the tree is unchanged. */
  lemma {:induction false} InsertOverTable(t: Tree, gpa: Gpa, bits: Shift, end: Shift)
    requires Wf(t, bits) && end <= bits
    requires Walk(t, gpa, bits).bits < end
    ensures Insert(t, gpa, bits, end) == Added(t, Failure(TableConflict))
    decreases bits
  {
    var s := t.slots[Index(gpa, bits)];
    if bits > end {
      InsertOverTable(s.child, gpa, bits - IndexWidth, end);
    }
  }

  /** The walk ends at an unused slot at or above the stop level: the add
      succeeds with a fresh entry that has only bit 7 set, the walk of the new
      tree ends at that page exactly at the stop level, and removing the page
      again gives back the original tree, every table created for it included. */
  lemma {:induction false} InsertFresh(t: Tree, gpa: Gpa, bits: Shift, end: Shift)
    requires Wf(t, bits) && end <= bits
    requires Walk(t, gpa, bits).slot.Free? && Walk(t, gpa, bits).bits >= end
    ensures Insert(t, gpa, bits, end).result == Success(Page(PageSizeBit))
    ensures Wf(Insert(t, gpa, bits, end).tree, bits)
    ensures Walk(Insert(t, gpa, bits, end).tree, gpa, bits) == Stop(Leaf(PageSizeBit), end)
    ensures Remove(Insert(t, gpa, bits, end).tree, gpa, bits) == t
    decreases bits
  {
    InsertWf(t, gpa, bits, end);
    var i := Index(gpa, bits);
    var s := t.slots[i];
    if bits > end {
      var c := if s.Branch? then s.child else EmptyTree();
      EmptyWf(bits - IndexWidth);
      if s.Free? {
        LookupEmpty(c, gpa, bits - IndexWidth);
      }
      InsertFresh(c, gpa, bits - IndexWidth, end);
      var below := Insert(c, gpa, bits - IndexWidth, end);
      var t' := Tree(t.slots[i := Branch(below.tree)]);
      assert Insert(t, gpa, bits, end).tree == t';
      assert t'.slots[i] == Branch(below.tree);
      assert Remove(below.tree, gpa, bits - IndexWidth) == c;
      if s.Free? {
        assert IsEmpty(c);
        assert t.slots[i := Free] == t.slots;
      } else {
        assert !IsEmpty(c);
        assert t.slots[i := Branch(c)] == t.slots;
      }
    } else {
      assert t.slots[i := Leaf(PageSizeBit)][i := Free] == t.slots;
    }
  }

  /** Round trip: after a successful add, the lookup of the same address finds
      the very entry the add returned, a page ending the walk at the stop level. */
  lemma {:induction false} InsertThenLookup(t: Tree, gpa: Gpa, bits: Shift, end: Shift)
    requires Wf(t, bits) && end <= bits
    requires Insert(t, gpa, bits, end).result.Success?
    ensures Wf(Insert(t, gpa, bits, end).tree, bits)
    ensures Insert(t, gpa, bits, end).result.value.Page?
    ensures Walk(Insert(t, gpa, bits, end).tree, gpa, bits)
         == Stop(Leaf(Insert(t, gpa, bits, end).result.value.attrs), end)
    ensures Lookup(Insert(t, gpa, bits, end).tree, gpa, bits) == Insert(t, gpa, bits, end).result
    decreases bits
  {
    InsertWf(t, gpa, bits, end);
    var i := Index(gpa, bits);
    var s := t.slots[i];
    if bits > end {
      var c := if s.Branch? then s.child else EmptyTree();
      EmptyWf(bits - IndexWidth);
      InsertThenLookup(c, gpa, bits - IndexWidth, end);
    }
  }

  /** A page answers for its whole region: after a successful add, every
      address on the same route down to the stop level looks up the entry
      the add returned. */
  lemma InsertCovers(t: Tree, g: Gpa, h: Gpa, bits: Shift, end: Shift)
    requires Wf(t, bits) && end <= bits
    requires Insert(t, g, bits, end).result.Success?
    requires SameRoute(g, h, bits, end)
    ensures Wf(Insert(t, g, bits, end).tree, bits)
    ensures Lookup(Insert(t, g, bits, end).tree, h, bits) == Insert(t, g, bits, end).result
  {
    InsertThenLookup(t, g, bits, end);
    WalkSameRoute(Insert(t, g, bits, end).tree, g, h, bits);
  }

  /** Once a page is mapped, an add of a finer page anywhere on its route
      fails with PageConflict and leaves the tree as it is. */
  lemma CoarserPageBlocksFiner(t: Tree, g: Gpa, h: Gpa, bits: Shift, end: Shift, finer: Shift)
    requires Wf(t, bits) && finer < end <= bits
    requires Insert(t, g, bits, end).result.Success?
    requires SameRoute(g, h, bits, end)
    ensures var t' := Insert(t, g, bits, end).tree;
      Wf(t', bits) && Insert(t', h, bits, finer) == Added(t', Failure(PageConflict))
  {
    var t' := Insert(t, g, bits, end).tree;
    InsertThenLookup(t, g, bits, end);
    WalkSameRoute(t', g, h, bits);
    InsertCoarserPage(t', h, bits, finer);
  }

  /** `add_page_1g` then `add_page_4k` (or `add_page_2m`) inside the same
      gigabyte: the second add fails with PageConflict. */
  lemma Page1GBlocksFiner(t: Tree, g: Gpa, h: Gpa, finer: Shift)
    requires Wf(t, Pml4From) && finer < PdptFrom
    requires Region(g, PdptFrom) == Region(h, PdptFrom)
    requires Insert(t, g, Pml4From, PdptFrom).result.Success?
    ensures var t' := Insert(t, g, Pml4From, PdptFrom).tree;
      Wf(t', Pml4From) && Insert(t', h, Pml4From, finer) == Added(t', Failure(PageConflict))
  {
    SameRegionSameRoute(g, h, Pml4From, PdptFrom);
    CoarserPageBlocksFiner(t, g, h, Pml4From, PdptFrom, finer);
  }

  /** The outcome of an add, by where the walk of the address ends: the four
      cases are exhaustive, so an add either conflicts, returns the existing
      page, or maps a fresh one. */
  lemma InsertCases(t: Tree, gpa: Gpa, bits: Shift, end: Shift)
    requires Wf(t, bits) && end <= bits
    ensures var w := Walk(t, gpa, bits);
      && (w.bits < end ==> Insert(t, gpa, bits, end) == Added(t, Failure(TableConflict)))
      && (w.bits > end && w.slot.Leaf? ==> Insert(t, gpa, bits, end) == Added(t, Failure(PageConflict)))
      && (w.bits == end && w.slot.Leaf? ==> Insert(t, gpa, bits, end) == Added(t, Success(Page(w.slot.attrs))))
      && (w.bits >= end && w.slot.Free? ==> Insert(t, gpa, bits, end).result == Success(Page(PageSizeBit)))
  {
    var w := Walk(t, gpa, bits);
    if w.bits < end {
      InsertOverTable(t, gpa, bits, end);
    } else if w.slot.Leaf? {
      if w.bits > end {
        InsertCoarserPage(t, gpa, bits, end);
      } else {
        InsertIdempotent(t, gpa, bits, end, w.slot.attrs);
      }
    } else {
      InsertFresh(t, gpa, bits, end);
    }
  }

  /** Adding the same page twice leaves the same tree, and the same entry, as
      adding it once. */
  lemma InsertTwice(t: Tree, gpa: Gpa, bits: Shift, end: Shift)
    requires Wf(t, bits) && end <= bits
    requires Insert(t, gpa, bits, end).result.Success?
    ensures var once := Insert(t, gpa, bits, end);
      Wf(once.tree, bits) && Insert(once.tree, gpa, bits, end) == once
  {
    var once := Insert(t, gpa, bits, end);
    InsertThenLookup(t, gpa, bits, end);
    InsertIdempotent(once.tree, gpa, bits, end, once.result.value.attrs);
  }

  /** An add changes no other translation: every address whose route parts
      from that of `gpa` at or above the stop level looks up as before. */
  lemma {:induction false} InsertFrame(t: Tree, gpa: Gpa, other: Gpa, bits: Shift, end: Shift)
    requires Wf(t, bits) && end <= bits
    requires !SameRoute(gpa, other, bits, end)
    ensures Wf(Insert(t, gpa, bits, end).tree, bits)
    ensures Lookup(Insert(t, gpa, bits, end).tree, other, bits) == Lookup(t, other, bits)
    decreases bits
  {
    InsertWf(t, gpa, bits, end);
    var t' := Insert(t, gpa, bits, end).tree;
    var i, j := Index(gpa, bits), Index(other, bits);
    var s := t.slots[i];
    if i != j {
      assert t'.slots[j] == t.slots[j];
    } else if bits > end && !s.Leaf? {
      var c := if s.Branch? then s.child else EmptyTree();
      EmptyWf(bits - IndexWidth);
      InsertFrame(c, gpa, other, bits - IndexWidth, end);
      var below := Insert(c, gpa, bits - IndexWidth, end);
      if below.result.Success? {
        assert t'.slots[j] == Branch(below.tree);
        LookupStep(t', other, bits);
        if s.Free? {
          LookupEmpty(c, other, bits - IndexWidth);
        } else {
          LookupStep(t, other, bits);
        }
      }
    }
  }
}
