/** What `remove_page` promises, proved of the value-level `Remove`: it clears
    the page on the route of the address, prunes every table it leaves empty,
    never touches another translation, and is a no-op on an unmapped address. */
module EptRemove {
  import opened EptAddress
  import opened EptTree
  import opened EptInsert

  /** Removal keeps the tree well formed: no empty table survives below the root. */
  lemma {:induction false} RemoveWf(t: Tree, gpa: Gpa, bits: Shift)
    requires Wf(t, bits)
    ensures Wf(Remove(t, gpa, bits), bits)
    decreases bits
  {
    var i := Index(gpa, bits);
    var s := t.slots[i];
    var t' := Remove(t, gpa, bits);
    if s.Branch? {
      RemoveWf(s.child, gpa, bits - IndexWidth);
    }
    forall j | 0 <= j < Entries && t'.slots[j].Branch?
      ensures bits > PtFrom && Wf(t'.slots[j].child, bits - IndexWidth) && !IsEmpty(t'.slots[j].child)
    {
      if j != i { assert t'.slots[j] == t.slots[j]; }
    }
  }

  /** After removal the address is no longer mapped. */
  lemma {:induction false} RemoveClears(t: Tree, gpa: Gpa, bits: Shift)
    requires Wf(t, bits)
    ensures Wf(Remove(t, gpa, bits), bits)
    ensures Lookup(Remove(t, gpa, bits), gpa, bits) == Failure(NotMapped)
    decreases bits
  {
    RemoveWf(t, gpa, bits);
    var i := Index(gpa, bits);
    var s := t.slots[i];
    var t' := Remove(t, gpa, bits);
    if s.Branch? {
      var below := Remove(s.child, gpa, bits - IndexWidth);
      RemoveClears(s.child, gpa, bits - IndexWidth);
      if !IsEmpty(below) {
        assert t'.slots[i] == Branch(below);
        LookupStep(t', gpa, bits);
      }
    }
  }

  /** Removal clears the whole region of the page it removes: every address
      on the route of `g` down to where its walk ends looks up NotMapped. */
  lemma {:induction false} RemoveClearsRegion(t: Tree, g: Gpa, h: Gpa, bits: Shift)
    requires Wf(t, bits) && SameRoute(g, h, bits, Walk(t, g, bits).bits)
    ensures Wf(Remove(t, g, bits), bits)
    ensures Lookup(Remove(t, g, bits), h, bits) == Failure(NotMapped)
    decreases bits
  {
    RemoveWf(t, g, bits);
    var i := Index(g, bits);
    var s := t.slots[i];
    var t' := Remove(t, g, bits);
    if s.Branch? {
      var below := Remove(s.child, g, bits - IndexWidth);
      RemoveClearsRegion(s.child, g, h, bits - IndexWidth);
      if !IsEmpty(below) {
        assert t'.slots[i] == Branch(below);
        LookupStep(t', h, bits);
      }
    }
  }

  /** Removing an address that is not mapped changes nothing: removal is
      idempotent and never an error. */
  lemma {:induction false} RemoveUnmapped(t: Tree, gpa: Gpa, bits: Shift)
    requires Wf(t, bits)
    requires Lookup(t, gpa, bits) == Failure(NotMapped)
    ensures Remove(t, gpa, bits) == t
    decreases bits
  {
    var i := Index(gpa, bits);
    var s := t.slots[i];
    if s.Branch? {
      LookupStep(t, gpa, bits);
      RemoveUnmapped(s.child, gpa, bits - IndexWidth);
      assert t.slots[i := Branch(s.child)] == t.slots;
    } else {
      assert s.Free?;
      assert t.slots[i := Free] == t.slots;
    }
  }

  /** Removing twice is removing once. */
  lemma RemoveTwice(t: Tree, gpa: Gpa, bits: Shift)
    requires Wf(t, bits)
    ensures Wf(Remove(t, gpa, bits), bits)
    ensures Remove(Remove(t, gpa, bits), gpa, bits) == Remove(t, gpa, bits)
  {
    RemoveClears(t, gpa, bits);
    RemoveUnmapped(Remove(t, gpa, bits), gpa, bits);
  }

  /** Removal changes no other translation: every address whose route parts
      from that of `gpa` at or above the level of the removed page looks up
      as before, including those in tables the cascade pruned. */
  lemma {:induction false} RemoveFrame(t: Tree, gpa: Gpa, other: Gpa, bits: Shift)
    requires Wf(t, bits)
    requires !SameRoute(gpa, other, bits, Walk(t, gpa, bits).bits)
    ensures Wf(Remove(t, gpa, bits), bits)
    ensures Lookup(Remove(t, gpa, bits), other, bits) == Lookup(t, other, bits)
    decreases bits
  {
    RemoveWf(t, gpa, bits);
    var i, j := Index(gpa, bits), Index(other, bits);
    var s := t.slots[i];
    var t' := Remove(t, gpa, bits);
    if i != j {
      assert t'.slots[j] == t.slots[j];
    } else {
      // The routes agree here, so the walk of gpa went on below this level.
      var c := s.child;
      var below := Remove(c, gpa, bits - IndexWidth);
      RemoveFrame(c, gpa, other, bits - IndexWidth);
      LookupStep(t, other, bits);
      if IsEmpty(below) {
        LookupEmpty(below, other, bits - IndexWidth);
      } else {
        assert t'.slots[j] == Branch(below);
        LookupStep(t', other, bits);
      }
    }
  }

  /** Cleanup cascade: mapping a fresh page on an address and removing it again
      gives back exactly the tree before, so `global_size` and
      `global_capacity` return to their earlier values. */
  lemma AddThenRemove(t: Tree, gpa: Gpa, bits: Shift, end: Shift)
    requires Wf(t, bits) && end <= bits
    requires Lookup(t, gpa, bits) == Failure(NotMapped) && Walk(t, gpa, bits).bits >= end
    ensures Insert(t, gpa, bits, end).result.Success?
    ensures Wf(Insert(t, gpa, bits, end).tree, bits)
    ensures Remove(Insert(t, gpa, bits, end).tree, gpa, bits) == t
    ensures Size(Remove(Insert(t, gpa, bits, end).tree, gpa, bits)) == Size(t)
  {
    InsertFresh(t, gpa, bits, end);
  }

  /** The scenario of the header's remove_page note: one 4K page added to an
      empty root and removed again leaves the root alone and empty. */
  lemma AddRemove4KOnEmptyRoot(gpa: Gpa)
    ensures Insert(EmptyTree(), gpa, Pml4From, PtFrom).result == Success(Page(PageSizeBit))
    ensures Wf(Insert(EmptyTree(), gpa, Pml4From, PtFrom).tree, Pml4From)
    ensures Remove(Insert(EmptyTree(), gpa, Pml4From, PtFrom).tree, gpa, Pml4From) == EmptyTree()
  {
    EmptyWf(Pml4From);
    LookupEmpty(EmptyTree(), gpa, Pml4From);
    InsertFresh(EmptyTree(), gpa, Pml4From, PtFrom);
  }
}
