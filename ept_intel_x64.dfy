/** The class `ept_intel_x64`: one node of the EPT radix tree, owning its
    hardware entry array and the parallel vector of child tables. Every
    operation is proved against the value model of module `EptTree`. */
module EptIntelX64 {
  import opened EptAddress
  import opened EptTree
  import opened EptInsert
  import opened EptRemove
  import opened EptCensus

  /** One entry of the list `ept_to_mdl` produces: the backing buffer of a
      table, standing for its physical address, and its size in bytes. */
  datatype MemoryDescriptor = MemoryDescriptor(table: array<Entry>, size: nat)

  class Ept {
    /** `m_ept`: the 512 hardware entries of this table. */
    var ept: array<Entry>
    /** `m_epts`: the owned child tables; slot i is set exactly when entry i is a table. */
    var epts: seq<Ept?>

    /** The value this node and everything below it stand for. */
    ghost var Model: Tree
    /** The level of this node: the start bit of the address field it indexes. */
    ghost var Bits: Shift
    /** The objects this node and its subtree are made of. */
    ghost var Repr: set<object>

    ghost predicate Valid()
      reads this, Repr
      ensures Valid() ==> this in Repr
      decreases Repr
    {
      this in Repr && ept in Repr &&
      ept.Length == Entries && |epts| == Entries && Wf(Model, Bits) &&
      (forall i | 0 <= i < Entries :: ept[i] == EntryOf(Model.slots[i])) &&
      (forall i | 0 <= i < Entries :: (epts[i] != null <==> Model.slots[i].Branch?)) &&
      (forall i | 0 <= i < Entries && epts[i] != null ::
         epts[i] in Repr && epts[i].Repr <= Repr && this !in epts[i].Repr && ept !in epts[i].Repr &&
         epts[i].Bits == Bits - IndexWidth && epts[i].Model == Model.slots[i].child &&
         epts[i].Valid()) &&
      (forall i, j | 0 <= i < Entries && 0 <= j < Entries && i != j && epts[i] != null && epts[j] != null ::
         epts[i].Repr !! epts[j].Repr)
    }

    /** Everything `Valid` says about the slots other than `k`, whose child's
        footprint is `hole`; it reads nothing in `hole`, so it survives any
        change made there. */
    ghost predicate ValidBut(k: nat, hole: set<object>)
      reads this, Repr - hole
    {
      this in Repr && this !in hole && ept in Repr && ept !in hole &&
      ept.Length == Entries && |epts| == Entries && |Model.slots| == Entries && k < Entries &&
      (forall j | 0 <= j < Entries && j != k ::
         ept[j] == EntryOf(Model.slots[j]) && (epts[j] != null <==> Model.slots[j].Branch?)) &&
      (forall j | 0 <= j < Entries && j != k && epts[j] != null ::
         epts[j] in Repr && epts[j] !in hole && epts[j].Repr <= Repr && epts[j].Repr !! hole &&
         this !in epts[j].Repr && ept !in epts[j].Repr &&
         epts[j].Bits == Bits - IndexWidth && epts[j].Model == Model.slots[j].child &&
         epts[j].Valid()) &&
      (forall j, l | 0 <= j < Entries && 0 <= l < Entries && j != l && j != k && l != k &&
                     epts[j] != null && epts[l] != null ::
         epts[j].Repr !! epts[l].Repr)
    }

    /** A valid node is valid apart from any one slot, with that slot's child
        footprint (or nothing) as the hole. */
    lemma ValidToValidBut(k: nat)
      requires Valid() && k < Entries
      ensures ValidBut(k, if epts[k] != null then epts[k].Repr else {})
    {
    }

    /** Put `child` back (or newly) into slot `k` as a table entry and bring
        `Model` and `Repr` up to date: the node is valid again. */
    ghost method Relink(k: nat, child: Ept, hole: set<object>)
      requires ValidBut(k, hole) && Repr !! (child.Repr - hole)
      requires epts[k] == child && ept[k] == Table
      requires child.Valid() && child.Bits == Bits - IndexWidth && this !in child.Repr && ept !in child.Repr
      requires Wf(Tree(Model.slots[k := Branch(child.Model)]), Bits)
      modifies this
      ensures Valid() && ept == old(ept) && epts == old(epts) && Bits == old(Bits)
      ensures Model == Tree(old(Model).slots[k := Branch(child.Model)]) && Repr == old(Repr) + child.Repr
    {
      Model := Tree(Model.slots[k := Branch(child.Model)]);
      Repr := Repr + child.Repr;
    }

    /** A zero-filled table at level `bits`; the root is made at `Pml4From`. */
    constructor (ghost bits: Shift)
      ensures Valid() && fresh(Repr)
      ensures Model == EmptyTree() && Bits == bits
    {
      ept := new Entry[Entries](_ => Unused);
      epts := seq(Entries, _ => null);
      Model := EmptyTree();
      Bits := bits;
      Repr := {this, ept};
    }

    /** `get_entry`: the entry at `index`, as the model classifies that slot. */
    function GetEntry(index: nat): (e: Entry)
      reads this, Repr
      requires Valid() && index < Entries
      ensures e == EntryOf(Model.slots[index])
    {
      ept[index]
    }

    /** `empty()`: no entry of this table is used. */
    function Empty(): (r: bool)
      reads this, Repr
      requires Valid()
      ensures r <==> IsEmpty(Model)
    {
      forall i | 0 <= i < Entries :: ept[i].Unused?
    }

    /** The private `add_page(gpa, bits, end)`: descend from this node, creating
        and linking a child in each unused slot, and map a page at level `end`. */
    method AddPageAt(gpa: Gpa, bits: Shift, end: Shift) returns (r: Result<Entry>)
      requires Valid() && bits == Bits && end <= bits
      modifies Repr
      ensures Valid() && fresh(Repr - old(Repr)) && Bits == old(Bits)
      ensures Model == Insert(old(Model), gpa, bits, end).tree
      ensures r == Insert(old(Model), gpa, bits, end).result
      decreases bits, 1
    {
      var i := Index(gpa, bits);
      if bits > end {
        if epts[i] != null {
          r := AddThroughChild(i, gpa, bits, end);
        } else if ept[i].Unused? {
          r := AddThroughNewChild(i, gpa, bits, end);
        } else {
          r := Failure(PageConflict);
        }
      } else if epts[i] != null {
        r := Failure(TableConflict);
      } else {
        r := AddHere(i, gpa, bits, end);
      }
    }

    /** The stop level is reached and the slot holds no table: keep an existing
        page as it is, or map a fresh one with only bit 7 set. */
    method AddHere(i: nat, gpa: Gpa, bits: Shift, end: Shift) returns (r: Result<Entry>)
      requires Valid() && bits == Bits && end == bits && i == Index(gpa, bits) && epts[i] == null
      modifies ept, this`Model
      ensures Valid() && Repr == old(Repr) && Bits == old(Bits)
      ensures Model == Insert(old(Model), gpa, bits, end).tree
      ensures r == Insert(old(Model), gpa, bits, end).result
    {
      if ept[i].Unused? {
        ept[i] := Page(PageSizeBit);
        Model := Tree(Model.slots[i := Leaf(PageSizeBit)]);
        assert Wf(Model, Bits) by { InsertWf(old(Model), gpa, bits, end); }
      }
      r := Success(ept[i]);
    }

    /** Above the stop level, at an existing child: descend into it. */
    method AddThroughChild(i: nat, gpa: Gpa, bits: Shift, end: Shift) returns (r: Result<Entry>)
      requires Valid() && bits == Bits && end < bits && i == Index(gpa, bits) && epts[i] != null
      modifies Repr
      ensures Valid() && fresh(Repr - old(Repr)) && Bits == old(Bits)
      ensures Model == Insert(old(Model), gpa, bits, end).tree
      ensures r == Insert(old(Model), gpa, bits, end).result
      decreases bits, 0
    {
      var child := epts[i];
      ValidToValidBut(i);
      InsertDescend(Model, gpa, bits, end);
      ghost var hole := child.Repr;
      r := child.AddPageAt(gpa, bits - IndexWidth, end);
      Relink(i, child, hole);
    }

    /** Above the stop level, at an unused slot: allocate a child, link it as a
        table entry, and descend into it; a fresh child never conflicts. */
    method AddThroughNewChild(i: nat, gpa: Gpa, bits: Shift, end: Shift) returns (r: Result<Entry>)
      requires Valid() && bits == Bits && end < bits && i == Index(gpa, bits)
      requires epts[i] == null && ept[i].Unused?
      modifies Repr
      ensures Valid() && fresh(Repr - old(Repr)) && Bits == old(Bits)
      ensures Model == Insert(old(Model), gpa, bits, end).tree
      ensures r == Insert(old(Model), gpa, bits, end).result
      decreases bits, 0
    {
      var child := new Ept(bits - IndexWidth);
      Link(i, child);
      assert Insert(child.Model, gpa, bits - IndexWidth, end).result.Success? by {
        EmptyWf(bits - IndexWidth);
        LookupEmpty(child.Model, gpa, bits - IndexWidth);
        InsertFresh(child.Model, gpa, bits - IndexWidth, end);
      }
      InsertDescend(Model, gpa, bits, end);
      r := child.AddPageAt(gpa, bits - IndexWidth, end);
      Relink(i, child, {});
    }

    /** Store a freshly allocated, empty child in the unused slot `k`: the
        entry becomes a table entry; `Model` follows once the child is filled. */
    method Link(k: nat, child: Ept)
      requires Valid() && k < Entries && epts[k] == null && ept[k].Unused?
      requires child.Valid() && Repr !! child.Repr && child.Model == EmptyTree() && child.Bits == Bits - IndexWidth
      modifies ept, this`epts
      ensures ValidBut(k, {}) && Repr !! child.Repr
      ensures epts == old(epts)[k := child] && ept[k] == Table
      ensures Model == old(Model) && Repr == old(Repr) && Bits == old(Bits)
      ensures child.Valid() && child.Model == EmptyTree() && child.Bits == Bits - IndexWidth
      ensures this !in child.Repr && ept !in child.Repr
    {
      ValidToValidBut(k);
      ept[k] := Table;
      epts := epts[k := child];
    }

    /** Drop the child in slot `k` after it became empty: the entry is unused
        again, the child is no longer owned, and its footprint `hole` leaves
        `Repr`. */
    method Unlink(k: nat, ghost hole: set<object>)
      requires ValidBut(k, hole) && epts[k] != null
      requires Wf(Tree(Model.slots[k := Free]), Bits)
      modifies ept, this`epts, this`Model, this`Repr
      ensures Valid() && ept == old(ept) && Bits == old(Bits)
      ensures Model == Tree(old(Model).slots[k := Free]) && Repr == old(Repr) - hole
    {
      ept[k] := Unused;
      epts := epts[k := null];
      Forget(k, hole);
    }

    /** The model side of `Unlink`: slot `k` is free, and `hole` is no longer
        part of this subtree. */
    ghost method Forget(k: nat, hole: set<object>)
      requires ValidBut(k, hole) && epts[k] == null && ept[k] == Unused
      requires Wf(Tree(Model.slots[k := Free]), Bits)
      modifies this`Model, this`Repr
      ensures Valid() && Model == Tree(old(Model).slots[k := Free]) && Repr == old(Repr) - hole
    {
      Model := Tree(Model.slots[k := Free]);
      Repr := Repr - hole;
    }

    /** The private `remove_page(gpa, bits)`: descend through tables to the
        page on the route of `gpa`, clear it, and unlink every child the
        removal left empty on the way back up. */
    method RemovePageAt(gpa: Gpa, bits: Shift)
      requires Valid() && bits == Bits
      modifies Repr
      ensures Valid() && Repr <= old(Repr) && Bits == old(Bits)
      ensures Model == Remove(old(Model), gpa, bits)
      decreases bits, 1
    {
      var i := Index(gpa, bits);
      if epts[i] != null {
        RemoveThroughChild(i, gpa, bits);
      } else {
        ept[i] := Unused;
        Model := Tree(Model.slots[i := Free]);
        assert Wf(Model, Bits) by { RemoveWf(old(Model), gpa, bits); }
      }
    }

    /** Removal through the child in slot `i`, pruning it if it became empty. */
    method RemoveThroughChild(i: nat, gpa: Gpa, bits: Shift)
      requires Valid() && bits == Bits && i == Index(gpa, bits) && epts[i] != null
      modifies Repr
      ensures Valid() && Repr <= old(Repr) && Bits == old(Bits)
      ensures Model == Remove(old(Model), gpa, bits)
      decreases bits, 0
    {
      var child := epts[i];
      ValidToValidBut(i);
      RemoveWf(Model, gpa, bits);
      ghost var hole := child.Repr;
      child.RemovePageAt(gpa, bits - IndexWidth);
      if child.Empty() {
        Unlink(i, hole);
      } else {
        Relink(i, child, hole);
      }
    }

    /** The private `gpa_to_epte(gpa, bits)`: the page entry the walk of `gpa`
        ends at, or NotMapped; it changes nothing. */
    function GpaToEpteAt(gpa: Gpa, bits: Shift): (r: Result<Entry>)
      reads this, Repr
      requires Valid() && bits == Bits
      ensures r == Lookup(Model, gpa, bits)
      ensures r.Success? ==> r.value.Page?
      decreases Repr
    {
      var i := Index(gpa, bits);
      if epts[i] != null then epts[i].GpaToEpteAt(gpa, bits - IndexWidth)
      else if ept[i].Page? then Success(ept[i])
      else Failure(NotMapped)
    }

    /** `global_size()`: the used entries of this table and of every table
        below it, counted entry by entry. */
    method GlobalSize() returns (n: nat)
      requires Valid()
      ensures n == Size(Model)
      ensures n + 1 == Pages(Model) + Tables(Model)
      ensures n == 0 <==> IsEmpty(Model)
      decreases Repr
    {
      n := 0;
      var k := 0;
      while k < Entries
        invariant 0 <= k <= Entries
        invariant n == SizeBelow(Model, k)
      {
        if epts[k] != null {
          var m := epts[k].GlobalSize();
          n := n + 1 + m;
        } else if !ept[k].Unused? {
          n := n + 1;
        }
        k := k + 1;
      }
      SizeCensus(Model);
    }

    /** `global_capacity()`: the slots of this table and of every table below
        it; 512 for each table. */
    method GlobalCapacity() returns (n: nat)
      requires Valid()
      ensures n == Capacity(Model)
      ensures n == Entries * Tables(Model)
      decreases Repr
    {
      n := 0;
      var k := 0;
      while k < Entries
        invariant 0 <= k <= Entries
        invariant n == CapacityBelow(Model, k)
      {
        if epts[k] != null {
          var m := epts[k].GlobalCapacity();
          n := n + m;
        }
        k := k + 1;
      }
      n := Entries + n;
      CapacityIsTables(Model, Bits);
    }

    /** The descriptor list of this subtree in pre-order: this table first,
        then the subtrees of its children by increasing index. */
    ghost function Descriptors(): seq<MemoryDescriptor>
      reads this, Repr
      requires Valid()
      decreases Repr, 1
    {
      [MemoryDescriptor(ept, TableBytes)] + ChildDescriptors(Entries)
    }

    /** The descriptors of the subtrees of the first `n` slots. */
    ghost function ChildDescriptors(n: nat): seq<MemoryDescriptor>
      reads this, Repr
      requires Valid() && n <= Entries
      decreases Repr, 0, n
    {
      if n == 0 then []
      else ChildDescriptors(n - 1) + (if epts[n - 1] != null then epts[n - 1].Descriptors() else [])
    }

    /** The footprints of the children in the first `n` slots. */
    ghost function ChildRepr(n: nat): set<object>
      reads this, Repr
      requires Valid() && n <= Entries
      decreases n
    {
      if n == 0 then {}
      else ChildRepr(n - 1) + (if epts[n - 1] != null then epts[n - 1].Repr else {})
    }

    /** One descriptor per table of the tree, each of the fixed table size, for
        pairwise distinct tables that all belong to this subtree. */
    lemma {:induction false} DescriptorsCensus()
      requires Valid()
      ensures |Descriptors()| == Tables(Model)
      ensures DistinctTables(Descriptors()) && Within(Descriptors(), Repr)
      ensures forall d | d in Descriptors() :: d.size == TableBytes
      decreases Repr, 1
    {
      ChildDescriptorsCensus(Entries);
      AppendDistinct([MemoryDescriptor(ept, TableBytes)], ChildDescriptors(Entries), {ept}, ChildRepr(Entries));
    }

    lemma {:induction false} ChildDescriptorsCensus(n: nat)
      requires Valid() && n <= Entries
      ensures |ChildDescriptors(n)| == TablesBelow(Model, n)
      ensures DistinctTables(ChildDescriptors(n)) && Within(ChildDescriptors(n), ChildRepr(n))
      ensures forall d | d in ChildDescriptors(n) :: d.size == TableBytes
      ensures ChildRepr(n) <= Repr && this !in ChildRepr(n) && ept !in ChildRepr(n)
      ensures forall j | n <= j < Entries && epts[j] != null :: ChildRepr(n) !! epts[j].Repr
      decreases Repr, 0, n
    {
      if n > 0 {
        ChildDescriptorsCensus(n - 1);
        var c := epts[n - 1];
        if c != null {
          c.DescriptorsCensus();
          AppendDistinct(ChildDescriptors(n - 1), c.Descriptors(), ChildRepr(n - 1), c.Repr);
        } else {
          assert ChildDescriptors(n) == ChildDescriptors(n - 1);
        }
      }
    }

    /** `ept_to_mdl(mdl)`: append the descriptors of this subtree to `mdl`. */
    method EptToMdlInto(mdl: seq<MemoryDescriptor>) returns (r: seq<MemoryDescriptor>)
      requires Valid()
      ensures r == mdl + Descriptors()
      decreases Repr, 1
    {
      r := mdl + [MemoryDescriptor(ept, TableBytes)];
      ghost var head := r;
      var k := 0;
      while k < Entries
        invariant 0 <= k <= Entries
        invariant r == head + ChildDescriptors(k)
      {
        r := ChildToMdlInto(k, head, r);
        k := k + 1;
      }
    }

    /** The part of `ept_to_mdl(mdl)` for slot `k`: recurse into its child,
        if any, extending a list that ends with the descriptors of the first
        `k` slots to one that ends with those of the first `k + 1`. */
    method ChildToMdlInto(k: nat, ghost head: seq<MemoryDescriptor>, mdl: seq<MemoryDescriptor>)
      returns (r: seq<MemoryDescriptor>)
      requires Valid() && k < Entries && mdl == head + ChildDescriptors(k)
      ensures r == head + ChildDescriptors(k + 1)
      decreases Repr, 0
    {
      ghost var here := if epts[k] != null then epts[k].Descriptors() else [];
      assert ChildDescriptors(k + 1) == ChildDescriptors(k) + here;
      r := mdl;
      var c := epts[k];
      if c != null {
        r := c.EptToMdlInto(mdl);
      }
      ConcatAssoc(head, ChildDescriptors(k), here);
    }

    /** `ept_to_mdl()`: one descriptor of the fixed table size for every table
        of the tree, tables pairwise distinct, none for the pages. */
    method EptToMdl() returns (mdl: seq<MemoryDescriptor>)
      requires Valid()
      ensures mdl == Descriptors()
      ensures |mdl| == Tables(Model) && DistinctTables(mdl) && Within(mdl, Repr)
      ensures forall d | d in mdl :: d.size == TableBytes
    {
      mdl := EptToMdlInto([]);
      DescriptorsCensus();
    }

    /** `add_page_1g`: map a 1G page, starting at the PML4. */
    method AddPage1G(gpa: Gpa) returns (r: Result<Entry>)
      requires Valid() && Bits == Pml4From
      modifies Repr
      ensures Valid() && fresh(Repr - old(Repr)) && Bits == old(Bits)
      ensures Model == Insert(old(Model), gpa, Pml4From, PdptFrom).tree
      ensures r == Insert(old(Model), gpa, Pml4From, PdptFrom).result
    {
      r := AddPageAt(gpa, Pml4From, PdptFrom);
    }

    /** `add_page_2m`: map a 2M page, starting at the PML4. */
    method AddPage2M(gpa: Gpa) returns (r: Result<Entry>)
      requires Valid() && Bits == Pml4From
      modifies Repr
      ensures Valid() && fresh(Repr - old(Repr)) && Bits == old(Bits)
      ensures Model == Insert(old(Model), gpa, Pml4From, PdFrom).tree
      ensures r == Insert(old(Model), gpa, Pml4From, PdFrom).result
    {
      r := AddPageAt(gpa, Pml4From, PdFrom);
    }

    /** `add_page_4k`: map a 4K page, starting at the PML4. */
    method AddPage4K(gpa: Gpa) returns (r: Result<Entry>)
      requires Valid() && Bits == Pml4From
      modifies Repr
      ensures Valid() && fresh(Repr - old(Repr)) && Bits == old(Bits)
      ensures Model == Insert(old(Model), gpa, Pml4From, PtFrom).tree
      ensures r == Insert(old(Model), gpa, Pml4From, PtFrom).result
    {
      r := AddPageAt(gpa, Pml4From, PtFrom);
    }

    /** `remove_page(gpa)`: remove the page mapping `gpa`, starting at the PML4. */
    method RemovePage(gpa: Gpa)
      requires Valid() && Bits == Pml4From
      modifies Repr
      ensures Valid() && Repr <= old(Repr) && Bits == old(Bits)
      ensures Model == Remove(old(Model), gpa, Pml4From)
    {
      RemovePageAt(gpa, Pml4From);
    }

    /** `gpa_to_epte(gpa)`: the lookup, starting at the PML4. */
    function GpaToEpte(gpa: Gpa): (r: Result<Entry>)
      reads this, Repr
      requires Valid() && Bits == Pml4From
      ensures r == Lookup(Model, gpa, Pml4From)
    {
      GpaToEpteAt(gpa, Pml4From)
    }
  }

  /** No table is reported twice. */
  predicate DistinctTables(s: seq<MemoryDescriptor>)
  {
    forall i, j | 0 <= i < j < |s| :: s[i].table != s[j].table
  }

  /** Every descriptor reports a table among `objs`. */
  ghost predicate Within(s: seq<MemoryDescriptor>, objs: set<object>)
  {
    forall i | 0 <= i < |s| :: s[i].table in objs
  }

  /** Joining two lists whose tables come from disjoint footprints keeps the
      tables distinct. */
  lemma AppendDistinct(a: seq<MemoryDescriptor>, b: seq<MemoryDescriptor>, sa: set<object>, sb: set<object>)
    requires DistinctTables(a) && Within(a, sa) && DistinctTables(b) && Within(b, sb) && sa !! sb
    ensures DistinctTables(a + b) && Within(a + b, sa + sb)
  {
    forall i, j | 0 <= i < j < |a + b|
      ensures (a + b)[i].table != (a + b)[j].table
    {
      if i < |a| && j >= |a| {
        assert (a + b)[i].table in sa && (a + b)[j].table in sb;
      }
    }
  }

  lemma ConcatAssoc(a: seq<MemoryDescriptor>, b: seq<MemoryDescriptor>, c: seq<MemoryDescriptor>)
    ensures (a + b) + c == a + (b + c)
  {
  }
}
