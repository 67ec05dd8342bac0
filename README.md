# Intel EPT page-table tree (Bareflank extended APIs) in Dafny

This project models the class `ept_intel_x64` of the Bareflank extended APIs.
The class is one node of the four-level Intel extended page table (EPT) tree:
PML4, PDPT, PD and PT. Each node owns an array of 512 hardware entries
(`m_ept`) and a parallel vector of owned child tables (`m_epts`). The
hypervisor maps guest-physical pages of 1G, 2M or 4K into the tree, removes
them again, looks an address up, and exports the list of table buffers that
must be handed to the hardware.

The project has two layers.

- `EptTree` is the tree as a value. A `Tree` is one table with 512 `Slot`s.
  A slot is `Free`, a `Leaf` page carrying its attribute word, or a `Branch`
  to the table one level down. `Insert`, `Remove`, `Walk`/`Lookup` and the
  census functions (`Size`, `Capacity`, `Tables`, `Pages`) are the
  specification. `EptInsert`, `EptRemove` and `EptCensus` prove what the
  header promises about them.
- `EptIntelX64.Ept` is the class itself. It has the two fields of the
  source, an `array<Entry>` and a `seq<Ept?>` of owned children. It also has
  ghost `Model`, `Bits` and `Repr` fields. `Valid()` ties the heap to the
  model. It also says that every child is a valid table one level down and
  that the children's footprints are disjoint. Every operation is proved
  against the value layer.
- `EptAddress` holds the address arithmetic. A level is named by the shift
  the source calls `bits`: 39 for the PML4, 30 for the PDPT, 21 for the PD
  and 12 for the PT. The index of an address at a level is
  `(gpa >> bits) & 511`.

The three public `add_page_*` calls share the private
`add_page(gpa, bits, end)`. Only the stop level `end` differs: 30, 21 or 12.
The add walks down from the PML4. At each level above `end` it goes into an
existing child, or it allocates and links a child at an unused entry. It
fails with `PageConflict` when a page already sits above `end`. At `end` it
fails with `TableConflict` when a table sits there. If a page is already
there, it returns that entry unchanged. Otherwise it writes a fresh entry
whose only set bit is the page-size bit 7. The header signals the two
conflicts by throwing an exception; here they are the two `Failure` values
of a `Result`.

`remove_page` walks down the same route to whatever page it reaches and
clears that entry. On the way back up it unlinks and drops every child that
the removal left empty. The root is never dropped. On an address that is
not mapped, removal changes nothing. `gpa_to_epte` performs the same walk
but changes nothing. The header does not say what it does when no page is
found; the model chooses to return `Failure(NotMapped)` there.
`ept_to_mdl` emits one descriptor per table, in pre-order, and none for
pages.

## Model

| member | source | states |
|---|---|---|
| EptAddress.Span | include/vmcs/ept_intel_x64.h:102-103 | each level covers 512 times the span of the level below; at the PT level that span is 4K |
| EptAddress.Index | include/vmcs/ept_intel_x64.h:204 | the entry index an address selects at a level is below 512 |
| EptAddress.RouteIsRegion | include/vmcs/ept_intel_x64.h:204 | below 2^48, two addresses take the same route from the PML4 down to a level exactly when they lie in the same naturally aligned region of that level's size |
| EptTree.Walk | include/vmcs/ept_intel_x64.h:206 | the walk of an address ends at a slot that is not a table, at or below the starting level |
| EptTree.WalkSameRoute | include/vmcs/ept_intel_x64.h:206 | an address whose route agrees with that of another down to where the other's walk ends takes the very same walk |
| EptTree.Lookup | include/vmcs/ept_intel_x64.h:206 | the lookup succeeds exactly when the walk ends at a page, a success is always a page entry, and the only failure is NotMapped |
| EptTree.Insert | include/vmcs/ept_intel_x64.h:204 | an add returns a page entry or a conflict, never NotMapped; a failed add leaves the tree unchanged; the result is again a table of 512 entries |
| EptTree.Remove | include/vmcs/ept_intel_x64.h:205 | after removal the entry the address selects at this level is not a page, the table keeps 512 entries, and a table entry can only remain where there was one before |
| EptTree.Size | include/vmcs/ept_intel_x64.h:210 | the global size is zero exactly when every entry of the table is unused |
| EptTree.Capacity | include/vmcs/ept_intel_x64.h:211 | the global capacity counts at least the table's own entries (its exact value is `EptCensus.CapacityIsTables`) |
| EptTree.EmptyTree | include/vmcs/ept_intel_x64.h:55 | a new table has 512 entries and all of them are unused |
| EptInsert.InsertWf | include/vmcs/ept_intel_x64.h:204 | an add keeps the tree well formed; a successful add leaves a non-empty table; a failed add changes nothing |
| EptInsert.InsertDescend | include/vmcs/ept_intel_x64.h:204 | above the stop level, through an entry that is not a page, the add's outcome is that of the add one level down, and the new child subtree is linked into that entry |
| EptInsert.InsertIdempotent | include/vmcs/ept_intel_x64.h:90-91 | when the walk already ends at a page of the requested granularity, the add returns that entry unmodified and the tree is unchanged |
| EptInsert.InsertCoarserPage | include/vmcs/ept_intel_x64.h:87-88 | when a page of coarser granularity covers the address, the add fails with PageConflict and changes nothing |
| EptInsert.InsertOverTable | include/vmcs/ept_intel_x64.h:85 | when a table sits at the stop level, the add fails with TableConflict and changes nothing |
| EptInsert.InsertFresh | include/vmcs/ept_intel_x64.h:93-94 | when the walk ends at an unused entry at or above the stop level, the add returns an entry with only bit 7 set, the new walk ends at that page exactly at the stop level, and removing it restores the tree |
| EptInsert.InsertThenLookup | include/vmcs/ept_intel_x64.h:175-185 | after a successful add, the lookup of the same address returns the very entry the add returned |
| EptInsert.InsertCovers | include/vmcs/ept_intel_x64.h:93-94 | after a successful add, every address on the same route down to the stop level, that is every address of the page's region, looks up the entry the add returned |
| EptInsert.CoarserPageBlocksFiner | include/vmcs/ept_intel_x64.h:87-88 | once a page is mapped, an add of a finer page anywhere in its region fails with PageConflict and changes nothing |
| EptInsert.Page1GBlocksFiner | include/vmcs/ept_intel_x64.h:102-103 | after a successful 1G add, a 2M or 4K add anywhere in the same gigabyte fails with PageConflict and changes nothing |
| EptInsert.InsertCases | include/vmcs/ept_intel_x64.h:77-103 | the four outcomes of an add, by where the walk of the address ends, cover every case |
| EptInsert.InsertTwice | include/vmcs/ept_intel_x64.h:118-119 | adding the same page twice gives the same tree and entry as adding it once |
| EptInsert.InsertFrame | include/vmcs/ept_intel_x64.h:204 | an add changes the lookup of no address whose route parts from the added one at or above the stop level |
| EptRemove.RemoveWf | include/vmcs/ept_intel_x64.h:159-165 | removal keeps the tree well formed: no empty table survives below the root |
| EptRemove.RemoveClears | include/vmcs/ept_intel_x64.h:159-173 | after removal the address looks up as NotMapped |
| EptRemove.RemoveClearsRegion | include/vmcs/ept_intel_x64.h:159-173 | after removal every address of the removed page's region, on the route of the removed address down to the page's level, looks up as NotMapped |
| EptRemove.RemoveUnmapped | include/vmcs/ept_intel_x64.h:205 | removing an address that is not mapped changes nothing |
| EptRemove.RemoveTwice | include/vmcs/ept_intel_x64.h:205 | removing twice is the same as removing once |
| EptRemove.RemoveFrame | include/vmcs/ept_intel_x64.h:159-165 | removal changes the lookup of no address whose route parts from the removed one at or above the removed page's level, including addresses under tables the cascade pruned |
| EptRemove.AddThenRemove | include/vmcs/ept_intel_x64.h:159-165 | a fresh add followed by removal of the same address restores the tree, and so the census |
| EptRemove.AddRemove4KOnEmptyRoot | include/vmcs/ept_intel_x64.h:159-173 | one 4K page added to an empty root and removed again leaves exactly an empty root |
| EptCensus.EmptyIffSizeZero | include/vmcs/ept_intel_x64.h:209-211 | `empty()` holds exactly when the global size is zero; an empty table holds no page, counts as one table and reserves only its own entries |
| EptCensus.EmptyCensus | include/vmcs/ept_intel_x64.h:209-211 | a new table holds no used entry and no page, and has 512 slots of capacity |
| EptCensus.SizeCensus | include/vmcs/ept_intel_x64.h:210 | the global size plus one is the number of pages plus the number of tables |
| EptCensus.CapacityIsTables | include/vmcs/ept_intel_x64.h:211 | the global capacity is 512 for every table of a well-formed tree |
| EptCensus.UpdateCensus | include/vmcs/ept_intel_x64.h:204-205 | replacing one entry moves the table and page counts by the difference between the old entry and the new one |
| EptCensus.InsertFreshCensus | include/vmcs/ept_intel_x64.h:204 | a fresh add maps one more page and creates one table for each level between the end of the old walk and the stop level |
| EptCensus.Add4KOnEmptyRootCensus | include/vmcs/ept_intel_x64.h:156-157 | one 4K page on an empty root creates four tables, the root included, and four used entries |
| EptIntelX64.Ept.constructor | include/vmcs/ept_intel_x64.h:55 | a new node is valid, owns only freshly allocated objects, and stands for an empty table at the given level |
| EptIntelX64.Ept.GetEntry | include/vmcs/ept_intel_x64.h:75 | the entry at an index is the one the model has in that slot |
| EptIntelX64.Ept.Empty | include/vmcs/ept_intel_x64.h:209 | true exactly when every entry of this table is unused |
| EptIntelX64.Ept.AddPageAt | include/vmcs/ept_intel_x64.h:204 | the node stays valid, the new tree and the returned entry are those of the value-level add, and only fresh objects join the footprint |
| EptIntelX64.Ept.AddHere | include/vmcs/ept_intel_x64.h:90-94 | at the stop level, an existing page comes back unchanged, or a fresh entry with only bit 7 set is written |
| EptIntelX64.Ept.AddThroughChild | include/vmcs/ept_intel_x64.h:204 | above the stop level at a table entry, the add through the child is the value-level add |
| EptIntelX64.Ept.AddThroughNewChild | include/vmcs/ept_intel_x64.h:204 | above the stop level at an unused entry, a new child is allocated and linked as a table entry, and the add through it is the value-level add |
| EptIntelX64.Ept.AddPage1G | include/vmcs/ept_intel_x64.h:102-103 | the 1G add on the PML4 is the value-level add from level 39 to level 30 |
| EptIntelX64.Ept.AddPage2M | include/vmcs/ept_intel_x64.h:130-131 | the 2M add on the PML4 is the value-level add from level 39 to level 21 |
| EptIntelX64.Ept.AddPage4K | include/vmcs/ept_intel_x64.h:156-157 | the 4K add on the PML4 is the value-level add from level 39 to level 12 |
| EptIntelX64.Ept.RemovePageAt | include/vmcs/ept_intel_x64.h:205 | the node stays valid, the new tree is the value-level removal with its pruning cascade, and the footprint only shrinks |
| EptIntelX64.Ept.RemoveThroughChild | include/vmcs/ept_intel_x64.h:159-165 | after removal through a child, the child is unlinked and dropped if it became empty, and kept otherwise |
| EptIntelX64.Ept.Link | include/vmcs/ept_intel_x64.h:218 | linking a new empty child of the next level stores it in the owned-children vector and writes a table entry at that index; the model and footprint are unchanged, and every other entry and child still agrees with the model |
| EptIntelX64.Ept.Unlink | include/vmcs/ept_intel_x64.h:218 | dropping an owned child makes its entry unused and releases the child's footprint |
| EptIntelX64.Ept.RemovePage | include/vmcs/ept_intel_x64.h:172-173 | removal on the PML4 is the value-level removal from level 39 |
| EptIntelX64.Ept.GpaToEpteAt | include/vmcs/ept_intel_x64.h:206 | the lookup over the heap is the value-level lookup; a success is always a page entry |
| EptIntelX64.Ept.GpaToEpte | include/vmcs/ept_intel_x64.h:184-185 | the lookup on the PML4 is the value-level lookup from level 39 |
| EptIntelX64.Ept.GlobalSize | include/vmcs/ept_intel_x64.h:210 | the count of used entries in the subtree is the model's size, equals pages plus tables minus one, and is zero exactly when the table is empty |
| EptIntelX64.Ept.GlobalCapacity | include/vmcs/ept_intel_x64.h:211 | the total slot count of the subtree is 512 times its number of tables |
| EptIntelX64.Ept.DescriptorsCensus | include/vmcs/ept_intel_x64.h:187-192 | there is one descriptor per table, each of the fixed table size, for pairwise distinct tables of this subtree |
| EptIntelX64.Ept.EptToMdlInto | include/vmcs/ept_intel_x64.h:207 | the list passed in comes back with this subtree's descriptors appended in pre-order |
| EptIntelX64.Ept.EptToMdl | include/vmcs/ept_intel_x64.h:199-200 | the exported list has exactly one 4096-byte descriptor per table, for pairwise distinct tables and none for pages |
| EptIntelX64.AppendDistinct | include/vmcs/ept_intel_x64.h:207 | joining two descriptor lists whose tables come from disjoint footprints keeps all tables distinct |

## Left out

- Physical memory. A descriptor names a table by the identity of its entry array, standing for the base physical address, plus the fixed size of 4096 bytes. Virtual-to-physical translation and the allocator are outside this model.
- The 64-bit entry layout. An entry is `Unused`, `Table` or `Page(attrs)`. The attribute word is kept as an opaque `bv64`, and only its page-size bit 7 is fixed by the model. Read, write and execute permissions, memory type and the address field are not modelled.
- The parent entry pointer given to the constructor (`epte`, line 55). The model has no back pointer from a child to its parent.
- The move constructor, the move assignment, the deleted copy operations and the unit-test friend, at lines 215-226. They have no behaviour over the tree.
- The `<gsl/gsl>` include at line 25. It brings bounds-checking helpers only; the model states the index bound explicitly instead.
- Locking and concurrency. The class has none; callers serialize all access.
- The returned entry handle. `ept_entry_intel_x64` is a view that aliases the table memory, so writes through it change the tree. The model returns the entry's value only.
- Exceptions. The header throws on a conflict; the model returns `Failure(TableConflict)` or `Failure(PageConflict)`. For an address with no page, `gpa_to_epte` has no documented behaviour; returning `Failure(NotMapped)` is the model's choice. A conflict can only be met below tables that already exist, so a failed add never allocates a table (`EptInsert.InsertWf`).
- The implementation file of the class is not part of this model. The behaviour follows the header's documentation, and the method bodies follow the signatures of the private recursive helpers at lines 204-211.
- Address validation. The header says the private add makes sure the address is valid while it descends (lines 82-83, 110-111, 138-139). The model reads that as the two conflict checks; it has no range check on the address. The index takes only bits 12 to 47, so an address is in effect taken modulo 2^48, and bits above 47 are ignored.
- EptTree.Insert: nothing stops the private add from being asked for a page at the PML4 itself (`end == bits == 39`), although bit 7 of a PML4 entry is reserved. The public adds never ask for one, and `Wf` does not rule such a page out.
- EptTree.Capacity: its own contract only gives a lower bound; the exact value, 512 per table of a well-formed tree, is `EptCensus.CapacityIsTables`.
- EptIntelX64.Ept.GetEntry: requires an index below 512. The header does not say what happens for a larger index.
- EptIntelX64.Ept.RemovePageAt: removing an address inside a 1G or 2M page clears the whole page. The header does not say whether such a page would be split instead.
- EptIntelX64.Ept.AddPage1G: requires the node to be the PML4 (level 39), as the header asks of all three public adds. The same holds for AddPage2M, AddPage4K, RemovePage and GpaToEpte.
- EptIntelX64.Ept.EptToMdlInto: the list passed by reference is modelled as an input sequence together with the lengthened sequence that comes back.
