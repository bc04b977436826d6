# capDL in Dafny

A model of the parts of capDL that carry the hardest correctness arguments, with proofs.

* **Memory.** The untyped generator takes reserved regions out of physical memory and cuts the rest into aligned
  power-of-two untypeds (`FreeMemory`, `RegionCut`, `UntypedGen`). The Python best-fit allocator packs pinned and
  fungible kernel objects into them (`Untypeds`, `BestFit`, `Allocation`, `Completeness`, `PinnedPlacement`,
  `FailureReasons`, `Filling`, `Thrift`, `NoWaste`, `UntypedList`, and in place `Allocator`); `FromGenerator` joins
  the two. The Isabelle printer computes every address again from the cover lists (`PhysAddrs`) and checks any cover
  list (`CoverLists`). The C loader counting-sorts untypeds and runs a greedy loop over sorted objects (`LoaderSort`,
  `Greedy`, `Optimality`, `Loader`), with the kernel's retype as a bump allocator.
* **Authority.** The access-control analysis collects the caps and frames of every thread through possibly cyclic
  CSpaces and VSpaces (`CapGraph`), finds the direct connections and flows (`Stcc`), closes them with Warshall's
  algorithm on a mutable matrix (`Closure`) and saturates the cap sets (`Saturation`); `AccessControl` describes the
  result by the CNodes that threads reach.
* **Translations.** `PageCollection` builds page-table trees that the loader walks back to addresses (`PageTables`,
  `AddressSpace`); `ELF.get_pages` splits a segment into pages with fill commands (`Elf`, `LargePages`) and collects
  those of all segments of a file (`ElfFile`); `LoadedImage` follows a segment from file to virtual memory. The caps
  section is printed with index ranges and slot runs and elaborated back (`IndexRanges`, `CapParams`, `CapsSection`,
  `CapsGrouping`, `CapsRoundTrip`); which texts it accepts is a matter of `ParamReading` and `Elaboration`.

`Wrappers`, `Arithmetic`, `Physical` and `Caps` hold what several of these share. Code that updates state is modelled
by classes and methods with loops, each proved equal to a function on values; the properties are proved of those
functions. Code made of expressions is modelled by functions. Machine-word wrap-around is modelled where addresses are
computed in words that can overflow (`PhysAddrs`). Names and numbers that play no role are unbounded.

`dafny verify dfyconfig.toml` checks the whole project.

## What the code does not do

Some promised properties do not hold of the code as written. For each there is a lemma with an input that shows it,
and one with the exact condition under which the property does hold.

* A reserved region that trims the start of an available region is dropped although it may reach into the next one
  (cdl_utils/untyped_gen.py:72-77). It is enough that an *earlier* reserved region has moved the start up to it, as
  the kernel image does for the DTB that follows it (`FreeMemory.AdjoiningReservedSpill`). For disjoint reserved
  regions the result is exact if and only if this does not happen (`FreeMemory.ExactIffNoSpill`). Where reserved
  regions overlap it may happen without harm (`FreeMemory.CoveredSpillHarmless`); the result is then exact if and only
  if other regions take what is cut off (`FreeMemory.ExactIffCovered`).
* An empty reserved region in last place can make the loop read an empty queue (`FreeMemory.EmptyReservedFails`), but
  need not (`FreeMemory.EmptyReservedPasses`). In a run of empty regions every other one is skipped unseen: over one
  available region the loop fails if and only if their number is odd (`FreeMemory.OddRunFails`), and for a run behind
  other regions if and only if it comes out so in the memory they leave over (`FreeMemory.IndexErrorIff`).
* The gap before a pinned object is filled in blocks no larger than the alignment of that object, so that a larger
  object which would fit there is not placed, and allocation can fail (`NoWaste.GapTooFine`). Nothing else is wasted:
  when untypeds run out, room for an object not placed is left only in gaps whose end is not a multiple of its size
  (`NoWaste.NothingWasted`, `Filling.UseLeavesLarge`).
* An object declared at physical address 0 counts as fungible in Python but is printed with its address; the Isabelle
  printer refuses it where it lies elsewhere (`PhysAddrs.ZeroPaddrRefused`), and accepts a layout if and only if such
  objects lie at 0 (`PhysAddrs.ViewsAgree`). In the loader such an object is sorted first whatever its size, and the
  greedy loop can then fail although a placement exists (`Loader.ZeroPaddrSpoilsOrder`). The loader is optimal on
  every supply of untypeds if and only if such objects are no smaller than those without an address
  (`Loader.LoaderOptimalIff`).
* An untyped that ends at the very top of the address space has an end that wraps to 0, and the printer refuses its
  children (`PhysAddrs.TopOfMemoryRefused`) unless it has one child as large as itself (`PhysAddrs.ViewsAgree`).
* The check of a cover list computes the end of each object in a word. An object that reaches past the top of memory
  is accepted in a smaller untyped (`CoverLists.WrappedObjectAccepted`); the objects of an accepted cover list lie
  inside the untyped if and only if they do not reach that far (`CoverLists.AcceptedInside`).
* On four-level page tables the loader takes every cap in the root for a table, and discards the answer of the kernel.
  A frame in the root is then silently not mapped, and everything else is (`AddressSpace.RootFrameSkipped`). All pages
  with a frame are mapped if and only if no frame sits in the root of four levels
  (`AddressSpace.AddressSpaceRoundTrip`). The architectures of capdl/util.py list no page size for such a root.
* A frame that stops exactly where a segment starts is refused (`Elf.AdjoiningFrameRefused`, `Elf.RegionsExact`), and
  file data beyond the last page of a segment is not loaded (`Elf.LongFileCutOff`, `Elf.FileLoadedIff`).
* A page that a second segment of the file adds again takes the size of the second. Memory is lost if that is smaller
  (`ElfFile.OutOfOrderShrinks`), and only then (`ElfFile.FileExact`); with segments in the order of their addresses,
  as the ELF standard demands, it never is (`ElfFile.FileLoaded`).
* Frames are collected from page directory caps on, so that a thread whose VSpace starts with an upper table, as on
  x86-64, has none, and flows over frames mapped there are not found (`AccessControl.UpperRootHidesFrames`). Direct
  flows are those over caps in reachable CNodes and frames under a page directory cap (`AccessControl.FlowIsMayFlow`).
* In the caps section, thread, reply and master reply caps in successive slots to one array come back all alike
  (`CapsRoundTrip.MixedRepliesChange`), address space identifiers on upper tables are lost
  (`CapsRoundTrip.UpperAsidLost`), null caps cannot be read (`CapsRoundTrip.NullCapFails`), and a cap to a single
  object named like a control cap is read as that control cap (`CapsRoundTrip.NamedLikeControl`). A section comes back
  if and only if none of this occurs in it (`CapsRoundTrip.SectionRoundTrip`).
* Parameters of a cap are read as given or refused (`ParamReading.ReadExact`), but for a guard on a cap to a CNode of
  size zero, which is lost (`ParamReading.GuardIgnored`).
* Saturation relies on the matrix being closed: without, a cap can go further than the leaks
  (`Saturation.UnclosedGoesTooFar`). It is exact for every assignment of caps to the threads if and only if no
  shortcut is missing between a thread and two that are taken up after it (`Saturation.SaturateExactIff`), which is
  less than full transitivity (`Saturation.TriangularIsLess`).

## Model

| member | source | states |
|---|---|---|
| `Arithmetic.AlignedIsMultiple` | python-capdl-tool/capdl/Object.py:672-676 | the alignment test used throughout is divisibility by the power of two |
| `Arithmetic.CountTrailingZeros` | python-capdl-tool/capdl/util.py:351-363 | the shifting loop returns the exponent of the largest power of two that divides the number |
| `Arithmetic.TrailingZerosExact` | python-capdl-tool/capdl/util.py:351-363 | a number is aligned to `2^k` if and only if `k` is at most its count of trailing zeros |
| `Untypeds.AddKeepsLaid` | python-capdl-tool/capdl/Object.py:398-416 | adding a child that is aligned at the watermark and fits keeps the layout sound: watermark equals the sum of the sizes, every child aligned and inside |
| `Untypeds.LaidDisjoint` | python-capdl-tool/capdl/Object.py:398-416 | children of a soundly laid out untyped do not overlap |
| `BestFit.PushKeepsValid` | python-capdl-tool/capdl/Allocator.py:433-472 | pushing keeps pinned objects in address order without duplicates and every size list non-empty with objects of that size |
| `BestFit.BuildCounts` | python-capdl-tool/capdl/Allocator.py:433-450 | the queue holds every sized object exactly as often as the input, and nothing else |
| `BestFit.FillConservesWork` | python-capdl-tool/capdl/Allocator.py:555-580 | with nothing small enough queued nothing changes and the size is returned; otherwise 0 is returned, the watermark moves by exactly `2^n`, and exactly min(`2^n`, bytes queued up to that size) are placed |
| `BestFit.FillKeepsLaid` | python-capdl-tool/capdl/Allocator.py:555-580 | called at an aligned watermark with room, the recursive filler keeps every child aligned, inside and back to back |
| `BestFit.HalvesFit` | python-capdl-tool/capdl/Allocator.py:567-578 | the second half is again called at an aligned watermark with exactly the other half of the room |
| `BestFit.FillLedger` | python-capdl-tool/capdl/Allocator.py:555-580 | every object is as often queued or placed after the call as before |
| `BestFit.UseUntyped` | python-capdl-tool/capdl/Allocator.py:582-600 | the watermark moves by exactly the bytes asked for and the layout stays sound |
| `BestFit.UseLedger` | python-capdl-tool/capdl/Allocator.py:582-600 | no object is lost or duplicated while bytes of an untyped are used up |
| `BestFit.UseWhole` | python-capdl-tool/capdl/Allocator.py:582-600 | using up a whole fresh untyped is one call of the filler at its full size |
| `Filling.BlockBitsLargest` | python-capdl-tool/capdl/Allocator.py:586-591 | blocks of a gap are as large as both its ends are aligned, and no larger |
| `Filling.GapBlocks` | python-capdl-tool/capdl/Allocator.py:585-600 | device memory, and any memory when nothing waits, is used in placeholders that are the largest aligned like their own address and the end of the gap |
| `Filling.UseOccupies` | python-capdl-tool/capdl/Allocator.py:582-600 | in a gap that ends at a multiple of a size no aligned block of that size is left without an object while one of that size is still waiting |
| `Filling.UseLeavesLarge` | python-capdl-tool/capdl/Allocator.py:586-591 | an object larger than the end of the gap is aligned is never placed in it |
| `Allocation.PinnedStepProgress` | python-capdl-tool/capdl/Allocator.py:623-651 | each round of the pinned loop decreases (untypeds left, pinned objects left, bytes left), so the loop ends |
| `Allocation.RunSound` | python-capdl-tool/capdl/Allocator.py:610-669 | a whole run, failing or not, keeps all untypeds sound, keeps their identity and order, and neither loses nor duplicates objects |
| `Allocation.AllocateLayout` | python-capdl-tool/capdl/Allocator.py:610-669 | after any run every child is back to back from the base, aligned, inside, pinned ones at their address, and nothing fungible is in device memory |
| `Allocation.AllocateDisjoint` | python-capdl-tool/capdl/Allocator.py:610-669 | any two children, in one untyped or in two, do not overlap |
| `Allocation.AllocateConserves` | python-capdl-tool/capdl/Allocator.py:610-669 | on success every object of the spec that has a size has become a child exactly as often as it was listed |
| `Completeness.TopUpAbsorbs` | python-capdl-tool/capdl/Allocator.py:653-659 | an untouched untyped absorbs exactly min(its bytes, bytes queued) |
| `Completeness.AllocateComplete` | python-capdl-tool/capdl/Allocator.py:653-669 | with untypeds, nothing pinned, no device memory and no object above the smallest untyped, allocation succeeds if and only if the bytes suffice |
| `PinnedPlacement.PinnedPhaseExact` | python-capdl-tool/capdl/Allocator.py:623-651 | from any state, the pinned loop ends without an exception if and only if every waiting pinned object is aligned and inside the free part of one untyped, and none overlaps the next |
| `PinnedPlacement.PinnedExact` | python-capdl-tool/capdl/Allocator.py:436-651 | over unused ordered untypeds the queue is built and the pinned loop ends without an exception if and only if every pinned object of the list is aligned and inside one untyped and no two overlap, whatever else is in the list |
| `PinnedPlacement.AllocatePinned` | python-capdl-tool/capdl/Allocator.py:610-669 | success needs the pinned objects to fit; if they do the only failure left is running out of untypeds, and there is none without fungible objects |
| `FailureReasons.FailureReason` | python-capdl-tool/capdl/Allocator.py:610-669 | duplicate addresses are reported if and only if there are any; an object reported as misaligned is, one reported without untyped lies in none or overlaps another, and if untypeds run out although the pinned objects do not fit there is such an object |
| `FailureReasons.NoUntypeds` | python-capdl-tool/capdl/Allocator.py:602-620 | without any untyped every list of objects fails, for duplicate addresses if there are any |
| `Thrift.PlacedInOrder` | python-capdl-tool/capdl/Allocator.py:436-466 | the fungible objects of one size are placed without a gap in the reverse order of the list, which is the order of their names, all of them on success |
| `Thrift.LaterPlacedFirst` | python-capdl-tool/capdl/Allocator.py:442-466 | of two fungible objects of one size, if the earlier in the list has become a child then so has the later, in an earlier untyped or before it in the same |
| `NoWaste.NothingWasted` | python-capdl-tool/capdl/Allocator.py:610-669 | when the pinned objects fit and untypeds run out, all normal untypeds are used up, and every block in them of the size of an object not placed holds an object, or lies in a gap whose end is not a multiple of that size |
| `NoWaste.PlaceholdersSmall` | python-capdl-tool/capdl/Allocator.py:555-600 | after any run placeholders in normal memory are smaller than every fungible object that has not been placed |
| `NoWaste.GapTooFine` | python-capdl-tool/capdl/Allocator.py:586-591 | a concrete object that would fit in the gap before a pinned one is not placed there, and allocation fails |
| `UntypedList.OverlapExact` | python-capdl-tool/capdl/Allocator.py:513-519 | on aligned power-of-two blocks comparing starts and ends decides disjointness, both ways |
| `UntypedList.NeighboursSuffice` | python-capdl-tool/capdl/Allocator.py:528-546 | looking at two neighbours accepts a block if and only if it is aligned and disjoint from every block in the list |
| `UntypedList.AddAllSorted` | python-capdl-tool/capdl/Allocator.py:528-546 | after any sequence of calls the accepted blocks are sorted, aligned and pairwise disjoint |
| `UntypedList.AcceptedIffApart` | python-capdl-tool/capdl/Allocator.py:528-546 | over any sequence of calls the next block is accepted if and only if it is aligned and avoids all accepted so far |
| `Allocator.Untyped.AddChild` | python-capdl-tool/capdl/Object.py:398-408 | the object in memory changes as the value does, and the remaining bytes are returned |
| `Allocator.AllocQueue.PushFun` | python-capdl-tool/capdl/Allocator.py:452-458 | dictionary and sorted size list stay in step and hold the new queue value |
| `Allocator.AllocQueue.PopFun` | python-capdl-tool/capdl/Allocator.py:460-466 | the last object pushed of a size is taken (so that objects of a size are placed in the order of names, `Thrift.PlacedInOrder`), and an emptied size disappears from dictionary and size list |
| `Allocator.AllocQueue.PushUnfun` | python-capdl-tool/capdl/Allocator.py:468-472 | a pinned object is inserted in address order; a duplicate address is refused without change |
| `Allocator.AllocQueue.PopUnfun` | python-capdl-tool/capdl/Allocator.py:474-478 | the pinned object with the lowest address is taken |
| `Allocator.AllocQueue.Load` | python-capdl-tool/capdl/Allocator.py:433-450 | the loop over all objects builds exactly the specified queue or reports a duplicate address |
| `Allocator.FillFromObjects` | python-capdl-tool/capdl/Allocator.py:555-580 | the recursive filler on mutable objects refines the filler on values |
| `Allocator.UseUntypedBytes` | python-capdl-tool/capdl/Allocator.py:582-600 | the loop on mutable objects refines its value form |
| `Allocator.BestFitAllocator.AddUntyped` | python-capdl-tool/capdl/Allocator.py:528-546 | the list changes as specified on acceptance and not at all otherwise, with the verdict of the specification |
| `Allocator.BestFitAllocator.NextUt` | python-capdl-tool/capdl/Allocator.py:602-608 | untypeds are handed out in order, each once |
| `Allocator.BestFitAllocator.PinnedLoop` | python-capdl-tool/capdl/Allocator.py:623-651 | the first loop refines the pinned phase on values, exceptions included |
| `Allocator.BestFitAllocator.FungibleLoop` | python-capdl-tool/capdl/Allocator.py:664-669 | the second loop refines the fungible phase on values, exceptions included |
| `Allocator.BestFitAllocator.Allocate` | python-capdl-tool/capdl/Allocator.py:610-669 | the untypeds in memory end up exactly as the value algorithm computes, with the same exception if any |
| `PhysAddrs.ViewsAgree` | capDL-tool/CapDL/PrintIsabelle.hs:121-153 | for a sound cover list the printer succeeds if and only if objects declared at 0 lie at 0 and the end is representable, and then assigns each child the allocator's address |
| `CoverLists.CoverExact` | capDL-tool/CapDL/PrintIsabelle.hs:124-153 | for any cover list, in words that may wrap: accepted if and only if each object is known, declared nowhere or where the ones before it end, aligned there and inside; with just those addresses; otherwise the complaint is about the first object that is not |
| `CoverLists.PlainCoverExact` | capDL-tool/CapDL/PrintIsabelle.hs:124-153 | the same in plain numbers when nothing reaches the top of memory |
| `CoverLists.AcceptedInside` | capDL-tool/CapDL/PrintIsabelle.hs:148-151 | the objects of an accepted cover list lie inside the untyped if and only if they do not go past the top of memory |
| `CoverLists.WrappedObjectAccepted` | capDL-tool/CapDL/PrintIsabelle.hs:148-151 | a concrete object twice as large as its untyped is accepted, for its end wraps to 0 |
| `PhysAddrs.ZeroPaddrRefused` | capDL-tool/CapDL/PrintIsabelle.hs:121-142 | a concrete object declared at 0 that lies at 4 is refused |
| `PhysAddrs.TopOfMemoryRefused` | capDL-tool/CapDL/PrintIsabelle.hs:133-151 | in words of any width of at least two bits, two objects that fill the upper half of memory have their cover list refused |
| `PhysAddrs.SmallFirstRefused` | capDL-tool/CapDL/PrintIsabelle.hs:133-151 | any sound layout that ends at the top of memory and has a first child smaller than the untyped is refused as outside it, unless the child is declared elsewhere |
| `PhysAddrs.WordIsModulo` | capDL-tool/CapDL/PrintIsabelle.hs:132-151 | word arithmetic is arithmetic modulo a power of two |
| `PhysAddrs.AllAddressesAgree` | capDL-tool/CapDL/PrintIsabelle.hs:166-174 | the same over all untypeds of a spec, with the union of the maps |
| `PhysAddrs.AllocateAddressesAgree` | capDL-tool/CapDL/PrintIsabelle.hs:121-174 | for every successful allocation run with distinct names the printer gives each untyped and child the address at which the allocator placed it, or refuses exactly in the two cases named |
| `PhysAddrs.PlacedOnce` | python-capdl-tool/capdl/Allocator.py:610-669 | with distinct names each placed object is a child of one untyped, once |
| `LoaderSort.DescendingSorted` | capdl-loader-app/src/main.c:373-420 | the order computed is descending by size and stable within a size |
| `LoaderSort.SortedUntypedsExact` | capdl-loader-app/src/main.c:373-420 | it lists exactly the indices of the normal untypeds, each once |
| `LoaderSort.CountSizes` | capdl-loader-app/src/main.c:382-387 | the counters hold the number of normal untypeds of each size |
| `LoaderSort.StartIndices` | capdl-loader-app/src/main.c:389-395 | each counter becomes the first index of its size in the descending order |
| `LoaderSort.SortUntypeds` | capdl-loader-app/src/main.c:373-420 | the array receives exactly the stable descending order, and the number of normal untypeds is returned |
| `Greedy.OverfullRefutes` | capdl-loader-app/src/main.c:797-829 | objects too large for the later untypeds and with more bytes than the earlier ones have cannot be packed in any way |
| `Greedy.FailureCertified` | capdl-loader-app/src/main.c:797-829 | whenever the loop runs out of untypeds such a certificate exists |
| `Greedy.SuccessIsPlacement` | capdl-loader-app/src/main.c:797-824 | a successful loop yields an aligned, disjoint placement inside the untypeds |
| `Greedy.GreedyOptimal` | capdl-loader-app/src/main.c:778-829 | on sorted input the loop succeeds if and only if any placement exists, and fails only if not even an unaligned packing exists |
| `Optimality.OrderMatters` | capdl-loader-app/src/main.c:771-777 | a concrete list out of order on which the loop fails although each object could have an untyped of its own |
| `Optimality.NeverBack` | capdl-loader-app/src/main.c:792-824 | objects are placed in untypeds of non-decreasing index |
| `Optimality.OutOfOrder` | capdl-loader-app/src/main.c:771-829 | for every list of objects out of order there is a supply that could give each object an untyped of its own and on which the loop still fails |
| `Optimality.OptimalIffDescending` | capdl-loader-app/src/main.c:771-829 | the loop finds a placement whenever one exists, on every sorted supply, if and only if the objects come in descending size |
| `Loader.SortObjectsSorts` | capDL-tool/CapDL/PrintUtils.hs:410-414 | sorting yields a permutation ordered by address, descending size and name |
| `Loader.SortedViewsDescend` | capDL-tool/CapDL/PrintUtils.hs:391-414 | after sorting, the objects that need normal memory come in descending size if and only if those at address 0 are no smaller than those without an address |
| `Loader.LoaderOptimal` | capdl-loader-app/src/main.c:778-829 | under that condition both sorts and the loop together create all objects if and only if memory can hold them |
| `Loader.LoaderOptimalIff` | capDL-tool/CapDL/PrintUtils.hs:391-414 | the condition is exact: the sorted objects are created optimally on every supply if and only if it holds |
| `Loader.ZeroPaddrSpoilsOrder` | capDL-tool/CapDL/PrintUtils.hs:410-414 | with an object at address 0 the loop can fail although a placement exists |
| `Loader.Kernel.Retype` | capdl-loader-app/src/main.c:527-535 | the free index is aligned up, the object placed if it fits, and nothing changed otherwise |
| `Loader.CreateLoop` | capdl-loader-app/src/main.c:797-824 | the loop gets through if and only if the greedy specification does, and hands out slots in turn |
| `Loader.MakeAsidPools` | capdl-loader-app/src/main.c:838-851 | the pool of each ASID slot gets the new slot in turn, every other object keeps its slot, and all slots stay distinct and below the new limit |
| `Loader.CreateObjects` | capdl-loader-app/src/main.c:778-855 | on success every object that requires creation has a slot of its own below the new start of the free slots |
| `Closure.ViaIsReachability` | capDL-tool/CapDL/STCC.hs:203-212 | the recurrence over inner nodes is reachability by a path of length at least one |
| `Closure.Warshall` | capDL-tool/CapDL/STCC.hs:203-212 | the in-place triple loop turns the matrix into exactly the reachability relation |
| `Closure.Connect` | capDL-tool/CapDL/Matrix.hs:100-102 | exactly one edge is added |
| `Closure.Disconnect` | capDL-tool/CapDL/Matrix.hs:104-106 | exactly one edge is removed |
| `Closure.NewEmptyMatrix` | capDL-tool/CapDL/Matrix.hs:108-110 | the new matrix has no edge |
| `Closure.AuthSharingFlows` | capDL-tool/CapDL/STCC.hs:214-220 | the symmetric closure of one matrix is added to the other |
| `Closure.RemoveReflexive` | capDL-tool/CapDL/STCC.hs:222-226 | exactly the self-edges are removed |
| `CapGraph.CollectsExactly` | capDL-tool/CapDL/STCC.hs:252-320 | on cyclic graphs too, the other caps collected from a CSpace are exactly those in CNodes reachable from the thread, and the frames collected from a VSpace exactly those in reachable page directories and page tables |
| `CapGraph.ReportsExactly` | capDL-tool/CapDL/STCC.hs:252-320 | the CNodes, page directories and page tables reported are exactly the reachable ones, although visited ones are tracked per path |
| `Stcc.ConnectionsExact` | capDL-tool/CapDL/STCC.hs:132-152 | a pair of threads is listed if and only if they differ and the first can leak caps to the second |
| `Stcc.FlowsExact` | capDL-tool/CapDL/STCC.hs:154-181 | a pair is listed if and only if they differ and information can flow from the first to the second |
| `Saturation.SaturateExact` | capDL-tool/CapDL/STCC.hs:115-130 | if no shortcut is missing, the triangular recursion gives each thread its own caps and the original caps of precisely those leaking to it |
| `Saturation.SaturateExactIff` | capDL-tool/CapDL/STCC.hs:115-130 | the recursion is exact for every assignment of caps to the threads if and only if no shortcut is missing |
| `Saturation.UnclosedGoesTooFar` | capDL-tool/CapDL/STCC.hs:115-130 | on a concrete unclosed matrix a thread gets a cap that no thread leaking to it holds |
| `Saturation.TriangularIsLess` | capDL-tool/CapDL/STCC.hs:115-130 | on a concrete matrix that is not transitive the recursion is exact |
| `Saturation.SaturatedByClosure` | capDL-tool/CapDL/STCC.hs:66-84 | on the closed matrix every thread gets exactly the caps of threads with a direct-connection path to it |
| `Saturation.LeaksTos` | capDL-tool/CapDL/STCC.hs:228-240 | exactly the listed pairs are entered into the matrix |
| `Saturation.LeakMatrix` | capDL-tool/CapDL/STCC.hs:70-79 | for given caps and frames of all threads, authority matrix, saturated caps and flow matrix are exactly reachability, path-wise caps, and reachability over flows and symmetrised authority between different threads |
| `AccessControl.LeakIsMayLeak` | capDL-tool/CapDL/STCC.hs:132-152 | the direct leaks found from collected caps are those the CNodes in reach of the threads allow |
| `AccessControl.FlowIsMayFlow` | capDL-tool/CapDL/STCC.hs:154-181 | the direct flows found are those between a cap that can be written and one that can be read, each held in a reachable CNode or mapped under a page directory cap; over endpoints both ways |
| `AccessControl.AnalyseModel` | capDL-tool/CapDL/STCC.hs:66-95 | from the objects themselves: authority is reachability over the leaks that reachable CNodes allow, each thread ends up with exactly the caps held in CNodes in reach of it or of a thread with a path of leaks to it, and information flows along the paths of direct flows and shared authority |
| `AccessControl.UpperRootHidesFrames` | capDL-tool/CapDL/STCC.hs:284-306 | a thread without a page directory cap has no frames collected |
| `FreeMemory.FreeMemBetween` | cdl_utils/untyped_gen.py:45-91 | the result is sorted and disjoint, made of available addresses only, and keeps every unreserved one, whatever the reserved regions are |
| `FreeMemory.SubtractionExact` | cdl_utils/untyped_gen.py:45-91 | without a spill the result holds exactly the available unreserved addresses, also when reserved regions overlap |
| `FreeMemory.ExactIffNoSpill` | cdl_utils/untyped_gen.py:45-91 | for disjoint reserved regions the result is exact if and only if nothing spills |
| `FreeMemory.SpillLeaks` | cdl_utils/untyped_gen.py:72-77 | every spill leaves a reserved address in the result |
| `FreeMemory.KeptExact` | cdl_utils/untyped_gen.py:45-91 | for reserved regions in order of start, overlapping or not, an available address is kept if and only if no region takes it before it is cut off at the end of the available region of whose start it is dropped |
| `FreeMemory.ExactIffCovered` | cdl_utils/untyped_gen.py:45-91 | the result is then exact if and only if every available reserved address is taken by one of the regions before it is cut off |
| `FreeMemory.CoveredSpillHarmless` | cdl_utils/untyped_gen.py:72-77 | a concrete spill behind which a later reserved region takes the rest, with an exact result |
| `FreeMemory.FreeMemWhole` | cdl_utils/untyped_gen.py:45-91 | available addresses of one region with nothing reserved between them end up in one free region: no region is cut up needlessly |
| `FreeMemory.CoveringStartSpills` | cdl_utils/untyped_gen.py:72-77 | a concrete reserved region that is forgotten too early |
| `FreeMemory.AdjoiningReservedSpill` | cdl_utils/untyped_gen.py:72-77 | the same with two adjoining regions, neither of which covers a start and reaches on |
| `FreeMemory.EmptyReservedFails` | cdl_utils/untyped_gen.py:57-63 | a concrete empty region in last place makes the loop fail |
| `FreeMemory.EmptyReservedPasses` | cdl_utils/untyped_gen.py:57-63 | another empty region in last place does no harm |
| `FreeMemory.NoIndexError` | cdl_utils/untyped_gen.py:57-63 | if the last reserved region is not empty the loop never reads an empty queue |
| `FreeMemory.IndexErrorIff` | cdl_utils/untyped_gen.py:56-87 | for disjoint reserved regions that are empty from some place on, the loop reads an empty queue if and only if the run of empty ones leads to it from the first available region left over by the region before them, or from behind the one it trims away |
| `FreeMemory.RunReadsExact` | cdl_utils/untyped_gen.py:57-63 | in a run of empty regions each available region takes an odd number, and the loop reads an empty queue if and only if just so many are left |
| `FreeMemory.OddRunFails` | cdl_utils/untyped_gen.py:57-63 | over one available region it does if and only if the number of empty regions is odd |
| `FreeMemory.TrimsWithoutSpill` | cdl_utils/untyped_gen.py:72-77 | without a spill, which available region uses up a reserved one follows from starts and ends alone |
| `FreeMemory.ReachedNotTrimmed` | cdl_utils/untyped_gen.py:72-77 | with a spill it does not: a concrete region that is reached and not used up |
| `FreeMemory.InitFreemem` | cdl_utils/untyped_gen.py:45-91 | the loop on the two queues ends and computes the specified result or failure |
| `RegionCut.StepsShaped` | cdl_utils/untyped_gen.py:32-41 | block sizes rise strictly, stay at the maximum, then fall strictly |
| `RegionCut.CutExact` | cdl_utils/untyped_gen.py:28-42 | the untypeds are one gapless run of aligned blocks inside the region, with fewer than `2^(min+1)` bytes lost at each end, sizes rising then falling, and at most `2 max + len / 2^max` of them |
| `RegionCut.NothingAboveMinimum` | cdl_utils/untyped_gen.py:39-40 | if the maximum is not above the minimum nothing is emitted |
| `RegionCut.CutLargest` | cdl_utils/untyped_gen.py:32-40 | every untyped is above the minimum, and no larger block, aligned, inside the region and within the maximum, begins where it does |
| `RegionCut.CreateUntypedsForRegion` | cdl_utils/untyped_gen.py:28-42 | the loop computes the specified untypeds, and fails if and only if the start is past the end |
| `UntypedGen.UntypedsAreFree` | cdl_utils/untyped_gen.py:148-154 | without a spill all untypeds generated are aligned, pairwise disjoint and consist of available unreserved bytes |
| `UntypedGen.GenerateCovers` | cdl_utils/untyped_gen.py:152-154 | of every free region all bytes are in untypeds but for fewer than `2^(min+1)` at either end |
| `UntypedGen.GenerateLargest` | cdl_utils/untyped_gen.py:152-154 | every untyped is above the minimum and as large as can be in its free region |
| `UntypedGen.FreeMemoryUntyped` | cdl_utils/untyped_gen.py:148-154 | every available address becomes part of an untyped unless something reserved or the end of its region is less than `2^(min+1)` away |
| `UntypedGen.GenerateUntypeds` | cdl_utils/untyped_gen.py:148-154 | both steps one after the other compute the specified list |
| `FromGenerator.ObjectsOnFreeMemory` | python-capdl-tool/capdl/Allocator.py:528-669 | what the generator makes is accepted one after the other, and every byte of every child placed in it is available and not reserved |
| `PageTables.SlotAddress` | python-capdl-tool/capdl/util.py:53-77 | base plus index times child coverage is the address rounded down to the child coverage |
| `PageTables.NoConflict` | python-capdl-tool/capdl/PageCollection.py:104-136 | no slot is claimed both by a page and by anything else |
| `PageTables.InsertHolds` | python-capdl-tool/capdl/PageCollection.py:109-136 | inserting a page that overlaps none adds exactly its tables and entries |
| `PageTables.BuildHolds` | python-capdl-tool/capdl/PageCollection.py:104-136 | the tree exists and holds exactly the tables and entries the pages call for |
| `AddressSpace.WalkExact` | capdl-loader-app/src/main.c:1526-1581 | walking a table yields, in ascending order, exactly the pages with a frame below it |
| `AddressSpace.AddressSpaceRoundTrip` | capdl-loader-app/src/main.c:1526-1684 | built, and loaded if and only if there are two to four levels; exactly the pages with a frame are mapped, each once at its address, but for frames in the root of four levels; all of them are if and only if there is no such frame |
| `AddressSpace.RootFrameSkipped` | capdl-loader-app/src/main.c:1579-1597 | on the four levels of x86-64 a page as large as a slot of the root is built, loaded without an error and not mapped, while the page behind it is |
| `AddressSpace.GetSpec` | python-capdl-tool/capdl/PageCollection.py:104-136 | the loop over the pages builds the specified tree |
| `AddressSpace.InsertPage` | python-capdl-tool/capdl/PageCollection.py:109-136 | the loop down the levels enters one page as specified |
| `AddressSpace.InitLevel` | capdl-loader-app/src/main.c:1526-1576 | the loop over slots makes exactly the mappings of the specified walk |
| `AddressSpace.InitLevelZero` | capdl-loader-app/src/main.c:1579-1597 | the loop over the slots of the outermost of four levels makes exactly the mappings of the specified walk |
| `AddressSpace.BuildAndLoad` | capdl-loader-app/src/main.c:1662-1684 | run one after the other they stop on an unknown number of levels only, and map exactly the pages with a frame that are reached |
| `Elf.RegionsExact` | python-capdl-tool/capdl/ELF.py:108-122 | the frames taken are exactly those inside the segment; the assertion holds if and only if no frame straddles an end or stops at the start |
| `Elf.SearchFinds` | python-capdl-tool/capdl/ELF.py:180-193 | in a tiling the binary search finds the one region that holds an address |
| `Elf.SplitExact` | python-capdl-tool/capdl/ELF.py:173-210 | splitting succeeds, the regions tile the segment in order, and every frame has its own region |
| `Elf.PickLargest` | python-capdl-tool/capdl/ELF.py:224-233 | the largest page size that fits in what remains and to which the address is aligned is chosen, the smallest page if there is none |
| `LargePages.LargePagesUsed` | python-capdl-tool/capdl/ELF.py:164-237 | every page of a segment is that of an existing frame, or the largest to which its address is aligned and that ends by the next frame or the end of the segment |
| `Elf.PromoteTiles` | python-capdl-tool/capdl/ELF.py:223-237 | promoted pages tile the range rounded to whole pages |
| `Elf.FillExact` | python-capdl-tool/capdl/ELF.py:124-137 | a fill writes exactly the addresses of its page that hold file data, from the right file offset |
| `Elf.FillFailsIff` | python-capdl-tool/capdl/ELF.py:124-132 | the assertion on a page fails if and only if the page ends before the segment, and nothing is filled if and only if it lies behind the data |
| `Elf.SegmentLoaded` | python-capdl-tool/capdl/ELF.py:164-237 | pages exist if and only if all frames are placed well; they tile the segment, are size-aligned, contain every frame, write no address twice, and memory is exactly the segment's image (System V ABI, chapter 5, "Program Header") |
| `Elf.FileLoadedIff` | python-capdl-tool/capdl/ELF.py:164-237 | all file bytes are loaded if and only if they do not go past the last page |
| `Elf.LongFileCutOff` | python-capdl-tool/capdl/ELF.py:124-137 | a concrete segment whose file data is longer than its pages: a byte of it is not in memory |
| `Elf.AdjoiningFrameRefused` | python-capdl-tool/capdl/ELF.py:113-120 | a frame that stops exactly at the start of a segment is refused |
| `Elf.BinarySearch` | python-capdl-tool/capdl/ELF.py:180-193 | the loop computes the specified search |
| `Elf.SplitSegment` | python-capdl-tool/capdl/ELF.py:178-210 | the loop over frames computes the specified regions |
| `Elf.PromoteRange` | python-capdl-tool/capdl/ELF.py:223-237 | the loop computes the specified pages |
| `Elf.LoadSegment` | python-capdl-tool/capdl/ELF.py:164-237 | the whole body for one segment computes the specified pages or failure |
| `Elf.FillFrame` | capdl-loader-app/src/main.c:1957-1963 | exactly the bytes named by the fill are copied into the frame, all others stay |
| `ElfFile.PageCollection.AddPage` | python-capdl-tool/capdl/PageCollection.py:40-55 | a page is entered or its size overwritten, and its fills are appended to those already there |
| `ElfFile.LoadFile` | python-capdl-tool/capdl/ELF.py:164-239 | the loop over the segments fills a new collection with the pages of all of them, or fails if one fails |
| `ElfFile.NeverOverlaps` | python-capdl-tool/capdl/PageCollection.py:40-55 | pages collected from segments that do not overlap never overlap, in whatever order the segments come and however they share pages |
| `ElfFile.FileExact` | python-capdl-tool/capdl/ELF.py:164-239 | pages of a file exist if and only if all frames are placed well in all segments; memory is the image of all segments together if and only if no page is made smaller by being added again |
| `ElfFile.FileLoaded` | python-capdl-tool/capdl/ELF.py:164-239 | with segments in ascending order, as the System V ABI demands of loadable ones, memory is the image of all segments together, shared pages included |
| `ElfFile.OutOfOrderShrinks` | python-capdl-tool/capdl/PageCollection.py:54 | a concrete file with two segments in the other order, of which memory does not hold the image |
| `LoadedImage.LoadFrame` | capdl-loader-app/src/main.c:1957-1963 | a zeroed frame with its fill copied in holds the specified contents |
| `LoadedImage.ImageLoaded` | capdl-loader-app/src/main.c:1526-1597 | the byte found at any address through the mappings that the loader makes for the pages of a segment is that of the segment's image |
| `IndexRanges.RangesRoundTrip` | capDL-tool/CapDL/PrintUtils.hs:222-261 | every list of indices, compressed into ascending and descending ranges and expanded again, is the same list |
| `IndexRanges.RunMaximal` | capDL-tool/CapDL/PrintUtils.hs:222-236 | a run up, and a run down, ends only where it cannot be continued in its direction |
| `IndexRanges.CompressExact` | capDL-tool/CapDL/PrintUtils.hs:238-256 | the ranges printed are exactly the longest runs one after the other: all numbers that go up by one, or, if that is one only, all that go down |
| `IndexRanges.CompressShortest` | capDL-tool/CapDL/PrintUtils.hs:238-256 | no shorter list of ranges stands for the same indices |
| `CapParams.ParamsRoundTrip` | capDL-tool/CapDL/MakeModel.hs:631-669 | a cap rebuilt from its printed parameters is the cap, except for the identifier of an upper table |
| `CapParams.OnlyRepliesMix` | capDL-tool/CapDL/PrintUtils.hs:333-345 | caps to one kind of object that pass for the same differ if and only if they are different ones of thread, reply and master reply cap |
| `ParamReading.ParamsShortest` | capDL-tool/CapDL/PrintUtils.hs:302-318 | no shorter list of parameters than the printed one is read as the cap: no default is printed |
| `ParamReading.ReadExact` | capDL-tool/CapDL/MakeModel.hs:610-669 | a parameter list is accepted if and only if some cap to that kind of object is as all parameters say and none is given twice (rights may be); the cap read is such a cap |
| `ParamReading.GuardIgnored` | capDL-tool/CapDL/MakeModel.hs:646 | a guard given for a cap to a CNode of size zero is accepted and lost |
| `CapsSection.GroupRoundTrip` | capDL-tool/CapDL/MakeModel.hs:707-727 | one printed line elaborates to the whole group, with the first cap's parameters |
| `CapsSection.SlotsRoundTrip` | capDL-tool/CapDL/PrintModel.hs:96-107 | elaborating the printed slots of a container without null caps and name clashes inserts exactly what its groups come back as |
| `CapsSection.ContainerRoundTrip` | capDL-tool/CapDL/MakeModel.hs:707-744 | a container is printed and elaborated to its own slot map if and only if all its caps are read as what they were printed for, grouped caps differ in their objects only, and no upper table has an identifier |
| `CapsSection.BackExact` | capDL-tool/CapDL/PrintUtils.hs:366-371 | a container comes back unchanged if and only if grouped caps differ in their objects only and no upper table has an identifier |
| `CapsSection.FaithfulExact` | capDL-tool/CapDL/PrintUtils.hs:302-371 | this is so if and only if no upper table has an identifier and no successive slots hold different ones of thread, reply and master reply cap to one array |
| `CapsSection.GroupMaximal` | capDL-tool/CapDL/PrintUtils.hs:366-371 | a group of slots ends only where the next slot does not belong to it |
| `CapsSection.TogetherExact` | capDL-tool/CapDL/PrintUtils.hs:333-371 | caps are printed together if and only if they are in successive slots, to members of one array, and the same but for the object, or of the kinds that printing does not tell apart |
| `CapsRoundTrip.HeaderRoundTrip` | capDL-tool/CapDL/PrintModel.hs:121-130 | the printed header names exactly the containers of the group, in order |
| `CapsGrouping.PrintedTogether` | capDL-tool/CapDL/PrintModel.hs:112-133 | every container with something in its slots is named, with its contents, and nothing else is; two containers are named by one declaration if and only if they have the same name and contents |
| `Elaboration.InsertExact` | capDL-tool/CapDL/MakeModel.hs:557-567 | slots are filled if and only if none is filled already or given twice; all others stay |
| `Elaboration.ElaborateExact` | capDL-tool/CapDL/MakeModel.hs:730-773 | for any declarations, printed or not: they are elaborated if and only if all objects named exist, with slots where needed, and per object all lines can be read and fill no slot twice; each object then has its old slots and those of its lines |
| `CapsRoundTrip.SectionRoundTrip` | capDL-tool/CapDL/PrintModel.hs:112-133 | a well-formed section prints; it elaborates and gives back every container's slot map if and only if no container has a null cap, a cap to a single object named like a control cap, an identifier on an upper table, or different ones of thread, reply and master reply cap to one array in successive slots |
| `CapsRoundTrip.MixedRepliesChange` | capDL-tool/CapDL/PrintUtils.hs:333-345 | a thread cap and a reply cap in successive slots, printed and elaborated, are two thread caps |
| `CapsRoundTrip.UpperAsidLost` | capDL-tool/CapDL/PrintUtils.hs:302-318 | printing and elaborating an upper table with an identifier loses it |
| `CapsRoundTrip.NullCapFails` | capDL-tool/CapDL/PrintUtils.hs:320-328 | a container with a null cap prints and cannot be elaborated if no object is called "null" |
| `CapsRoundTrip.NamedLikeControl` | capDL-tool/CapDL/MakeModel.hs:707-718 | a cap to a thread called "domain", printed and elaborated, is the domain cap |

## Left out

- Kernel behaviour other than retype: system calls, boot info, caches, threads and interrupts.
- Static allocation in the loader, and `find_device_object`: both rest on kernel behaviour that is not part of this model.
- Which untypeds and placeholders end up among the objects of the spec after `allocate`; claims are about children.
- The order in which Python iterates over the objects of a spec: the allocator takes its objects as a list, already sorted by name.
- The untyped iterator after untypeds have been added between two calls of `allocate`.
- `ASIDTableAllocator`, `CSpaceAllocator` and `AddressSpaceAllocator`: easy, or with pre-assigned numbers that are refused.
- The updated model that the access-control analysis emits (`updateModel`).
- FreeMemory.IndexErrorIff: states when the loop fails for reserved regions of which the empty ones come last; an empty region in front of others may cut an available one in two, and is not allowed for.
- Page permissions, deferred mappings, fills and frame creation in `PageCollection.get_spec`, and the union of permissions in `add_page`: easy.
- The two-pass form of the page-table walk on 32-bit platforms, which maps the same pages in another order.
- Word overflow in the page-table walk: every address is below the coverage of the root.
- Symbols, and reading ELF files.
- ElfFile.FileExact: for segments with no more bytes in the file than in memory, as the System V ABI demands; of one segment with more, `Elf.FileLoadedIff` says what is loaded.
- Elf.SegmentLoaded: existing frames are given as one list in ascending order, as they are after the symbols have been sorted and their sizes laid out one after the other.
- Ranges of the forms that are never printed (open-ended ranges and `all`), copied caps, unnumbered slots and named caps in the caps section.
- The object declarations of a spec, untyped covers in text form, the CDT and interrupt sections.
- Parsing and printing of characters, and the Dot, XML, C and Isabelle text output.
