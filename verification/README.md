# A model of NTVDMEX's DOS layer

NTVDMEX replaces the NT Virtual DOS Machine. Its DOS layer keeps its logic in C code that works on
byte buffers and asks the host for little, and this project models seven parts of it:

- **The memory control block allocator** (`Machine`, `McbChain`, `McbHeader`, `Mcb`,
  `McbStart`, `McbTheorems`, `McbRuns`, `McbBytes`).
  Conventional memory is a chain of 16-byte headers kept inside the memory they describe. `McbChain`
  says what each call does to a chain of blocks; `Mcb.ConventionalMemory` is the code over the bytes,
  proved to leave exactly that chain in memory; the theorems are about chains, runs of calls, and
  the bytes a run can reach.
- **8.3 aliases** (`AliasName`, `AliasLetters`, `AliasText`, `AliasAssign`, `AliasTable`): handing out
  `STEM~N.EXT` names that keep the name's letters and collide with nothing, and finding the way back.
- **Expanded memory** (`EmsModel`, `EmsTheorems`, `EmsRestore`, `EmsRuns`, `EmsSaves`, `EmsFlat`, `EmsState`).
  Four windows are a write-back cache over each handle's pages (LIM EMS 4.0, functions 4, 5, 6, 8, 9
  and 18), and over every fit run it refines expanded memory without a cache.
- **Handle tables** (`HandleTables`, `HandleTheorems`, `HandleExec`, `HandleJft`, `HandleMachine`). One table and a
  stack of saved ones stand for a table per process; Win32's open handles are the ghost set `HostOpen`.
- **FAT12/FAT16 images** (`FatLayout`, `FatTable`, `FatFile`, `FatPath`, `FatDirectory`, `FatPacked`), after
  Microsoft's FAT32 File System Specification 1.03, section "FAT Type Determination" and the entry
  computation that follows it.
- **Calendar and clock** (`Calendar`, `Clock`, `Lfn`): two day counts, their inverses, BIOS ticks and
  FILETIMEs.
- **Program images and environments** (`Loader`, `LoaderPacked`, `Environment`, `EnvironmentTail`,
  `EnvironmentText`).

Each part has a specification as functions on values. Code that works in place is a method or a class
over arrays and fields, proved to do what its function says; what the repository promises is then
proved about the functions, over all inputs or all runs. What a function decides on its own (who owns
a block, which letters, which bytes of a record) is stated once more beside it, in numbers and texts
written out rather than in the function's own terms. WORD and DWORD are bounded integers; where
the C code truncates, the model does.

Where a promise turned out not to hold in general, the code is modelled as it is, a lemma names an
input, and another says exactly when the promise does hold:

- `DosMcbReserveTop` computes `(WORD)(paragraphs + 2)`; for 0xFFFE paragraphs and more the sum wraps,
  the size test passes, and the chain is destroyed (`ReservationWrapsIff`; `DosMcbReserveTop` says so
  of every chain). The program's own two calls ask for small constants (src/host/host_startup.c:1214-1223).
- `DosMcbReserveTop` is documented as safe to call twice; a third call carves out of the second
  reservation (`TwoReservationsStand`, `ReservationSparesDosIff`).
- `DosMcbFree` and `DosMcbResize` take any paragraph with a signature byte for a header. A free on one that
  is none may not return (`FreeOfLoopNeverReturns`) and otherwise leaves the chain (`UnlistedHolds`); a resize
  leaves it exactly when the tail it writes fits (`UnlistedResizeHoldsIff`).
- `DosMcbResize` reaches one free neighbour only (`ResizeMissesSecondNeighbour`, `ResizeReachesRunIff`).
- `DosEmsRestorePageMap` replaces the windows in order and can read a page before a later window has
  written it back (`RestoreCanLoseAStore`); and where a saved page no longer exists it leaves the window
  as it is, so that one page can end up in two windows (`RestoreOfGonePageAliases`). It keeps everything
  exactly when neither happens (`RestoreKeepsContentsIff`, `TargetsAliasIff`).
- A page map is saved by handle and page number: after the handle was given out again it shows the new
  owner's page (`RestoreShowsNewOwner`).
- A ninth nested EXEC is not saved (`DeepExecLosesParentsFile`, `TerminateRestoresIff`), and a JFT value
  can outlive its file (`StaleEntryBindsClosedHandle`, `ExecBindsOpenIff`, `ExecInvIff`).
- A program redirects a child by copying a file's JFT entry. The entry of a duplicate stands for its source
  (`DupEntryLies`), and a full host table gives entries new meanings (`ForgottenEntryLies`); `RedirectsIff`
  and `CallKeepsNamesIff` say exactly when an entry can be relied on.
- `FatImageMount` says that the FAT must be inside the file, but adds up in a DWORD; with wrapped sums it
  mounts a file whose FAT is not in it (`WrappingFileMounts`, `EntriesInsideIff`).
- An EXE header with a page count of 0 is sized as nothing and loaded whole (`NoPagesLoadsAll`,
  `HeaderCoversIff`).
- The comments on the environment block say that its tail can never be lost; with a PATH of more than
  206 bytes BLASTER or the prompt becomes an empty text and a reader stops early (`TailReadsBackIff`).
- `FatImageResolvePath` composes except for an empty first path (`EmptyPathDoesNotCompose`,
  `ResolveComposesIff`).

`dafny verify dfyconfig.toml` checks everything.

## Model

| member | source | states |
|---|---|---|
| Mcb.ChainUnique | src/dos/dos_mcb.h:481-510 | The memory holds at most one chain from a given first header: the list kept inside the managed memory reads back one way only. |
| Mcb.DosMcbCheckChain | src/dos/dos_mcb.h:481-510 | Answers 0 exactly when the memory holds a chain that ends at the top and is within the walk limit; each other code comes with the walk that justifies it. |
| McbHeader.DosMcbWriteHeader | src/dos/dos_mcb.h:129-142 | The header reads back with the signature, owner and size written, its name empty, and nothing outside its paragraph changes. |
| Mcb.DosMcbInitializeWithTop | src/dos/dos_mcb.h:187-194 | The three headers byte by byte, 8Fh..FFh owned by 8 and the others by 100h; a chain over the machine when the top leaves the program block room, and no chain at all reads back when it does not. |
| Mcb.ConventionalMemory.constructor | src/dos/dos_mcb.h:187-194 | A machine just initialised has those three headers, byte by byte, and satisfies the invariant that every call below keeps. |
| McbStart.StartHasNothingFree | src/dos/dos_mcb.h:187-194 | Any chain that reads back after initialisation is three blocks, none of them free: 8Fh..FFh is owner 8's, the other two the program's at 100h. |
| McbStart.StartGrantsNothing | src/dos/dos_mcb.h:273-354 | On such memory every request is refused, whatever its size, and the figure reported is 0. |
| Mcb.ConventionalMemory.DosMcbAllocate | src/dos/dos_mcb.h:273-354 | Leaves exactly the chain, answer and largest-free figure of the specification function, keeps the invariant, and changes only bytes of blocks that were free. |
| Mcb.ConventionalMemory.VisitFree | src/dos/dos_mcb.h:292-334 | One free block of the walk: its run is merged and either carved or passed over, and what the rest of the walk will answer is unchanged. |
| Mcb.ConventionalMemory.MergeFollowing | src/dos/dos_mcb.h:298-314 | The walk's merging: the block takes over every free block behind it; five bytes of one header are all that changes. |
| McbHeader.MergeLoop | src/dos/dos_mcb.h:370-383 | The coalescing loop, at a header of the chain or at any signed paragraph: it makes the passes of the specification until one does not merge. |
| Mcb.MergeEnds | src/dos/dos_mcb.h:370-383 | At a block of the chain the loop ends, after no more passes than there are blocks, and memory holds the coalesced chain. |
| McbHeader.FreeOfLoopNeverReturns | src/dos/dos_mcb.h:370-383 | On a member header of size 0xFFFF, whoever owns it, the loop has no end: the free does not return. |
| Mcb.ConventionalMemory.DosMcbFree | src/dos/dos_mcb.h:360-386 | Freeing a block gives the freed and coalesced chain. Any other segment: with no signature in front it is refused; with one the call, if it returns, changes five bytes there, as its loop does, and the chain stays. |
| Mcb.ConventionalMemory.DosMcbResize | src/dos/dos_mcb.h:393-474 | For every block success with the new chain or refusal with the reachable size. Any other segment: refused without a signature; with one it finds what the fields there say, writes no more than two headers, and the chain stays exactly when the tail fits. A refusal changes no byte. |
| Mcb.ConventionalMemory.Shrink | src/dos/dos_mcb.h:409-422 | Shrinking cuts the block and frees the tail, or changes nothing when the size is the one it has. |
| Mcb.UnlistedHolds | src/dos/dos_mcb.h:360-386 | Bytes changed in a paragraph that is no header of the chain leave the chain readable as it was. |
| Mcb.UnlistedResizeHoldsIff | src/dos/dos_mcb.h:393-474 | After a resize called on no block memory holds the chain it held exactly when no header of the chain is where the tail is written, or the one there reads the same. |
| Mcb.ConventionalMemory.Grow | src/dos/dos_mcb.h:424-471 | Growing takes one free neighbour, and no more, or reports what one neighbour would give. |
| Mcb.ConventionalMemory.DosMcbReserveTop | src/dos/dos_mcb.h:216-267 | The reservation of the specification, with only two headers changed, unless the WORD sum of the size test wraps; then no chain is left in memory. |
| Mcb.AllocateKeepsOwnedBytes | src/dos/dos_mcb.h:273-354 | No byte of any owned block, header or data, changes in an allocation. |
| Mcb.ResizeKeepsData | src/dos/dos_mcb.h:393-474 | In a resize every other owned block keeps all its bytes, and the block itself the data both sizes have. |
| Mcb.FreeKeepsOwnedBytes | src/dos/dos_mcb.h:360-386 | A free keeps every byte of every other block, and the data bytes of the one it frees. |
| Mcb.ReserveKeepsOwnedBytes | src/dos/dos_mcb.h:216-267 | A reservation keeps every byte of every block but the one it carves, and of that one the data it keeps. |
| Mcb.ReservationWrapsIff | src/dos/dos_mcb.h:237-243 | On the chain DOS starts with the size test wraps exactly for 0xFFFE and 0xFFFF paragraphs; InitialChain(0x9FC0) with 0xFFFE is the input. |
| Mcb.HoldsSplice | src/dos/dos_mcb.h:273-474 | Rewriting some blocks into others over the same paragraphs, and nothing else, leaves memory holding the spliced chain. |
| Mcb.OverlongHoldsNothing | src/dos/dos_mcb.h:237-243 | A header grown past its block in front of one too large for what is left: memory holds no chain up to the top. |
| McbChain.TilesTotal | src/dos/dos_mcb.h:187-194 | A chain that tiles first..top accounts for all its paragraphs: the sum of size + 1 is top - first. |
| McbTheorems.AllocateIsFirstFit | src/dos/dos_mcb.h:273-354 | The walk with merging is first fit over maximal free runs: the lowest run that is large enough, or, refused, the largest run of all. |
| McbTheorems.AllocateSucceedsIff | src/dos/dos_mcb.h:273-354 | A request is granted exactly when some maximal free run is large enough. |
| McbTheorems.RetryAtLargest | src/dos/dos_mcb.h:269-272 | After a refusal every request up to the reported figure is granted, and every larger one refused with the same figure. |
| McbTheorems.FreeTakesRun | src/dos/dos_mcb.h:360-386 | A freed block takes over the whole free run behind it, to the last paragraph, and no other block moves. |
| McbTheorems.FreedCanBeAllocated | src/dos/dos_mcb.h:360-386 | What is freed can be had again: any request up to the block's size is granted afterwards. |
| McbTheorems.AllocateTiles | src/dos/dos_mcb.h:273-354 | Allocation keeps the tiling of first..top. |
| McbTheorems.FreeTiles | src/dos/dos_mcb.h:360-386 | Freeing keeps the tiling of first..top. |
| McbTheorems.ResizeTiles | src/dos/dos_mcb.h:393-474 | Resizing keeps the tiling of first..top. |
| McbTheorems.ReserveTiles | src/dos/dos_mcb.h:216-267 | A reservation keeps the tiling of first..top. |
| McbRuns.RunConserves | src/dos/dos_mcb.h:216-474 | Over every sequence of calls the chain tiles the same paragraphs and their total never changes. |
| McbRuns.RunKeepsOwned | src/dos/dos_mcb.h:216-474 | Over every sequence of calls about other blocks, an owned block stays in the chain with its place, owner and size; its bytes are RunKeepsBytes'. |
| McbBytes.RunKeepsBytes | src/dos/dos_mcb.h:216-474 | Over every sequence of calls about other blocks, stray segments included, no byte of an owned block, header or data, differs between the first memory and the last, and the last still holds the chain of the run. |
| McbBytes.StepKeepsBytes | src/dos/dos_mcb.h:216-474 | One call of any of the four kinds keeps every byte of an owned block it is not about. |
| McbBytes.Perform | src/dos/dos_mcb.h:216-474 | Each of the four calls, made of the memory on whatever segment, is a step of the chain that touches only the bytes that step may touch, if it returns and leaves a chain. |
| McbBytes.PerformAll | src/dos/dos_mcb.h:216-474 | Any such sequence of calls made of the memory leaves the run's chain in it, and every byte of the owned blocks the calls are not about. |
| McbRuns.GrantIsTheRequest | src/dos/dos_mcb.h:317-333 | A grant is one block of exactly the size asked for, the program's; no other owned block is new. |
| McbRuns.ResizeIsTheRequest | src/dos/dos_mcb.h:393-474 | A resize succeeds exactly up to the block's size, or to that of the block, its free neighbour and the header between; the block then has the size asked for and its owner, and the rest of both is one free block, or no block when nothing is left. |
| McbRuns.ShrinkThenGrowBack | src/dos/dos_mcb.h:393-474 | Shrinking a block and growing it straight back restores the identical chain. |
| McbRuns.RefusedResizeReportsThreshold | src/dos/dos_mcb.h:455-471 | After a refusal a retry succeeds exactly up to the size reported. |
| McbRuns.ResizeReachesRunIff | src/dos/dos_mcb.h:424-431 | A resize can reach what an allocation would merge behind the block exactly when that run is a single block. |
| McbRuns.ResizeMissesSecondNeighbour | src/dos/dos_mcb.h:424-431 | A concrete chain on which a resize reports less than the free memory right behind the block. |
| McbRuns.ReservationSparesDosIff | src/dos/dos_mcb.h:201-215 | A reservation leaves DOS's own blocks whole exactly when the block it carves is not DOS's. |
| McbRuns.TwoReservationsStand | src/dos/dos_mcb.h:210-214 | Two reservations both stand, one under the other, exactly when the program's block keeps a paragraph under them; a third would be carved out of the second. |
| McbRuns.LongChainReservesNothing | src/dos/dos_mcb.h:216-267 | A chain of more than 1001h blocks is walked no further and nothing is reserved; on a shorter one the room decides. |
| AliasName.AliasInjective | src/dos/dos_alias.c:106-177 | For one long name two numbers never give the same alias, whatever tildes and digits the shortened stem holds. |
| AliasName.AliasIsShortName | src/dos/dos_alias.c:51-95 | Every generated alias is a legal 8.3 name, looks like an alias, is upper case and fits its 13-byte buffer. |
| AliasLetters.PlainNameAlias | src/dos/dos_alias.c:106-177 | The alias of any legal base, with or without a legal extension, spelled out: as many characters of the base, in capitals, as leave room in eight for the rest, "~", the decimal number, and a dot and three characters of the extension, if it has any. |
| AliasLetters.EmptyNameAlias | src/dos/dos_alias.c:136-137 | A name with nothing in it has "_" for a base. |
| AliasLetters.SpaceChangesNothing | src/dos/dos_alias.c:120-134 | A space put anywhere into any name leaves its alias as it is. |
| AliasLetters.LeadingDotChangesNothing | src/dos/dos_alias.c:120-121 | So does a dot in front of it. |
| AliasLetters.EarlierDotChangesNothing | src/dos/dos_alias.c:123-134 | So does any dot with another one behind it. |
| AliasLetters.UnderscoreStandsFor | src/dos/dos_alias.c:97-104 | A control, a separator or a character beyond ASCII anywhere in a name counts as an underscore; with the rules above every name comes down to a plain one. |
| AliasLetters.DecimalSpells | src/dos/dos_alias.c:142-155 | The digits are the number's decimal numeral, without leading zeros. |
| AliasText.DosAliasMake | src/dos/dos_alias.c:106-177 | The loops write the alias of the specification, whose letters AliasLetters spells out: trimmed, squeezed, the stem cut to leave room for the number. |
| AliasText.DosAliasIsShortName | src/dos/dos_alias.c:51-84 | Accepts exactly the names with one to eight plain characters and, after one dot, at most three more. |
| AliasText.DosAliasSameText | src/dos/dos_alias.c:35-49 | Equal but for case, over the first `length` characters or the whole. |
| AliasAssign.BlockingNeedsNames | src/dos/dos_alias.c:249-280 | Blocking the numbers 1..m of one long name takes at least m names (pigeonhole over the injective numbering). |
| AliasAssign.FreeNumberExists | src/dos/dos_alias.c:264-280 | The search always stops, on the lowest number that is free, after no more tries than there are names, plus one. |
| AliasAssign.AssignIsFree | src/dos/dos_alias.c:264-280 | Each alias differs, case-blind, from all taken names and all aliases handed out before it. |
| AliasAssign.AliasesDistinct | src/dos/dos_alias.c:264-280 | For any listing within the table's limits: all aliases distinct, none a taken name, every one a legal short name. |
| AliasAssign.AliasAvoidsRecorded | src/dos/dos_alias.c:193-208 | The twelve upper-case characters kept of a taken name are enough: no alias is that name, however long it was. |
| AliasAssign.AliasRoundTrip | src/dos/dos_alias.c:282-302 | From a long name to its alias and back is that name up to case; only names that were not queued have no alias. |
| AliasAssign.FindLongHits | src/dos/dos_alias.c:293-302 | Looking an alias up, in any case, finds the entry it was given to. |
| AliasAssign.FindLongMisses | src/dos/dos_alias.c:293-302 | A lookup fails exactly when no entry that was given an alias has that one. |
| AliasTable.DosAliasTable.DosAliasTableBegin | src/dos/dos_alias.c:179-191 | A table just begun is empty, keeps the directory's first 299 characters, and satisfies the invariant tying pool bytes to names. |
| AliasTable.DosAliasTable.DosAliasTableIsFor | src/dos/dos_alias.c:304-307 | True exactly when the directory is, but for case, the name as far as the table kept it. |
| AliasTable.BegunIsFor | src/dos/dos_alias.c:179-191 | A table begun for a directory answers for that name, but for case, when it is below 300 characters; a longer one is cut, and the table answers for its first 299 characters and not for the name. |
| AliasTable.DosAliasTable.DosAliasTake | src/dos/dos_alias.c:193-208 | A short name is recorded at the end, or the overflow is remembered. |
| AliasTable.DosAliasTable.DosAliasTableNote | src/dos/dos_alias.c:210-246 | What becomes of an entry, exactly: "." and ".." nothing; else its name goes into the taken ones, or its long name into the queue and the pool, or nothing changes and the overflow is set, which happens exactly when the list it needs, or the pool, is full. |
| AliasTable.DosAliasTable.PutString | src/dos/dos_alias.c:239-245 | The string and its NUL go to the end of the pool, and nothing below changes. |
| AliasTable.DosAliasTable.DosAliasIsTaken | src/dos/dos_alias.c:249-262 | True exactly when the alias is, case-blind, a taken name or one of the aliases given so far. |
| AliasTable.DosAliasTable.DosAliasTableFinish | src/dos/dos_alias.c:264-280 | The aliases are those of the specification whose freedom and distinctness are proved above. |
| AliasTable.DosAliasTable.DosAliasTableAliasOf | src/dos/dos_alias.c:282-291 | The alias of the first entry with that long name, or none. |
| AliasTable.DosAliasTable.DosAliasTableLongOf | src/dos/dos_alias.c:293-302 | The long name of the first entry with that alias, or none. |
| AliasTable.DosAliasTable.FinishedTableNamesAll | src/dos/dos_alias.c:210-280 | In a finished table that did not overflow every entry noted has a DOS name: its own, which no alias collides with, or an alias. |
| EmsTheorems.LogicalIs | src/dos/dos_ems.h:206-221 | While no page is in two windows, a page's contents are its window's bytes if it has one and its backing bytes otherwise. |
| EmsTheorems.MapKeepsContents | src/dos/dos_ems.h:313-371 | Mapping or unmapping changes no page's contents, and the window then shows the page asked for. |
| EmsTheorems.MapAliasesIff | src/dos/dos_ems.h:313-371 | Mapping brings an alias about exactly when another window already shows the page. |
| EmsTheorems.GuestWriteChangesShownPage | src/dos/dos_ems.h:206-221 | A store through the frame changes the page the window shows, to the bytes stored, and no other page. |
| EmsTheorems.AllocateKeepsContents | src/dos/dos_ems.h:239-308 | A new handle changes no page of any other. |
| EmsTheorems.DeallocateKeepsContents | src/dos/dos_ems.h:374-410 | Freeing a handle takes only its own pages, and no window shows them afterwards. |
| EmsTheorems.AllocateGrantedIff | src/dos/dos_ems.h:239-308 | Granted exactly for a positive count of pages that are unused, with a handle free and a buffer from the allocator; a refusal changes nothing. |
| EmsTheorems.AllocateGivesLowest | src/dos/dos_ems.h:239-308 | A handle granted is the lowest not given out, with exactly the pages asked for, taken off the free count; every other handle stays as it is. |
| EmsTheorems.ReallocateGrantedIff | src/dos/dos_ems.h:528-563 | Granted exactly when the handle is live, the extra pages are unused, and the allocator has a buffer where one is needed. |
| EmsTheorems.CodesAre | src/dos/dos_ems.h:239-371 | Each error code of allocation, mapping and reallocation is answered exactly in its case, and no other code is. |
| EmsTheorems.DeallocateGivesBack | src/dos/dos_ems.h:374-410 | The pages a handle had can be allocated again once it is freed. |
| EmsRestore.ReallocateKeepsContents | src/dos/dos_ems.h:528-608 | Every page that both sizes have keeps its contents, in whatever window it is; a refusal changes nothing. |
| EmsRestore.WindowsStay | src/dos/dos_ems.h:374-608 | After a reallocation or a free the frame holds the same bytes, and each window shows what it showed, unless its page is gone. |
| EmsRestore.RestoreGivesBackMapIff | src/dos/dos_ems.h:651-693 | A restore gives back the saved assignment of windows exactly when every saved page exists, by handle and page number. |
| EmsRestore.RestoreShowsNewOwner | src/dos/dos_ems.h:651-693 | A saved page's handle is freed and given out again: the restore answers OK and the window shows the new owner's page with its contents. |
| EmsRestore.NewOwnerHappens | src/dos/dos_ems.h:651-693 | A concrete state from which that happens. |
| EmsRestore.RestoreKeepsContentsIff | src/dos/dos_ems.h:675-685 | For every saved map: no page is in two windows after the restore exactly when the targets have no alias, and then every page keeps its contents exactly when no saved page sits, newer than its backing bytes, in a later window. |
| EmsRestore.RestoreReachesTargets | src/dos/dos_ems.h:675-685 | The restored windows are the targets: as saved, but a window whose saved page is gone stays as it was. |
| EmsRestore.TargetsAliasIff | src/dos/dos_ems.h:675-685 | With no alias before and none saved, the targets have one exactly when a window whose saved page is gone still shows a page the map wants in another window. |
| EmsRestore.RestoreOfGonePageAliases | src/dos/dos_ems.h:675-692 | A concrete state: a saved page is gone, the restore answers OK, one page is in two windows, and the second shows it without the store. |
| EmsRestore.RestoreCanLoseAStore | src/dos/dos_ems.h:675-685 | A concrete state in which the restore order loses a store. |
| EmsRestore.RestoreWindowStep | src/dos/dos_ems.h:675-685 | One step of the restore loop, for every saved mapping: refused, it changes nothing; else the old page goes back and the window shows the saved one. The other windows are untouched. |
| EmsRuns.StepValid | src/dos/dos_ems.h:239-693 | Every call keeps: mapped windows name live pages, and used pages are the handles' sum, at most the total. |
| EmsRuns.RunKeepsPage | src/dos/dos_ems.h:239-693 | Over every run of calls that make no alias and spare a page, the page keeps its contents. |
| EmsRuns.SaveWorkRestore | src/dos/dos_ems.h:611-693 | Save, any work, restore: the windows come back exactly when their pages exist by handle and number, a handle given out again included; no page is in two windows exactly when the targets have no alias; and no contents are lost as well exactly when no saved page is stale. |
| EmsSaves.RestoreAnsweredIff | src/dos/dos_ems.h:651-693 | Over every run that starts without the handle, told by the answers alone: a restore is answered OK exactly when a save was, and since then the handle was neither restored, nor freed, nor given out anew. |
| EmsSaves.SaveAnsweredIff | src/dos/dos_ems.h:611-649 | And a save exactly when the handle was given out, not freed since, and has no such save standing; so right after it was given out always. |
| EmsSaves.EveryAnswerFollows | src/dos/dos_ems.h:239-693 | Over every run each call that names a handle is answered by what the answers before it say of that handle. |
| EmsSaves.AnswersTell | src/dos/dos_ems.h:239-693 | After any part of a run, which handles are out and which have a map saved is what the answers told. |
| EmsSaves.OutIffGift | src/dos/dos_ems.h:239-410 | A handle is out exactly when some allocation gave it out and it was not freed since. |
| EmsFlat.StepIsFlatIff | src/dos/dos_ems.h:206-693 | For every call: no page is in two windows after it and flat memory makes the same step, exactly when the call maps no page a second time and restores no harmful map. |
| EmsFlat.AnswersAgree | src/dos/dos_ems.h:239-693 | Every call, fit or not, answers the code, and an allocation the handle, that flat memory answers. |
| EmsFlat.RunIsFlat | src/dos/dos_ems.h:206-693 | Over every fit run the windows are only a cache: all contents, counts, handles and mappings, and every answer on the way, are those of the same run on pages without a frame. |
| EmsFlat.AllocateIsFlat | src/dos/dos_ems.h:239-308 | An allocation has the same outcome, code and handle on flat memory. |
| EmsState.DosEmsState.DosEmsInitialize | src/dos/dos_ems.h:145-181 | No handle, no mapping, nothing used; the invariant holds. |
| EmsState.DosEmsCopyPage | src/dos/dos_ems.h:195-203 | Exactly one page of the destination becomes the source's. |
| EmsState.DosEmsState.DosEmsWriteBackWindow | src/dos/dos_ems.h:206-221 | The arrays change as the model's write-back does. |
| EmsState.DosEmsState.DosEmsMapPage | src/dos/dos_ems.h:313-371 | Frame and backing arrays, mappings and answer are the model's. |
| EmsState.DosEmsState.DosEmsAllocatePages | src/dos/dos_ems.h:239-308 | The lowest free handle, with no map saved, and a fresh buffer, or the model's refusal. |
| EmsState.DosEmsState.DosEmsDeallocatePages | src/dos/dos_ems.h:374-410 | Arrays, mappings and answer are the model's. |
| EmsState.DosEmsState.DosEmsReallocatePages | src/dos/dos_ems.h:528-608 | Windows written back first, pages moved to the new buffer, windows past its end dropped: the model's result; with a buffer to be had, refused for want of pages exactly when too few are unused. |
| EmsState.DosEmsState.CopyPages | src/dos/dos_ems.h:583-587 | The new buffer holds every page that both sizes have. |
| EmsState.DosEmsState.DosEmsSavePageMap | src/dos/dos_ems.h:611-649 | The four mappings are kept with the handle, or the model's refusal. |
| EmsState.DosEmsState.DosEmsRestorePageMap | src/dos/dos_ems.h:651-693 | Arrays, mappings and answer are the model's, window by window. |
| HandleTheorems.StepKeeps | src/dos/dos_int21.c:2197-2558 | Every call keeps: all handles in any table are open, and one in two slots is an older table's; without TSRs nothing leaks. |
| HandleTheorems.RunSafe | src/dos/dos_int21.c:2197-2558 | Over every run no handle in the current or a saved table is ever closed, and without TSRs the open handles are exactly those in some table. |
| HandleTheorems.ClosedWasOpenAndUnheld | src/dos/dos_int21.c:2213-2225 | A handle that is open before a call and not after it is in no table afterwards. |
| HandleTheorems.CallCloses | src/dos/dos_int21.c:2213-2225 | For every call, exactly which handles it opens and which it closes: those closed were open and no table holds them afterwards, those opened are in a table. |
| HandleTheorems.TerminateRestoresParent | src/dos/dos_int21.c:2506-2558 | EXEC, anything the child and its children do, terminate: the parent's table, device slots, kinds and JFT record are back and all its handles open. |
| HandleTheorems.TerminateRestoresIff | src/dos/dos_int21.c:2227-2249 | Every fair run of a child ends with the parent's table as it was exactly when fewer than eight frames are saved before its EXEC; at eight, some run of one call leaves another table. |
| HandleTheorems.ExecKeeps | src/dos/dos_int21.c:2454-2504 | EXEC opens and closes nothing, and every handle in the child's table is open; without TSRs each is one a saved table holds, so the child can close none of them. |
| HandleTheorems.ExecInvIff | src/dos/dos_int21.c:2454-2504 | The invariant of all tables comes through an EXEC exactly when every JFT edit names an open handle and none binds two slots to a handle that is in no table. |
| HandleTheorems.EditsFairIff | src/dos/dos_int21.c:2454-2504 | Without TSRs an edit is fair exactly when it names an open handle. |
| HandleTheorems.ExecBindsOpenIff | src/dos/dos_int21.c:2454-2504 | The child's table holds only open handles exactly when every JFT edit names an open one. |
| HandleTheorems.PopKeeps | src/dos/dos_int21.c:2506-2558 | After a terminate a handle is open exactly when it was before and is not the child's alone, or the child is a TSR; the table and the frames are the saved ones. |
| HandleTheorems.DeepPopKeeps | src/dos/dos_int21.c:2511-2517 | A terminate past the eight saved frames closes and restores nothing. |
| HandleTheorems.SftValueNames | src/dos/dos_int21.c:2276-2308 | The JFT value of a bound slot names a host entry that holds its handle; other entries are kept or forgotten. |
| HandleTheorems.OpenThenClose | src/dos/dos_int21.c:3438-3488 | An open binds the lowest free slot and no other; closing that slot restores the state exactly; with no slot nothing stays open. |
| HandleTheorems.DupThenClose | src/dos/dos_int21.c:5123-5155 | A duplicate is a second handle in the lowest free slot; closing it restores the state exactly. |
| HandleTheorems.Dup2Binds | src/dos/dos_int21.c:5156-5184 | Redirecting a slot binds it to the copy, no longer a device, and leaves every other slot alone. |
| HandleTheorems.Dup2MakesDevice | src/dos/dos_int21.c:5156-5184 | Redirecting a slot below 32 to a device makes it that device, closes the file it had when nobody else holds it, and leaves every other slot alone. |
| HandleTheorems.DupCodes | src/dos/dos_int21.c:5123-5184 | Error 6 exactly for a source that is not there (or a target past the table), 4 exactly when no slot, or none that can be a device, is there for the copy; an error changes nothing. |
| HandleTheorems.SaveRedirectRestore | src/dos/dos_int21.c:5085-5186 | The shell's save, redirect, restore: no step fails, and the standard handle is its device again with no handle left open. |
| HandleTheorems.JftEditRedirects | src/dos/dos_int21.c:2454-2504 | Right after a slot's own entry is shown, copying it over a standard handle's differing entry binds that handle to the file in the child, and changes no other slot. |
| HandleExec.ExecHandsOver | src/dos/dos_int21.c:2454-2504 | The table EXEC hands over, slot by slot: a standard slot whose entry was changed is what the new value says (FFh closed, 0 to 2 that device, else the host entry's file), and every other slot has its binding, and the device it was. |
| HandleExec.ChildShowsEdit | src/dos/dos_int21.c:2276-2308 | A child asked for the entry of a slot its parent edited to a device or to closed answers the value the parent wrote. |
| HandleExec.StandardDevices | src/dos/dos_int21.c:2134-2150 | A machine just started shows CON, CON, CON, AUX and PRN, and every other handle as closed. |
| HandleJft.RedirectsIff | src/dos/dos_int21.c:2454-2504 | In every state: copying the entry of a bound slot over a standard handle's differing one binds that handle to the file exactly when the host table has the slot's own handle for the entry; no other slot changes. |
| HandleJft.CallKeepsNamesIff | src/dos/dos_int21.c:7674-7702 | For every call, exactly when all bound slots' entries, in the running table and the saved ones, still name their own handles after it: not a duplicate into a slot a program can see, and not with a full host table while entries are in use. |
| HandleJft.AfterKeeps | src/dos/dos_int21.c:7674-7702 | A call with the entry it shows keeps the invariant of all tables, and leaks nothing without TSRs. |
| HandleJft.RunRedirects | src/dos/dos_int21.c:2276-2504 | After every run of calls that keep the entries truthful, copying any bound slot's entry over a differing standard one redirects to that slot's file, which is open. |
| HandleJft.DupEntryNamesSource | src/dos/dos_int21.c:7688-7694 | A duplicate shows its source's entry: with the source closed, copying the entry of the open copy binds the child's handle to the closed source. |
| HandleJft.DupEntryLies | src/dos/dos_int21.c:7688-7694 | The run from the initial state on which that happens: open, duplicate handle 5, close it. |
| HandleJft.ForgettingRenames | src/dos/dos_int21.c:2292-2300 | With the host table full an open forgets it and takes entry 3 again: copying the entry 3 of a file still open redirects to the new file. |
| HandleJft.ForgottenEntryLies | src/dos/dos_int21.c:2292-2300 | A run from the initial state that fills the table and ends so. |
| HandleTheorems.DeepExecLosesParentsFile | src/dos/dos_int21.c:2227-2249 | With eight frames saved already, a file that no frame holds and the child closes is closed for the parent too: its slot is unbound and the host handle gone. |
| HandleTheorems.StaleEntryBindsClosedHandle | src/dos/dos_int21.c:2276-2308 | A JFT value left over from a closed file can bind the child's handle to a host handle that is not open. |
| HandleTables.LowestFree | src/dos/dos_fh.h:154-172 | The lowest slot that is neither bound nor an open standard device, or none. |
| HandleTables.FindSft | src/dos/dos_int21.c:2283-2290 | The first host entry that holds the handle. |
| HandleMachine.DosMachine.DosInt21Initialize | src/dos/dos_int21.c:2156-2156 | Nothing bound or open, the five standard devices in their slots. |
| HandleMachine.DosMachine.DosHandleIsHeldByParent | src/dos/dos_int21.c:2197-2211 | True exactly when a saved table holds the handle. |
| HandleMachine.DosMachine.DosHandleRelease | src/dos/dos_int21.c:2216-2225 | The slot is unbound, and its handle closed only when no parent holds it. |
| HandleMachine.DosMachine.DosHandleAllocate | src/dos/dos_fh.h:154-172 | The loop finds the lowest free slot. |
| HandleMachine.DosMachine.DosHandleSetDevice | src/dos/dos_fh.h:132-143 | Sets or clears one device slot, refusing a handle that has none. |
| HandleMachine.DosMachine.FileOpened | src/dos/dos_int21.c:3438-3454 | An opened file gets the lowest slot, or is closed again when there is none. |
| HandleMachine.DosMachine.CloseArm | src/dos/dos_int21.c:3476-3488 | A bound handle is released; an unbound one gives up its device slot. |
| HandleMachine.DosMachine.DupArm | src/dos/dos_int21.c:5123-5155 | AH=45h: the model's new binding, device or error. |
| HandleMachine.DosMachine.Dup2Arm | src/dos/dos_int21.c:5156-5184 | AH=46h: the target's own file is released before the source's copy is bound. |
| HandleMachine.DosMachine.DosHandlesPush | src/dos/dos_int21.c:2227-2249 | The parent's table is saved, up to eight deep. |
| HandleMachine.DosMachine.DosJftExec | src/dos/dos_int21.c:2454-2504 | The parent's JFT edits become the child's standard handles, devices included, as HandleExec says slot by slot, and the JFT is copied entry by entry into the child's. |
| HandleMachine.DosMachine.DosHandlesPop | src/dos/dos_int21.c:2506-2558 | The child's leftovers are closed, each once, and the parent's table is back. |
| HandleMachine.DosMachine.CloseLeftovers | src/dos/dos_int21.c:2519-2546 | Closes each handle that no saved table holds exactly once, although slots may share it. |
| HandleMachine.DosMachine.DosSftValue | src/dos/dos_int21.c:2276-2308 | The value and the host table of the model. |
| FatLayout.MountedIsWellLaid | src/dos/dos_fatimg.c:86-147 | A mounted image whose sums fit a DWORD has FATs, root directory and data area in this order inside the file. |
| FatLayout.MountedIsWellLaidIff | src/dos/dos_fatimg.c:86-147 | Every mounted image: the layout is in order exactly when the entries of all clusters end before the root directory, and that before the data area. |
| FatLayout.MountsExactlyWrapped | src/dos/dos_fatimg.c:86-147 | Whatever the boot sector's counts: mounted is exactly what is a volume with sector counts modulo 2^23 and ends modulo 2^32. |
| FatLayout.WrappingFileMounts | src/dos/dos_fatimg.c:139-144 | A 4096-byte file with 129 FATs of 65028 sectors mounts with 64994 clusters and a FAT past its end; it is no volume. |
| FatLayout.MountsExactlyVolumes | src/dos/dos_fatimg.c:86-147 | While the layout fits a DWORD, exactly the FAT12 and FAT16 volumes inside the file mount: as many whole clusters as the sectors hold, an entry in the FAT for each, and the layout their boot sector gives. |
| FatLayout.MountedSizes | src/dos/dos_fatimg.c:86-147 | A mounted image has the boot sector's root entries and sector count, clusters of 512 times its sectors per cluster, and the 16-bit FAT exactly above 4084 clusters. |
| FatTable.LastEntryEndsAtTest | src/dos/dos_fatimg.c:139-144 | The mount's FAT size test is exact: the last data cluster's entry ends on the last byte it asks for, for 12 and 16 bits. |
| FatTable.EntryInBounds | src/dos/dos_fatimg.c:154-166 | Every data cluster's FAT entry lies inside the image. |
| FatTable.EntriesInsideIff | src/dos/dos_fatimg.c:139-144 | Of every mounted image all data clusters' entries are inside the file exactly when the reserved sectors and the entries together are no longer than it, which holds while the layout fits a DWORD. |
| FatTable.EntryOutsideFile | src/dos/dos_fatimg.c:154-166 | In the wrapping file the entry of cluster 60000 is not there. |
| FatTable.NextClusterReadsPacked | src/dos/dos_fatimg.c:154-166 | A FAT packed by the format's rule reads back entry by entry, whatever the cluster's parity. |
| FatTable.DataClusterIsNotEnd | src/dos/dos_fatimg.c:168-171 | No data cluster's number is an end-of-chain mark. |
| FatFile.OffsetNoWrap | src/dos/dos_fatimg.c:411-411 | The DWORD offset of a data cluster does not wrap. |
| FatFile.ChainWithinCap | src/dos/dos_fatimg.c:392-409 | A chain that does not repeat is never longer than the cluster count (pigeonhole). |
| FatFile.GoodFileBytes | src/dos/dos_fatimg.c:374-433 | Of a file whose chain does not repeat, is inside the image and long enough, every byte is reached: the step cap cuts nothing. |
| FatFile.SkipClusters | src/dos/dos_fatimg.c:392-398 | Skipping ends where the chain goes on, or the chain has no byte from there on. |
| FatFile.CopyClusters | src/dos/dos_fatimg.c:402-430 | Every byte copied is the chain's, and the copy stops short only where the chain has no further byte. |
| FatFile.FatImageReadFile | src/dos/dos_fatimg.c:374-433 | For every chain, looping or broken: at most what was asked and the size allows, all of it the chain's bytes from the offset, short only at the chain's end; the rest of the buffer is untouched. Which bytes those are of a FAT packed entry by entry, PackedFileReads says. |
| FatFile.GoodFileReadsWhole | src/dos/dos_fatimg.c:374-433 | A read of a good file brings exactly the bytes offset .. min(offset + count, size) of its concatenated clusters. |
| FatPacked.ChainIsLinked | src/dos/dos_fatimg.c:154-166 | With the FAT packed from a list of entries, following it from the first of any linked clusters passes through exactly those, and their bytes are the image's stretches at their places. |
| FatPacked.PackedFileReads | src/dos/dos_fatimg.c:374-433 | A file whose distinct clusters lie anywhere, chained by those entries: a read brings the bytes offset .. offset + count of the clusters' stretches put together, as far as the size goes. |
| FatPacked.PackedFileIsGood | src/dos/dos_fatimg.c:374-433 | Such a file is good, and what the extractor writes is those stretches cut to its size. |
| FatFile.CapIsExact | src/dos/dos_fatimg.c:392-409 | A chain that goes on for one cluster more than the image has, and so repeats, is read that far and no further. |
| FatFile.ReadsCompose | src/dos/dos_fatimg.c:374-433 | Of any chain, broken and looping ones too: what one read brings from an offset and another from where that one stopped, put together, is what one read over both brings. |
| FatFile.AdjacentReadsAreOne | src/dos/dos_fatimg.c:374-433 | Two adjacent calls bring what one call over both brings; after a short one the second brings nothing, and the second is short exactly when the one over both is. |
| FatFile.SameReads | src/dos/dos_fatimg.c:374-433 | What FatImageReadFile answers is determined by the image and the arguments. |
| FatFile.ExtractFile | src/dos/dos_int21.c:878-888 | The extractor's chunked loop ends and writes exactly the whole of a good file. |
| FatDirectory.FatEntryName | src/dos/dos_fatimg.c:174-200 | "NAME    EXT" becomes "NAME.EXT", padding dropped and 05h read as E5h, in at most twelve characters. |
| FatDirectory.NameReadsBack | src/dos/dos_fatimg.c:174-200 | A name stored by the format's rule reads back as it was, also one that starts with E5h. |
| FatPacked.SlotReadsBack | src/dos/dos_fatimg.c:174-268 | A 32-byte slot packed by the format's layout is read back field by field (name, attributes, time, date, first cluster, size), and is a file exactly when it is not deleted, not a label or part of a long name, and not "." or "..". |
| FatDirectory.FatNameMatches | src/dos/dos_fatimg.c:282-305 | A component matches exactly the entry names equal to it but for case. |
| FatDirectory.NameMatchesIff | src/dos/dos_fatimg.c:282-305 | A component matches a name exactly when it has its length and each byte is the same or the other case of an ASCII letter. |
| FatDirectory.FatWalkDirectory | src/dos/dos_fatimg.c:217-249 | Terminates on every chain, a looping one too, and shows the visitor the directory's entries in order until it says stop. |
| FatDirectory.DirectoryIsWhole | src/dos/dos_fatimg.c:235-247 | Of a directory whose chain does not repeat every byte is walked. |
| FatDirectory.ListingLists | src/dos/dos_fatimg.c:251-268 | The list visitor counts all files up to the end mark and keeps the first `capacity` of them. |
| FatDirectory.FatImageListDirectory | src/dos/dos_fatimg.c:270-279 | The number of files, and the first `capacity` of them in disk order. |
| FatPacked.RootListsStored | src/dos/dos_fatimg.c:217-279 | The root directory, at the bytes the boot sector's counts give, lists exactly the files stored in it, in order, up to the end mark. |
| FatPacked.DirectoryListsStored | src/dos/dos_fatimg.c:217-279 | So does a directory whose clusters lie anywhere. |
| FatDirectory.FindingFinds | src/dos/dos_fatimg.c:307-328 | What the find visitor stops on is the first match among the files the listing reports. |
| FatDirectory.FirstMatchIsFirst | src/dos/dos_fatimg.c:307-328 | First means first: no earlier file matches; and none is found only when none matches. |
| FatDirectory.FatImageLookup | src/dos/dos_fatimg.c:330-372 | A lookup is the iterated first match over what each directory lists; a file in the middle, or no match, fails. |
| FatDirectory.LookupComposes | src/dos/dos_fatimg.c:330-372 | Looking up p\q is looking up p and going on with q from there. |
| FatPacked.RootFileIsFound | src/dos/dos_fatimg.c:307-372 | A name on its own finds the first file stored under it in the root, with the fields stored. |
| FatPacked.StoredFileIsFound | src/dos/dos_fatimg.c:307-372 | Behind a path to a stored directory a name finds the file stored under it there; so does, step by step, every path down a tree. |
| FatDirectory.NothingBehindFile | src/dos/dos_fatimg.c:330-372 | Behind a path that names nothing, or a file that is no directory, nothing is found. |
| FatDirectory.ResolvedPathFindsSame | src/dos/dos_fatimg.c:474-549 | A path with no dot components names the same file before and after it is resolved. |
| FatPath.FatResolveComponent | src/dos/dos_fatimg.c:474-512 | One component does to the buffer what a push does to the stack, or fails exactly when the result does not fit. |
| FatPath.GoUp | src/dos/dos_fatimg.c:486-496 | ".." removes the last component and its separator, and stops at the root. |
| FatPath.PlainPartAppends | src/dos/dos_fatimg.c:497-512 | A plain component goes behind the path in capitals, after one backslash unless at the root. |
| FatPath.DotDotGoesUp | src/dos/dos_fatimg.c:486-496 | Resolving p\c\.. is resolving p, for a plain c, and ".." at the root changes nothing. |
| FatPath.DotChangesNothing | src/dos/dos_fatimg.c:474-485 | A "." or a separator behind a path changes nothing. |
| FatPath.StartsWhere | src/dos/dos_fatimg.c:535-549 | A path that starts with a separator is resolved from the root, any other as if written behind the current one. |
| FatPath.FatImageResolvePath | src/dos/dos_fatimg.c:535-549 | Succeeds exactly when every path on the way fits, and then the buffer holds the stack fold of the components; nothing is written past the capacity. |
| FatPath.ResolvedIsNormal | src/dos/dos_fatimg.h:128-138 | A resolved path is upper-case normal form with no dot components, and resolving it again gives it back. |
| FatPath.ResolveComposesIff | src/dos/dos_fatimg.c:474-549 | Resolving q against resolve(c, p) is resolving p\q against c, for all c and relative q, exactly when p is not empty. |
| FatPath.EmptyPathDoesNotCompose | src/dos/dos_fatimg.c:544-546 | The empty p: a concrete c and q for which the two differ. |
| Calendar.DateOfDays | src/dos/dos_clock.h:178-270 | The date recovered from a day count is the date it came from, for every date from year 1 on. |
| Calendar.DaysOfDate | src/dos/dos_clock.h:178-270 | Every day from 1 January of year 1 on is the day count of a date of the calendar, the one recovered from it. |
| Calendar.DaysSuccessor | src/dos/dos_clock.h:130-199 | The day count goes up by exactly one along the calendar, over month ends, year ends and leap days. |
| Calendar.EraIsFloor | src/dos/dos_clock.h:242-244 | The truncating division with its correction is the floor, for days before the epoch too. |
| Calendar.YearOfEraIs | src/dos/dos_clock.h:246-255 | The year of the era is recovered exactly from the day of the era, leap days and all. |
| Calendar.MonthLengths | src/dos/dos_clock.h:130-142 | The 153/5 rule gives every month the length the table gives it. |
| Clock.UnpackOfPack | src/dos/dos_clock.h:201-270 | Unpacking a packed reading gives it back field by field, with the weekday of its day. |
| Clock.PackOfUnpack | src/dos/dos_clock.h:201-270 | Packing an unpacked count gives the count back, from year 1 on. |
| Clock.WeekdaysFollow | src/dos/dos_clock.h:237-240 | A day later is the next weekday, at every count. |
| Clock.WeekdayKnown | src/dos/dos_clock.h:237-240 | 1 January 2000 was a Saturday: with the succession this fixes the weekday of every date. |
| Clock.KeepsAdvancing | src/dos/dos_clock.h:272-279 | With any offset the guest's clock advances as the host's does. |
| Clock.WholeDaysKeepTime | src/dos/dos_clock.h:284-298 | An offset moved by whole days leaves the time of day at every instant. |
| Clock.TicksRoundTrip | src/dos/dos_clock.h:326-373 | Time to ticks to time never moves forward; it loses at most 6 hundredths, or 20 where the count is clamped. |
| Clock.TicksMonotone | src/dos/dos_clock.h:326-340 | A later time of day never has a smaller tick count, where the count is clamped too. |
| Clock.CountsKnown | src/dos/dos_clock.h:326-340 | The ticks of midnight, one and eleven at night, and of the day's last hundredth, as numbers. |
| Clock.DosClockTimeFromTicks | src/dos/dos_clock.h:351-373 | A valid time of day whose hundredths are the count's, clamped to the end of the day. |
| Clock.TimeOfCount | src/dos/dos_clock.h:351-373 | A count past the day's length stands for the day's last hundredth, any below it for its own time at 1193182/65536 a second. |
| Clock.GuestClock.constructor | src/dos/dos_clock.h:114-118 | A new clock reads the host's time, field by field, with the weekday of its date. |
| Clock.GuestClock.DosClockApplyOffset | src/dos/dos_clock.h:273-279 | The guest's reading is a valid time exactly `offset` hundredths past the host's, for every guest date from year 1 on, and the host's own while the offset is 0. |
| Clock.GuestClock.DosClockSetDate | src/dos/dos_clock.h:284-298 | The reading changes in its date and weekday only, and the offset by whole days. |
| Clock.GuestClock.DosClockSetTime | src/dos/dos_clock.h:301-317 | The reading changes in its time of day only. |
| Clock.GuestClock.DosClockFollowTicks | src/dos/dos_clock.h:403-424 | At the same instant the reading has the count's time of day, and the date of the store plus the wraps. |
| Lfn.DayCountsAgree | src/dos/dos_lfn.h:258-274 | The LFN day count is the clock's less 719468 on every date both cover. |
| Lfn.DatesAgree | src/dos/dos_lfn.h:276-305 | And the dates the two recover from a day agree at every day, though one divides by truncation throughout. |
| Lfn.MonthsAgree | src/dos/dos_lfn.h:307-318 | The two month-length tables agree on every year and month. |
| Lfn.CivilRoundTrip | src/dos/dos_lfn.h:258-305 | The date of a date's day count is that date. |
| Lfn.StampRoundTrip | src/dos/dos_lfn.h:323-391 | DOS stamp to FILETIME and back is the identity on every accepted date, time and 10 ms triple. |
| Lfn.FileTimeRoundTrip | src/dos/dos_lfn.h:323-391 | FILETIME to DOS stamp and back is the FILETIME rounded down to 10 ms, for every one within 1980..2107. |
| Lfn.StampAcceptedIff | src/dos/dos_lfn.h:377-383 | Accepted are exactly the stamps whose fields are a date of the calendar, a time of day, and less than two seconds over. |
| Lfn.FileTimeOfFields | src/dos/dos_lfn.h:363-391 | The FILETIME of a stamp given by its fields. |
| Lfn.StampOfFields | src/dos/dos_lfn.h:323-355 | The stamp of a FILETIME given by its fields. |
| Lfn.FileDaysPositive | src/dos/dos_lfn.h:385-388 | The day count of an accepted stamp is positive, so the unsigned cast loses nothing. |
| Lfn.CountsStart | src/dos/dos_lfn.h:258-305 | The day count starts at 1 January 1970, and 1 January 1601 is 134774 days before, both ways. |
| Lfn.StampCountsFrom1601 | src/dos/dos_lfn.h:363-391 | The FILETIME of an accepted stamp is its time since 1 January 1601 in units of 100 ns, read from the stamp's bits. |
| Lfn.HasStampIff | src/dos/dos_lfn.h:323-355 | A FILETIME has a stamp exactly when its day, counted from 1601, is in 1980 to 2107. |
| Lfn.FirstStamp | src/dos/dos_lfn.h:323-391 | 1 January 1980 is the FILETIME 119600064000000000, both ways. |
| Loader.Relocate | src/dos/dos_loader.h:141-148 | The fixup loop applies the table's entries one after the other, each adding the factor to a word modulo 65536. |
| Loader.DosLoadImageAt | src/dos/dos_loader.h:110-174 | Memory becomes the placed and relocated load module, or the .COM image at PSP:100h, and the entry context is the header's biased by the load segment. |
| Loader.DosLoadOverlay | src/dos/dos_loader.h:325-379 | The module is placed at the load segment and relocated by the factor, which may differ. |
| Loader.WordRelocated | src/dos/dos_loader.h:141-148 | A word has the factor added once for every entry naming it, modulo 65536. |
| Loader.ImageIsRelocatedFile | src/dos/dos_loader.h:138-148 | With fixups inside the image and none overlapping by one byte: plain bytes are the file's, fixed words the file's plus count times factor, and nothing outside the image changes. |
| Loader.LoadsDifferAtFixups | src/dos/dos_loader.h:110-174 | Two loads of one file at different segments differ only in the fixed words, and there by the count times the difference. |
| Loader.ParagraphsCoverImage | src/dos/dos_loader.h:185-206 | For a well-formed header the paragraphs counted in whole pages cover the bytes loaded. |
| Loader.HeaderCoversIff | src/dos/dos_loader.h:185-206 | They cover them for every file behind the header exactly when it is well formed: page count not 0, image under 64K paragraphs, and a last page no longer than a page unless the counted bytes end in the header. |
| Loader.NoPagesLoadsAll | src/dos/dos_loader.h:185-206 | With a page count of 0 no paragraph is counted and the whole of the file is loaded. |
| Loader.BlockHoldsProgram | src/dos/dos_loader.h:230-273 | EXEC gets a block exactly when PSP, image and minimum fit the largest; the block holds them, and is no larger than image plus maximum, or the largest. |
| LoaderPacked.HeaderReadsBack | src/dos/dos_loader.h:110-174 | A header packed word by word in the format's order reads back field by field. |
| LoaderPacked.FixupsAreEntries | src/dos/dos_loader.h:141-148 | The fixups are the table's entries, offset word and then segment word, at 16 times the segment plus the offset into the image. |
| LoaderPacked.LinkedModuleIsWhole | src/dos/dos_loader.h:110-174 | With the page counts a linker writes, 0 for a full last page, the load module is all of the counted bytes behind the header, whatever follows them. |
| LoaderPacked.ExecSizeIs | src/dos/dos_loader.h:230-273 | For every packed header: refused exactly when PSP, image and minimum exceed the largest block; loaded high, with that block, exactly when both allocations are 0; else given what the larger of the two asks for, up to that block. |
| LoaderPacked.ComTakesLargest | src/dos/dos_loader.h:245-249 | Anything shorter than a header or not signed "MZ" gets the largest block, and no load at its top. |
| Environment.PutConcat | src/dos/dos_env.h:122-131 | Clipping piece by piece is clipping the whole text. |
| Environment.DosEnvPutBounded | src/dos/dos_env.h:122-131 | The text clipped at the end, and no other byte of memory. |
| Environment.DosEnvPutDecimal | src/dos/dos_env.h:133-158 | The number's decimal digits, clipped; the twelve-place scratch buffer is always enough. |
| Environment.DosEnvPutThreeHexDigits | src/dos/dos_env.h:163-176 | The three hex digits, highest first, clipped. |
| Environment.HexReadsBack | src/dos/dos_env.h:160-176 | Read as hex, the three digits give the port back, less whatever is above twelve bits. |
| Environment.DosEnvPutBlaster | src/dos/dos_env.h:182-229 | The card's text with a part for each setting it advertises, clipped. |
| Environment.PutEntries | src/dos/dos_env.h:297-324 | The extra entries that fit go in whole and in order, blank lines and comments and the others not at all. |
| Environment.DosEnvBuildWithCard | src/dos/dos_env.h:260-333 | For all inputs the block of the specification, its length, and no byte outside the 256 changed. |
| Environment.BlockFits | src/dos/dos_env.h:254-259 | No inputs make the block longer than 256 bytes. |
| Environment.BlockMeetsCap | src/dos/dos_env.h:273-332 | A long PATH and program path make it exactly 256: the bound is met. |
| Environment.BlockReadsBack | src/dos/dos_env.h:260-333 | When the standard variables fit, parsing the block gives them, then exactly the extra entries that fitted whole, in order, the count 1 and the program path, cut to the room left. |
| EnvironmentText.BlasterReadsBack | src/dos/dos_env.h:182-229 | A driver's parser, settings found by their letters, reads every card's fields back from its BLASTER text, the ports in twelve bits and 0 for what is not advertised. |
| EnvironmentText.DefaultCard | src/dos/dos_env.h:187-199 | With no card given that driver finds port 220h, IRQ 5, channel 1, type 3 and nothing else. |
| EnvironmentText.StandardTextsAre | src/dos/dos_env.h:275-281 | The COMSPEC, PATH and PROMPT texts, and what stands in for a PATH or a program path not given. |
| EnvironmentText.LinesReadBack | src/dos/dos_env.h:297-324 | However lines are separated, by line feeds, returns and semicolons in any number, the entries are the lines typed that are neither blank nor comments, in order. |
| EnvironmentText.FittingOneMore | src/dos/dos_env.h:310-317 | One entry more is taken exactly when it and its NUL end at or below offset F8h behind those taken before it. |
| EnvironmentTail.TailReadsBackIff | src/dos/dos_env.h:254-259 | Whatever program, card and extra text: the count 1 and the program path, cut to the room the variables leave, are found exactly when the PATH is at most 206 bytes; with a longer one the count read is 0 or 256. |
| EnvironmentTail.ProgramReadsWholeIff | src/dos/dos_env.h:254-259 | The program path is found whole exactly when, besides, it fits between the variables and the end of the 256 bytes. |
| EnvironmentTail.ShortPathReads | src/dos/dos_env.h:260-333 | With such a PATH the block parses to COMSPEC, PATH and PROMPT whole, BLASTER as far as there is room, the entries that fitted, the count and the program path. |

## Left out

- Mcb.ConventionalMemory.DosMcbFree: a call that does not return is not modelled, only named (FreeReturns); blocks of the chain always return.
- McbBytes.PerformAll: the calls of a run return and leave a chain (InScope); a run is not followed past a reservation whose size test wraps or a resize whose tail overwrites a header.
- Mcb.ConventionalMemory.constructor: the program's first MCB is above paragraph 0, as the layout has it; DosMcbSetOwnerName is not modelled, and of the eight name bytes of a header only that writing one clears the first.
- AliasTable.DosAliasTable.DosAliasTableNote: names are sequences of characters without a NUL.
- AliasName.AliasIsShortName: DosAliasLooksLikeAlias is stated on a whole name, not on the first `length` characters of a path.
- EmsState.DosEmsState.DosEmsAllocatePages: the allocation hook is an answer given as a parameter, and a buffer it grants holds any bytes; handle names, counts and directories (functions 3, 12, 13, 14 and 20) are not modelled. The pages of the freed buffer are not tracked.
- HandleMachine.DosMachine.FileOpened: CreateFile, DuplicateHandle and CloseHandle are a fresh handle, a fresh handle or 0, and a ghost event; register decoding, tracing and error codes that Win32 decides are not modelled. The device mask is a set of slots.
- HandleMachine.DosMachine.DosHandlesPop: the scan for a parent that holds a handle and the scan for an earlier slot that shares it are one loop over the saved frames and slots.
- HandleTheorems.TerminateRestoresParent: EXEC is push followed by the JFT hand-over, as src/host/host_dos.c:1022-1023 calls them; the rest of EXEC is not part of this model.
- HandleJft.CallKeepsNamesIff: the program has a JFT of 20 entries and is not a protected-mode client, whose entries the code does not show.
- FatLayout.MountedIsWellLaid: needs the sums and products of the boot sector's counts to fit a DWORD (FitsDword). What mounts with wrapped ones is stated too, but the theorems on files and directories ask for the layout in order (WellLaid).
- FatDirectory.FatImageListDirectory: the caller's array is a sequence, so aliasing of it with the image is not captured; FatImageVolumeLabel and FatImageFreeClusters would add only easy members.
- FatDirectory.FatWalkDirectory: the visitor is a function on its context, not a pointer to one that writes through it.
- Clock.GuestClock.DosClockSetTime: needs the guest's date to be in year 1 or later; the UINT cast of a year before 0 is not modelled, and INT64 overflow is not reached from any date a caller can set.
- Lfn.FileTimeRoundTrip: FILETIMEs are unbounded naturals, so the cast to INT64 is the identity; DosLfnFindPack and DosLfnShortName are not modelled.
- Loader.DosLoadImageAt: the file must hold its own relocation table, and the image must end inside the memory given; the code checks neither. DosExeKind is a small lookup.
- LoaderPacked.ExecSizeIs: the header's pages hold the header, and the image is under 64K paragraphs; beyond that the code's WORD wraps.
- Loader.DosLoadOverlay: the same two requirements, for the same reason.
- Environment.DosEnvBuildWithCard: a missing program path, PATH or extra text is the empty one, which the code treats alike.
- Win32 calls, guest registers, logging, ISO 9660 images, extended memory, and the sound, video and settings code are not modelled.
