# A verified model of a small x86 kernel

The kernel boots from a floppy or disk image, sets up a flat address space, drives a text console and a keyboard, keeps an
in-memory file system, scans the PCI bus and reads and writes disk sectors. This project models those parts and proves what
they are for.

| file | part of the kernel |
|---|---|
| `Machine.dfy` | bytes, words, and the 32-bit conversions of C |
| `CString.dfy`, `Paths.dfy` | the string routines of `string.c`, `strtok`, and path parsing |
| `FlatFs.dfy`, `FlatFsBasics.dfy`, `FlatFsLaws.dfy`, `FlatFsCalls.dfy`, `FlatFsIo.dfy` | the file system as a flat map, what each call does to it, and what that guarantees over whole runs |
| `Tmpfs.dfy`, `Vfs.dfy`, `VfsRun.dfy` | the file system as `vfs.c` builds it (inodes, vnodes, open files, handle table), proved to refine the flat map |
| `Console.dfy`, `TypedLine.dfy`, `Heap.dfy`, `Keyboard.dfy` | the text screen, the line being typed, the bump heap it is kept on, and the keyboard handler |
| `Paging.dfy`, `Dma.dfy` | the page walk and the boot directory, the DMA pool |
| `Pci.dfy`, `PciTree.dfy`, `PciEnd.dfy`, `PciHeader.dfy`, `PciScan.dfy` | configuration addresses, the order of the recursive bus scan, when it ends, what the wrong header byte does to it, and the scan and the search for the EHCI controller step by step |
| `Ata.dfy` | the PIO sector driver against a controller |
| `Boot.dfy` | block addressing, reads with retries, and the extent loader of the boot sector |

What changes state in the kernel is a class or an array here, and every such method is proved against a specification
written as pure functions; the laws are lemmas about the specification.

The file system has three layers. `FlatFs` says what every call answers and what it does to a map from component
sequences to directories and files and to a map of handles; writing is a relation, since `malloc` does not clear memory and
the gap behind an old end of file may hold anything. `Vfs.FileSystem` holds the C structures with their pointers, and each
call ends in the state that `FlatFs` names. `VfsRun.Execute` carries this over whole runs from `vfs_init`, so that the laws
of `FlatFsLaws`, `FlatFsCalls` and `FlatFsIo` hold of the code.

## Where the code departs from its intent

The model follows the code.

- `O_RDONLY` is 0, so the test at vfs.c:508 admits `O_RDWR` only: a handle opened for reading alone cannot be read
  (`FlatFsLaws.ReadNeedsRdwr`).
- `parse_path` drops every component after the sixteenth without an error (vfs.c:393): parsing undoes joining for lists of
  at most sixteen names and for no longer one (`Paths.ParseJoin`).
- A directory has 64 slots and nothing checks that one is free (vfs.c:157, vfs.c:205). The specification allows a call
  that creates a node only while the directory has fewer than 64 children.
- Position plus size is computed in 32 bits (vfs.c:223, vfs.c:242). `Tmpfs.ClipIsSafe` and `Tmpfs.GrowthIsEnough` show that
  the bounds tests are right exactly when that sum does not wrap; the specification allows only such reads and writes.
  `lseek` converts between signed and unsigned as C does, and a result of 2^31 or more comes out negative.
- `O_APPEND` sets the position at the open only (vfs.c:485-489): a write through such a handle is appended if and only if the
  file has not grown since (`FlatFsCalls.AppendThenWrite`).
- A write of no bytes behind the end of a file still extends it (vfs.c:242-253).
- When the table of open files is full, a further open succeeds but is not recorded (vfs.c:492-497). The table is modelled
  call by call (`FlatFs.TableAfter`, kept by `VfsRun.Execute`); up to any point of a run from `vfs_init` it lists exactly the
  live handles if and only if there were never more than 64 (`FlatFsLaws.TableExactIff`), and there can be any number
  (`FlatFsLaws.ManyOpens`). A handle that found no room is not listed later either (`FlatFsLaws.ListedIff`).
- The check for a DMA block that fits adds three numbers in 32 bits (mm.h:72-75). `Dma.AdmitsIsRight` shows that it is right
  exactly when the sum does not wrap around into the pool, `Dma.WrappedRequest` gives a request that it lets through, and
  `Dma.ModestRequest` says which requests are safe. `Dma.DmaPool.Alloc` reports such a request; what the code then does to
  memory outside the pool is not modelled.
- The scan of a bus ends exactly if no cycle of bridges can be reached from it (`PciEnd.ScanEnds`); nothing in pci.c prevents
  a cycle, and `PciEnd.EndlessScan` gives one.
- `pci_read_header_type` rounds offset 0x0E down to dword 0x0C and takes its low byte, the cache line size (pci.c:69); the
  header type is in bits 16 to 23. The scan is modelled with the byte it reads. That byte decides which functions of a device
  are tried (`PciHeader.FoundByTheByteRead`, `PciHeader.MultiFunctionMissed`) and which bridges are followed
  (`PciHeader.FollowedByTheByteRead`, `PciHeader.BridgeMissed`), and it can make up a bridge and so a scan without end
  (`PciHeader.BridgeMadeUp`). `PciHeader.ScanIsHonest` says exactly when the scan still reports what it should.
- The base of a page directory entry is an `int` product (kernel.c:569) that overflows from entry 512 on
  (`Paging.ProductOverflows`). The model computes it modulo 2^32, as the machine does.
- A character printed to the last cell of the screen clears the screen at once (kernel.c:463-467).
- The `f` key stores a zero behind the bytes it read. For a file of 100 bytes or more that is the byte behind its buffer
  (kernel.c:374-376): the model has this byte, and `Keyboard.GotFile` says that it is overwritten exactly for such files;
  `Keyboard.HundredBytes` is a run that leaves one.
- The branches at vfs.c:560, vfs.c:464-466 and kernel.c:468-472 can never be taken; the model asserts this where they are.
- Without disk extensions a block number is cut to 16 bits, and its cylinder to ten (boot2.asm:199-222, 258): block 65537 is
  read as block 1, and on a 1.44 MB floppy 40000 as 3136 (`Boot.WrongBlocks`). `Boot.ReadsTheBlock` says exactly when the
  block that is read is the one asked for, and `Boot.Cpu.LoadsTheList` exactly when what is loaded is what the list names.
- The sector driver never looks at the error bit (ata.c:25-37, 69-73): 1 says that the drive asked for the data, not that the
  data is right. The drive of the model may spoil the data of any command; `Ata.ReadsLastWrite` says exactly when a read
  still returns what was written, and `Ata.LostWrite` gives a write that is answered as done and lost.

## Model

| member | source | states |
|---|---|---|
| CString.Memset | string.c:4-8 | the range holds the byte, every other byte of the buffer is unchanged |
| CString.Memcpy | string.c:10-15 | the range holds the source bytes, every other byte is unchanged |
| CString.Strcmp | string.c:17-23 | 0 exactly for equal strings; otherwise the difference of the bytes at the first position where they part |
| CString.Strcpy | string.c:25-29 | the copy reads back as the source string, and nothing behind its NUL is written |
| CString.Strchr | string.c:55-58 | the first occurrence, found exactly if there is one; the NUL itself can be searched for |
| Paths.SplitTokens | string.c:38-52 | the pieces are non-empty and free of delimiters |
| Paths.SplitConcat | string.c:38-52 | a delimiter separates: splitting `a + [c] + b` is splitting `a` and then `b` |
| Paths.SplitDetermined | string.c:38-52 | the empty string, single words and that separation law leave no other function than `Split` |
| Paths.MaximalRunIsPiece | string.c:38-52 | every maximal run of non-delimiters is a piece, in its place among the others |
| Paths.Tokenizer.Strtok | string.c:31-53 | with its static pointer and its write into the string, each call hands out the first piece, and what it goes on with splits into the remaining ones; NULL exactly when none is left |
| Paths.CopyTokens | vfs.c:388-397 | repeated `strtok` calls on the destroyed copy yield the pieces of the original, cut to sixteen |
| Paths.ParsePath | vfs.c:378-400 | the components are those of splitting at slashes, empty ones dropped, cut to sixteen |
| Paths.ParseNames | vfs.c:393-395 | every component is non-empty, slash-free, NUL-free and shorter than 256 bytes |
| Paths.SplitJoin | vfs.c:388-397 | splitting undoes joining any non-empty slash-free names with slashes |
| Paths.ParseJoin | vfs.c:378-400 | parsing a joined list gives its first sixteen names, so it gives back the list exactly if it has at most sixteen |
| Paths.ExtraSlashes | vfs.c:382-392 | doubled, leading and trailing slashes change nothing |
| FlatFsBasics.PrefixClosed | vfs.c:417-442 | every prefix of an existing path exists, and proper ones are directories |
| FlatFsBasics.ResolveAt | vfs.c:417-442 | the component at which the walk leaves the tree decides between -2 and -1 |
| FlatFsLaws.StepWf | vfs.c:450-563 | every call keeps the tree prefix-closed with files at its leaves, and handles on files |
| FlatFsLaws.RunWf | vfs.c:450-563 | the same along every run |
| FlatFsLaws.ReachableTree | vfs.c:131-208 | in every state reached from `vfs_init`, all proper prefixes of a path are directories and all names are valid |
| FlatFsLaws.StepDeterministic | vfs.c:234-260 | the answers of a call are determined by the state, and so is the next state unless a write leaves a gap |
| FlatFsLaws.StepFrame | vfs.c:450-563 | no call changes a node other than the file it writes, nothing disappears, and only the path named by a creating call appears, empty |
| FlatFsLaws.StepFrameHandles | vfs.c:503-548 | no call changes a handle it does not use, and none changes the path or flags of one |
| FlatFsLaws.RunKeepsFile | vfs.c:210-260 | over any run, a file that nothing writes to keeps its bytes |
| FlatFsLaws.RunKeepsHandle | vfs.c:210-303 | over any run, a handle that nothing uses keeps its position |
| FlatFsLaws.LookupAfterCreate | vfs.c:403-447 | creating a path changes the lookup of that path and its extensions only, and says to what |
| FlatFsLaws.ReadNeedsRdwr | vfs.c:503-525 | of the three modes, with any options, only `O_RDWR` can be read and all but `O_RDONLY` written |
| FlatFsLaws.TableBounds | vfs.c:491-497 | along every run the table lists live handles only, and at most 64 |
| FlatFsLaws.TableExactIff | vfs.c:491-540 | up to any point of a run the table lists exactly the live handles if and only if there were never more than 64 |
| FlatFsLaws.ListedIff | vfs.c:491-540 | a handle that is still live is on the table if and only if it had room when it was opened |
| FlatFsLaws.ManyOpens | vfs.c:450-501 | a run that opens any number of files without an error; the table misses some of them if and only if there are more than 64 |
| FlatFsCalls.MkdirMakes | vfs.c:551-563 | 0 exactly if the path is free and all but its last name a directory; then there is a directory at it, and no other node and no handle differs; otherwise nothing changes |
| FlatFsCalls.OpenOpens | vfs.c:450-501 | 0 exactly for a file, or with `O_CREAT` for a free place, which becomes an empty file; the new handle stands at the end with `O_APPEND` and at the start without; otherwise nothing changes |
| FlatFsCalls.ReadReads | vfs.c:210-232 | the bytes from the position on, byte by byte, as many as there are and are asked for, their number as the answer, and the position behind them; -1 and no change without the right |
| FlatFsCalls.WriteWrites | vfs.c:234-260 | data laid over the file byte by byte, which grows just as far as it must, the position behind them; -1 and no change without the right |
| FlatFsCalls.LseekMoves | vfs.c:285-303 | origin plus offset modulo 2^32 from the start, the position and the end, and the answer is the same number, signed; other origins are refused |
| FlatFsCalls.CloseCloses | vfs.c:528-542 | 0, and only that handle is gone |
| FlatFsCalls.MadeDirectoryHolds | vfs.c:551-563 | over runs: after a mkdir answered with 0, any later open with `O_CREAT` of a name in it is answered with 0 if and only if that name is not a directory |
| FlatFsCalls.MkdirThenOpen | vfs.c:178-208 | right after it, such an open is within what the file system provides for, and makes the file |
| FlatFsCalls.OpenThenRead | vfs.c:268-270 | over runs: after an open without `O_APPEND`, the first read of the handle delivers the first bytes of the file |
| FlatFsCalls.AppendThenWrite | vfs.c:485-489 | over runs: after an open with `O_APPEND`, the first write of the handle appends if and only if the file has not grown since the open, or there is nothing to write |
| FlatFsCalls.SeekThenRead | vfs.c:210-303 | a seek to a place in the file from any of the three origins, and a read: what stands there |
| FlatFsIo.MaxEndIsMax | vfs.c:242-253 | the size of an overlay is the farthest end that any write reached |
| FlatFsIo.LastWriterWins | vfs.c:234-260 | a cell holds what the last write over it put there |
| FlatFsIo.UncoveredIsGap | vfs.c:242-253 | a cell that no write covers is unspecified |
| FlatFsIo.FileIsOverlay | vfs.c:234-303 | over any run of calls through any handles, a file that starts empty is the overlay of the writes made to it |
| FlatFsIo.ChunkedWrite | vfs.c:234-260 | writing a string in pieces has exactly the outcomes of writing it at once |
| FlatFsIo.ChunkedRead | vfs.c:210-232 | reading in pieces of any sizes delivers what one read of their sum would |
| FlatFsIo.ReadsInARun | vfs.c:504-513 | reads of one handle that follow each other in a run of calls deliver the bytes from the position on, as far as their sizes and the file reach |
| FlatFsIo.ReadToEnd | vfs.c:210-232 | after reads of any sizes, the next read delivers nothing exactly if they delivered the file from the position to its end |
| FlatFsIo.NonEmptyReads | vfs.c:210-232 | there are at most as many non-empty reads as bytes left |
| FlatFsIo.WriteThenRead | vfs.c:210-303 | what one handle writes, another handle on the same path reads after an `lseek` to where it was written |
| Tmpfs.FindChild | vfs.c:105-126 | a child of that name is found exactly if there is one |
| Tmpfs.TmpfsLookup | vfs.c:96-129 | a fresh vnode over the shared inode of the child, exactly if the directory has it |
| Tmpfs.TmpfsCreate | vfs.c:131-176 | an empty file in the next slot of the directory, exactly if the name is not taken; otherwise nothing changes |
| Tmpfs.TmpfsMkdir | vfs.c:178-208 | an empty directory in the next slot, exactly if the name is not taken; otherwise nothing changes |
| Tmpfs.TmpfsRead | vfs.c:210-232 | the bytes from the position, as many as there are, and the position moved by as many; the rest of the buffer is unchanged |
| Tmpfs.TmpfsWrite | vfs.c:234-260 | the data laid over the old bytes at the position, old bytes kept across the reallocation, only the gap unspecified |
| Tmpfs.TmpfsLseek | vfs.c:285-303 | the position modulo 2^32 from the three origins, returned as a signed number; other origins change nothing |
| Tmpfs.ClipIsSafe | vfs.c:218-225 | a read stays inside the data exactly if position plus size does not wrap |
| Tmpfs.GrowthIsEnough | vfs.c:242-253 | the data reach the end of a write exactly if position plus size does not wrap |
| Tmpfs.WrappedTransfers | vfs.c:222-253 | a read and a write for which they do wrap |
| Vfs.FileSystem.ModelWf | vfs.c:10-22 | the structures in memory always describe a prefix-closed tree with valid names and files at the leaves |
| Vfs.FileSystem.PathLookup | vfs.c:403-447 | 0 with the inode at the path, -2 with the directory and the missing last name, -1 otherwise, as the flat map decides; nothing is changed |
| Vfs.FileSystem.CreateTracked | vfs.c:131-176 | linking a new file keeps the inodes a finite tree with parent pointers and adds exactly that path |
| Vfs.FileSystem.Locate | vfs.c:454-475 | the existing file, or a new empty one if asked for; directories and bad paths are refused without a change |
| Vfs.FileSystem.Open | vfs.c:450-501 | the answer and the new state of the flat file system; a fresh file and vnode, put on the table exactly if it lists fewer than 64; a refusal opens nothing |
| Vfs.FileSystem.Read | vfs.c:504-513 | the answer, bytes and new state of the flat file system; NULL is refused |
| Vfs.FileSystem.Write | vfs.c:516-525 | a write step of the flat file system; NULL is refused |
| Vfs.FileSystem.Lseek | vfs.c:545-548 | the answer and new state of the flat file system; NULL is refused |
| Vfs.FileSystem.Close | vfs.c:528-542 | the handle is gone from the flat file system and from the table, and no other is |
| Vfs.FileSystem.Mkdir | vfs.c:551-563 | the answer and new state of the flat file system |
| Vfs.FileSystem.Init | vfs.c:323-375 | the root directory, empty, is mounted |
| Vfs.FileSystem.FreeSlot | vfs.c:491-497 | the table has a free slot exactly if it lists fewer than 64 handles |
| Vfs.FileSystem.RefCounts | vfs.c:262-283 | over any interleaving of opens and closes, a vnode's count is one more than the live handles on it |
| Vfs.FileSystem.Sharing | vfs.c:110-124 | two handles have different vnodes, and share an inode exactly if they were opened on the same path; otherwise their data are apart |
| Vfs.FileSystem.SiblingNames | vfs.c:138-157 | no two children of a directory have the same name |
| Vfs.FileSystem.WalkFromRoot | vfs.c:403-447 | going from the root by name through the arrays of children one arrives at an inode exactly along the path that the flat map has for it |
| Vfs.FileSystem.UniquePath | vfs.c:153-157 | an inode is reached along one path only, and its parent pointer is the inode reached along that path without its last name |
| VfsRun.Call | vfs.c:450-563 | one call, whichever it is, answers and steps as the flat file system does |
| VfsRun.Execute | vfs.c:323-563 | after `vfs_init`, any sequence of calls returns the codes and bytes of a run of the flat file system; the structures describe its last state, and the table is the one of the run |
| Console.TypeKeeps | kernel.c:445-480 | printed text stands where it is until the screen is cleared: no newline or later character erases it |
| Console.TypeText | kernel.c:454-457 | a text that fits appears cell by cell behind the cursor |
| Console.LinesLayout | kernel.c:449-457 | lines printed on a cleared screen stand one below the other from the first column, long ones wrapped |
| Console.Screen.UpdateCursor | kernel.c:399-406 | the two cursor registers hold 80 * y + x |
| Console.Screen.ClearScreen | kernel.c:502-514 | the cursor is at the first cell, every cell from there to the old cursor is blank, and those before it have attribute 7 |
| Console.Screen.NothingSurvives | kernel.c:502-514 | after a clear every cell is blank, or was never printed to since boot |
| Console.Screen.ShownCells | kernel.c:454-457 | every character shown is in its cell of the buffer, with attribute 5 |
| Console.Screen.StoreCell | kernel.c:454-457 | the cell at the cursor gets its character and attribute, and no other shown cell changes |
| Console.Screen.PutCell | kernel.c:449-457 | a character moves on by a cell, a newline to the next row, blanking the last cell of its row |
| Console.Screen.PrintChar | kernel.c:445-480 | the buffer and `VIDEO_MEMORY` refine the 80x25 terminal, and the cursor registers follow; from a valid state no character is dropped |
| Console.Screen.Print | kernel.c:482-489 | the terminal after the whole string |
| Console.HexTextReads | kernel.c:516-530 | "0x" and eight characters, each a digit or A to F, that read as the number to the base 16 |
| Console.HexTextsDiffer | kernel.c:516-530 | different numbers are printed differently |
| Console.Screen.FillHex | kernel.c:518-527 | the buffer holds eight hexadecimal digits that read as the number, and a NUL |
| Console.Screen.PrintHex | kernel.c:516-530 | "0x" and eight digits that read as the number appear |
| Console.Screen.TerminalIsProper | kernel.c:445-480 | nothing printed since the last clear is at or behind the cursor, which is on the screen |
| TypedLine.LineIsSuffix | kernel.c:290-305 | the line in progress is what was typed last, shorter than a row, without control keys |
| TypedLine.RowAfterPut | kernel.c:299-304 | after each key the row under the cursor still shows exactly the line, so the column is its length |
| Keyboard.ReadFromStart | kernel.c:373-376 | the first 100 bytes of the file stand in the buffer as a C string, and the byte behind the buffer is overwritten exactly for files that leave no room for the NUL |
| Keyboard.ReadNamed | kernel.c:371-382 | open, seek, read and close deliver the first bytes of the named file, if there is one, and leave files and handles as they were |
| Keyboard.PrintedIs | kernel.c:373-378 | what is printed of a file is its bytes from the first on, up to a NUL, the hundredth, or the end |
| Keyboard.HundredBytes | kernel.c:373-376 | a run that leaves a file of 100 bytes; reading it zeroes the byte behind the buffer, whatever stood there |
| BumpHeap.Heap.Malloc | stdlib.c:8-12 | the new block starts where the heap ended and overlaps no earlier one; between two lines the typed line stays at the end of the heap |
| BumpHeap.Heap.MallocAll | stdlib.c:8-12 | several blocks lie one behind the other |
| BumpHeap.Heap.Store | kernel.c:303-304 | a typed character goes to the end of the heap and of the line, and nothing below changes |
| BumpHeap.Heap.TakeLine | kernel.c:356-366 | the last column-many bytes are the typed line; the heap is rewound, and no block reaches behind its end |
| Keyboard.Kernel.Boot | kernel.c:12-148 | the first screen, the empty heap and the file system that `vfs_init` mounts fit together as the key methods ask |
| Keyboard.Kernel.KeyOrdinary | kernel.c:290-305 | the screen shows the key, the heap line and the screen's column stay in step |
| Keyboard.Kernel.KeyBackspace | kernel.c:286-289 | the screen is cleared and the line starts again |
| Keyboard.Kernel.EchoLine | kernel.c:316-366 | the path handed on is the typed line; the heap address is on the screen, and the heap ends where the line began |
| Keyboard.Kernel.KeyF | kernel.c:314-383 | the first bytes of the file named by the typed line are printed, the file system is as before, and the blocks it asked for follow the earlier ones |
| Keyboard.Kernel.KeyboardHandler | kernel.c:263-387 | every key but `w` and `q` leaves the screen, the keys, the line, the heap and its blocks as the key calls for, and a release leaves everything as it was; the files as they were, and keeps the coupling of column and heap |
| Keyboard.ReleasesDoNothing | kernel.c:272 | over any run of keys, dropping the releases changes nothing: what is typed is what is pressed |
| Keyboard.ControlKeys | kernel.c:286-305 | enter goes to the next row or clears a full screen, backspace clears it, and both end the line |
| Keyboard.PathThenF | kernel.c:290-382 | a path typed at the beginning of a row, and `f`: the row shows the path and the address of the end of the heap, the rows below the text of the file of that name if there is one; what stood above stays, and the line's bytes are given back |
| Keyboard.Kernel.Session | kernel.c:263-387 | the same over any run of such keys; in particular blocks stay apart whatever was rewound |
| Paging.ProductOverflows | kernel.c:569 | the product is in range exactly below entry 512, and right modulo 2^32 for all |
| Paging.BootEntryBits | kernel.c:562-571 | the upper ten bits number the 4 MB, and present, writable and 4 MB are all the other bits set |
| Paging.SetupPaging | kernel.c:562-571 | entry i maps the i-th 4 MB, present and writable |
| Paging.BootIdentity | mm.h:156-206 | with the boot directory the walk is the identity on all 2^32 addresses, paging on or off |
| Paging.PageTranslates | mm.h:156-206 | by arithmetic on any tables: directory and table are indexed four bytes per 4 MB and 4 KB, and an address translates to the base of its page plus its offset in the page, or to 0 if an entry on the way is not present |
| Paging.PagesAreWindows | mm.h:156-206 | with any tables: the addresses of one page, of 4 MB or 4 KB, translate to addresses that differ in just the same bits, or none of them is mapped |
| Paging.SplitLargePage | mm.h:156-206 | replacing a 4 MB entry by a table of 1024 frames from the same base leaves every translation unchanged |
| Dma.PaddingIsLeast | mm.h:67-69 | the padding reaches a multiple of any positive alignment, and no smaller one does |
| Dma.GrantedIfItFits | mm.h:57-101 | refused exactly if 256 blocks are handed out or the pool has no place for the request; otherwise it gets the first place there is, behind the earlier blocks, which stay |
| Dma.FreeMarks | mm.h:112-119 | only the first block at the address is marked, and no place changes |
| Dma.RunPacked | mm.h:57-119 | after any allocations and frees every block starts at the first suitable address behind the block before it |
| Dma.RunPlacesBlock | mm.h:57-119 | each block is in the pool, aligned as requested, at the least address behind the block before it |
| Dma.RunKeepsBlocksApart | mm.h:57-119 | blocks are in order and disjoint |
| Dma.RunOffset | mm.h:90-91 | the offset is the end of the last block |
| Dma.AdmitsIsRight | mm.h:72-78 | the room check is right exactly if the 32-bit sum does not wrap into the pool |
| Dma.WrappedRequest | mm.h:72-78 | a request of nearly the whole address space that is let through |
| Dma.ModestRequest | mm.h:72-78 | no wrap if size and alignment together stay below 2^32 less the size of the pool |
| Dma.DmaPool.Init | mm.h:40-46 | the pool is empty |
| Dma.DmaPool.Alloc | mm.h:57-101 | the block of the specification or NULL, zeroed, with every byte outside it unchanged; a request that wraps, and only such a one, is reported as leaving the pool |
| Dma.DmaPool.Free | mm.h:112-119 | the first block at the address is marked unused, and nothing else changes |
| Pci.AddressDecodes | pci.c:10-16 | the fields a host bridge takes from the address are the ones meant, with the reserved bits zero |
| Pci.AddressIsSum | pci.c:10-16 | the address as a sum: 64 KB for a bus, 2 KB for a device, 256 bytes for a function |
| Pci.ScannedDwords | pci.c:84-88 | which functions exist, are scanned and count as bridges, and the bus behind one, by the dwords of the configuration space |
| Pci.PortsRead | pci.c:7-23 | the answer to that address is the dword asked for |
| Pci.Ports.ReadConfig | pci.c:7-23 | writing the address and reading the data port delivers the register |
| PciTree.Descend | pci.c:131-136 | behind a bridge fewer buses can be reached, if no cycle can: the measure of the recursion |
| PciTree.ReportedIsReachable | pci.c:101-165 | everything the scan reports exists and lies behind the bus through bridges |
| PciTree.ScanIsComplete | pci.c:101-165 | the scan of a bus reports exactly the functions reachable from it |
| PciTree.ScanReportsOnce | pci.c:101-165 | no function is reported twice if and only if no two reachable bridges lead to the same bus with something on it |
| PciTree.BridgeThenBehind | pci.c:131-136 | preorder: what lies behind a bridge is reported right after it, uninterrupted |
| PciTree.SlotOrder | pci.c:139-165 | preorder: functions of one bus are reported in the order of device and function |
| PciTree.BusOrder | pci.c:139-165 | that order is device by device, and function by function on each |
| PciEnd.FuelEnough | pci.c:101-165 | without a reachable cycle, a bound on the depth by the number of reachable buses changes nothing |
| PciEnd.ScanEnds | pci.c:101-165 | the recursion of any configuration gives an answer at some depth if and only if no cycle of bridges can be reached |
| PciEnd.EndlessScan | pci.c:131-136 | a configuration for which it gives none at any depth |
| PciHeader.FoundByTheByteRead | pci.c:139-157 | a function other than 0 is found on its bus exactly if the byte that is read has its top bit set |
| PciHeader.FollowedByTheByteRead | pci.c:131-136 | what is on a bus behind one bridge is found exactly if the byte that is read calls that function a bridge |
| PciHeader.ScanIsHonest | pci.c:67-70 | if the true header types make no cycle: the scan by the byte read ends and reports what the scan by the true header types would, in the same order, if and only if the two agree on what is scanned and which bridges count on every bus that is truly there |
| PciHeader.HonestIsComplete | pci.c:67-70 | if they agree, the scan reports exactly what is reachable by the true header types |
| PciHeader.MultiFunctionMissed | pci.c:67-70 | a configuration in which the true multi-function bit is set and function 1 is missed |
| PciHeader.BridgeMissed | pci.c:67-70 | a configuration in which a device behind a true bridge is missed |
| PciHeader.BridgeMadeUp | pci.c:67-70 | a configuration without a bridge for which the scan never ends |
| PciScan.ReadDevice | pci.c:108-123 | the record holds the fields of the function |
| PciScan.RecordHoldsDwords | pci.c:108-123 | the fields of a record put together again are dword 0, the class dword without the revision, and the six base addresses |
| PciScan.EhciDwords | pci.c:204-213 | what is searched for is a function that exists and has class dword 0x0C0320 but for the revision |
| PciScan.ScanFunction | pci.c:101-137 | the callback is given the function and all behind it, or nothing if the function is absent |
| PciScan.ScanDevice | pci.c:139-157 | the callback is given what the eight slots of the device contribute |
| PciScan.ScanBus | pci.c:159-165 | without a reachable cycle the three mutually recursive functions end, and the callback is given the whole scan of the bus in order |
| PciScan.Scan | pci.c:184-187 | the callback is given each function reachable from bus 0, and none twice if and only if every bus with something on it has one way in |
| PciScan.FindEhci | pci.c:190-257 | found exactly if some bus has a function 0 of that class; then the record of the first one is handed out |
| PciScan.FindTheController | pci.c:190-257 | on a machine with just that controller the search ends, finds it, and hands out its record |
| Ata.RegistersNameTarget | ata.c:12-16 | the register bytes select the master drive, block mode, and the low 28 bits of the block number |
| Ata.Target | ata.c:12-16 | exactly the block numbers below 2^28 address the sector of that number |
| Ata.AwaitReady | ata.c:8-9 | the wait ends when the drive's finite busy time does |
| Ata.Issue | ata.c:8-28 | the drive is only written to when ready, and data is asked for exactly if it accepts the command |
| Ata.ReadSector | ata.c:5-38 | 1 with the 256 words that the drive delivers for the sector, or -1 with the buffer unchanged; 1 exactly if the command is accepted, whatever the error bit says of the words |
| Ata.WriteSector | ata.c:41-74 | 1 with that sector replaced by what arrives of the 256 words and all others unchanged, or -1 with no sector changed; 1 exactly if the command is accepted |
| Ata.Execute | ata.c:5-74 | any sequence of calls behaves as a store of sectors, where each command is refused, good or spoilt |
| Ata.ReadsLastWrite | ata.c:5-74 | a successful read returns what arrived of the last successful write to that sector, so the words written if and only if neither was spoilt into other words |
| Ata.LostWrite | ata.c:69-73 | a run in which a write is answered as done and the next read, successful too, returns other words |
| Boot.BlockOfParts | boot2.asm:204-215 | sector, head and cylinder put together again give the block number |
| Boot.PartsUnique | boot2.asm:204-215 | no other cylinder, head and sector give it |
| Boot.NoCollision | boot2.asm:216-217 | sector bits and high cylinder bits never meet in CL |
| Boot.FieldsNameBlock | boot2.asm:199-222 | the fields, with ten bits of cylinder, name the block modulo 1024 * heads * sectors per track |
| Boot.ReadsTheBlock | boot2.asm:199-258 | the block that is read is the one asked for if and only if there are extensions, or its number is below 2^16 and below 1024 * heads * sectors per track |
| Boot.WrongBlocks | boot2.asm:199-258 | two block numbers for which it is not |
| Boot.Cpu.LbaToChs | boot2.asm:199-222 | CX and DH unpack to sector, cylinder and head of AX; DL and every other register and the stack are restored |
| Boot.WorksOrGivesUp | boot2.asm:264-280 | the answers of the BIOS decide whether a read works or the error handler is reached, never both |
| Boot.Cpu.DiskReset | boot2.asm:299-306 | registers survive a reset that works |
| Boot.Cpu.Tries | boot2.asm:264-283 | the first of three tries that works ends the loop, with a reset after each failed one; otherwise it gives up |
| Boot.Cpu.Prepare | boot2.asm:242-262 | packet or registers ask the BIOS for the caller's count of sectors at the caller's address, from the block that stands for the caller's (`BlockRead`), which without extensions is the number modulo 2^16 and modulo the reach of ten cylinder bits |
| Boot.Cpu.DiskRead | boot2.asm:233-291 | on success the sectors from that block on are in memory and all registers and the stack are as before; outside the buffer nothing changes |
| Boot.Cpu.LoadOne | boot2.asm:103-109 | the sectors that are read for the extent are in memory, and ES has moved on by its length |
| Boot.EntryBytes | boot2.asm:95-98 | an entry of the list is the little-endian block number and the count |
| Boot.ByteOfImage | boot2.asm:103-109 | in the concatenation each extent stands behind the ones before it, byte by byte as on the disk |
| Boot.Cpu.LoadStage2 | boot2.asm:85-113 | memory from 0x7E00 is the concatenation of the sectors that are read for the list, which are the listed ones if all block numbers are small enough; or the error handler was reached after a read had failed for good; nothing else in memory changes |
| Boot.Cpu.LoadsTheList | boot2.asm:85-113 | whatever is on the disk, what is loaded is the concatenation of the listed extents: if and only if `ReadsTheBlock` holds of every extent that is not empty |

## Left out

- The `w` and `q` keys: they allocate between typed characters and print without storing, so the column no longer counts the
  bytes at the end of the heap, and the rewind of a later `f` may go back into an allocated block.
- Keyboard.ReadFromStart: says that the byte behind the buffer is overwritten, not what that byte belongs to.
- Keyboard.Kernel.Boot: stops before the lines that `kernel_main` prints and the blocks and files it makes; `Kernel.FinishF`
  shows that a printed line and its blocks keep what the key methods ask.
- Keyboard.Kernel.Session: asks that the heap has room for all keys and blocks; the code does not check.
- Failing allocations in `vfs.c`: the bump `malloc` never returns NULL, so these branches are unreachable.
- Mounting anywhere but at "/", a second `vfs_init`, and the table of registered file systems: a mount elsewhere is
  discarded.
- The `v_ops`, `f_ops` and mount pointers of a vnode: there is one file system, and the calls go to it directly.
- Using or closing a handle that was already closed.
- Paths.ParsePath: its components are returned by value, where the C function copies them into its caller's array, and the
  static pointer of `strtok` does not outlive the call; nothing uses it across calls.
- `path_lookup_t.filename`: a value, where the C code keeps a pointer into a dead stack frame.
- Addresses: `new` stands for `malloc` in the file system; that its blocks and the typed line do not overlap is shown in
  `BumpHeap` and `Keyboard`, where the blocks of each call are given by their sizes.
- Paging.SplitLargePage: asks that no other directory entry leads through the two pages that are rewritten; otherwise the
  rewriting would change what that entry maps.
- Dma.DmaPool.Alloc: promises nothing of the pool after a request that leaves it, since the code then zeroes other memory.
- PciScan.ScanBus: asks that no cycle of bridges can be reached; with one the recursion never ends, as `PciEnd.ScanEnds` shows.
- `pci_write_config`, `pci_enable_mmio` and `pci_dump_device`: one register write, and printing.
- What the BIOS does beside reading sectors: it is taken to keep ES and the stack, to leave the disk address packet alone,
  to store through linear addresses, without wrapping at the end of a 64 KB segment, and to unpack cylinder, head and sector
  with the geometry in the header of the boot sector (boot2.asm:23-24), which the code never asks the BIOS for.
- The rest of `boot2.asm` and the other assembly files: mode switching, video modes and messages.
- `ehci.c`, `main.c`, `hello_screen.c`, the interrupt controller, the interrupt table, control registers, pixels, and dumps of
  statistics.
