# Tartarus kernel: a verified model

Dafny 4.11 model of the parts of the Tartarus hobby kernel that lay structures out in raw memory, with
proofs of what those layouts promise. `dafny verify dfyconfig.toml` checks the whole project.

Memory is an array of bytes whose index is the physical address (the kernel identity-maps it, address 0
included). C stores and loads of 2, 4 and 8 bytes are little-endian stores and loads in that array, and
UINT32 and UINT64 wrap-around is written out where the code can meet it. Code that updates things in place is
a class or a method over the array, proved against a specification function; the theorems are lemmas
about those functions.

| file | models |
|---|---|
| Arith.dfy, Bytes.dfy | products and quotients; little-endian memory |
| HeapSpec.dfy | the block list as a value: first fit, splitting, right-only coalescing, and laws of whole runs |
| Heap.dfy | the allocator with its 24-byte headers inside the memory it hands out |
| FatSpec.dfy, Fat32.dfy | FAT32 sector arithmetic, cluster chains, the file commands on heap buffers |
| Sections.dfy, Imports.dfy, EntryScan.dfy | PE section mapping, import table rewriting, entry-point scanner |
| Loader.dfy | loading, section mapping, import rewriting and the entry scan over the shared heap |
| ExportImage.dfy | the synthetic DLL image and resolvers that read it |
| Paging.dfy | page-table construction and a 4-level page walk |
| Display.dfy, Scroll.dfy | the mouse cursor over the framebuffer; scrolling in place |
| HexText.dfy, ShellSpec.dfy, Shell.dfy | hexadecimal text, line editor, tokenizer, `alloc` and `free` |

## What the proofs find

- Free blocks are merged to the right only, although the repository's README.md line 18 promises coalescing without that limit:
  two neighbours released in address order stay apart (`HeapSpec.RightOnlyCoalescingLeavesPairs`). A release keeps a
  coalesced list coalesced exactly when its left neighbour is not free (`HeapSpec.ReleaseKeepsCoalesced`). Every
  well-bracketed run from a coalesced heap nevertheless restores the list (`HeapSpec.LifoRestores`), and from no other list
  without empty free blocks do they all (`HeapSpec.LifoRestoresExactly`);
  one `malloc`/`free` pair restores any list exactly when the block was split or its right neighbour was not
  free (`HeapSpec.FreeUndoesMalloc`).
- The load loop writes whole clusters into a buffer of the file size plus 512 bytes, a sum taken in 32 bits. For a
  given size that is enough exactly when the file is empty, or the sum does not wrap and the last cluster sticks out
  by at most 512 bytes (`Fat32.SpareSectorSuffices`); one byte in clusters of eight sectors, and 0xFFFFFE01 bytes in
  clusters of one, are too much (`Fat32.SpareSectorFails`). `Fat32.FileSystem.LoadFirstFile` needs the rounded-up size
  to fit the block that was granted.
- The FAT lookup is right for every cluster of every volume with 512-byte sectors (`FatSpec.NextReadsTheEntry`). The
  boot sector's own bytes per sector are never looked at: for any other value the lookup is right on every disk only when no
  sector is reserved (`FatSpec.SectorSizeMatters`).
- Data sectors are given to the drive in 28 address bits (src/ata.c:22), so it reads a cluster's own bytes exactly when
  the cluster's first sector is below 2^28 (`FatSpec.DriveReadsTheCluster`), and on a volume that fits 32 bits two
  clusters can read the same sectors (`FatSpec.ClustersConfused`).
- Only the first cluster of the root directory is looked at. It gives the entry that the whole chain gives exactly when it
  holds a file or ends the directory, or the rest holds none (`FatSpec.OneClusterOfTheRoot`); a first cluster of deleted
  entries hides a file behind it (`FatSpec.FileBehindTheFirstCluster`).
- For cluster sizes that divide 2^32 the load loop's 32-bit counter lets it stop on every FAT, cyclic ones included,
  exactly when the size is at most 2^32 less a cluster (`FatSpec.LoadStopsIff`).
- The export image has room for 96 names and no more (`ExportImage.CapacityIsExact`): the text of a 97th lies over the first
  trampoline (`ExportImage.NameOverTrampoline`).
- The PE path of `run` never frees its image, so on a coalesced heap the block list is the one before exactly when the
  image was not granted (`HeapSpec.ThirdAllocationLeaks`).
- `autopsy` does not check its cluster buffer. A NULL buffer is the memory at address 0, below the heap, so
  neither the block list nor the bytes drawn suffer; the precondition is that the heap starts above the
  first 128 KiB (the kernel puts it at 0x10000000).
- On a screen of fewer than 8 rows `ScrollScreen` does nothing: the start of its blanking loop wraps.

## Model

| member | source | states |
|---|---|---|
| HeapSpec.FirstFit | src/memory.c:22-43 | the index found is a free block large enough, and no block before it is |
| HeapSpec.FirstFitIsLowest | src/memory.c:19-44 | a positive request gets the lowest-addressed free block that fits, and NULL exactly when none does |
| HeapSpec.PointerBehindHeader | src/memory.c:39 | the pointer is 24 bytes into the first block that fits, or NULL |
| HeapSpec.MallocTiles | src/memory.c:27-35 | an allocation leaves the blocks tiling the heap without gap or overlap |
| HeapSpec.ReleaseTiles | src/memory.c:49-55 | a release leaves the blocks tiling the heap |
| HeapSpec.FreeUndoesMalloc | src/memory.c:19-56 | freeing what was just allocated restores the list if and only if the block was split or had no free right neighbour |
| HeapSpec.GivenBack | src/memory.c:19-56 | on any tiled list, a request given back at once leaves live blocks in place and what could be granted grantable, and the list unchanged if and only if the request was reversible |
| HeapSpec.HeldAndFreed | src/memory.c:19-56 | a buffer held while live blocks stayed, and then given back, leaves live blocks in place and a coalesced list unchanged |
| HeapSpec.LifoRestores | src/memory.c:19-56 | from a coalesced heap every well-bracketed run, of any nesting, failed requests included, gives the list back unchanged |
| HeapSpec.LifoRestoresExactly | src/memory.c:19-56 | among tiled lists without empty free blocks, the coalesced ones are exactly those that every well-bracketed run restores |
| HeapSpec.MallocPairs | src/memory.c:25-41 | an allocation loses exactly the free pair on its left and, unless split, the one on its right; it never adds one |
| HeapSpec.FreePairs | src/memory.c:46-56 | releasing a live block adds one free pair exactly when the left neighbour is free, whatever merges on the right |
| HeapSpec.ReleaseKeepsCoalesced | src/memory.c:49-55 | releasing a live block keeps a coalesced list coalesced if and only if its left neighbour is not free |
| HeapSpec.RunIsSound | src/memory.c:12-56 | over every run the list tiles the heap, the live blocks are the owned pointers, each between its request and its request plus 40 |
| HeapSpec.RunSeparates | src/memory.c:12-56 | after any run from boot distinct blocks are disjoint and inside the heap |
| HeapSpec.RightOnlyCoalescingLeavesPairs | src/memory.c:46-56 | a run from boot that ends with two adjacent free blocks |
| HeapSpec.ThirdAllocationLeaks | src/fat32.c:275-472 | of three requests only the first two given back: the list is the one before if and only if the third was not granted |
| Memory.WalkMeetsList | src/memory.c:22-42 | following `next` in memory from any block meets the rest of the list in order and stops at NULL |
| Memory.ListKept | src/memory.c:4-8 | writing inside one payload or outside the heap changes no header |
| Memory.ListKeptBytes | src/memory.c:4-8 | nor does changing any set of bytes of which none lies in a header |
| Memory.Heap.InitHeap | src/memory.c:12-17 | one free block over the whole heap |
| Memory.Heap.Malloc | src/memory.c:19-44 | the list in memory becomes the first-fit list, only bytes of the chosen block change, the split test does not wrap |
| Memory.Heap.Free | src/memory.c:46-56 | the list in memory becomes the released list, only bytes of the freed header change |
| Memory.Heap.Calls | src/memory.c:19-56 | over any run of calls in memory, a payload that stays live keeps its place and its bytes |
| FatSpec.NextReadsTheEntry | src/fat32.c:93-107 | with 512-byte sectors, whatever was mounted, the lookup is the 28-bit little-endian entry at byte 4c of the FAT |
| FatSpec.SectorSizeMatters | src/fat32.c:78-84 | for any boot sector the lookup is the entry where the specification puts it, on every disk, if and only if its sectors have 512 bytes or none is reserved |
| FatSpec.EntriesDisjoint | src/fat32.c:93-107 | distinct clusters own disjoint FAT entries, each within one sector |
| FatSpec.BootSectorReads | src/fat32.c:78-84 | a boot sector whose bytes spell reserved sectors, FATs, FAT size, root and sectors a cluster is read as exactly those, with the data behind the FATs |
| FatSpec.ClustersDisjoint | src/fat32.c:134 | on a volume whose sectors fit 32 bits distinct clusters get disjoint sector numbers, those of the FAT specification |
| FatSpec.DataSectors | src/fat32.c:134 | cluster 2 starts the data area and each cluster is followed by the next |
| FatSpec.DriveReadsTheCluster | src/ata.c:22-27 | the drive reads a cluster's own bytes, on every disk, if and only if its first sector is below 2^28 |
| FatSpec.ClustersConfused | src/ata.c:22-27 | two clusters of one volume, with FATs that hold both entries, for which the drive delivers the same bytes, whatever the disk |
| FatSpec.PassedPrefix | src/fat32.c:133-151 | the clusters a walk has passed are a prefix of the chain's concatenated bytes |
| FatSpec.TurnFits | src/fat32.c:229-234 | a turn is taken only while a cluster of the file is missing, and its cluster fits the rounded-up size |
| FatSpec.StoppedWithTheFile | src/fat32.c:133-151 | a walk that stops has passed the whole file: its chain's clusters concatenated, cut to the size |
| FatSpec.FileBySpec | src/fat32.c:133-151 | on a legal chain within the drive the kernel's file is the one built from FAT entries and data sectors by the specification |
| FatSpec.OneClusterOfTheRoot | src/fat32.c:116-122 | the first cluster alone gives the entry of the whole directory if and only if it holds a file or ends it, or the rest holds none |
| FatSpec.FileBehindTheFirstCluster | src/fat32.c:116-122 | a root cluster of deleted entries before a file: the commands find nothing |
| FatSpec.TheFileBySpec | src/fat32.c:110-151 | by the commands' own choice of entry: they find the entry that the root's whole chain gives if and only if its first cluster decides, and then the file is the one the specification places, on a volume the drive can address |
| FatSpec.FirstFileIsListed | src/fat32.c:180-185 | the file that `autopsy` and `run` pick is one `ls` shows, and only directories are shown before it |
| FatSpec.EntryReads | src/fat32.c:124-131 | an entry whose bytes spell a cluster, high half at 20 and low half at 26, and a size is read as exactly that cluster and size |
| FatSpec.FirstFileExactly | src/fat32.c:118-122 | the file picked is the first entry that is no end mark, deleted entry, plain directory or long-name part, with no end mark before it |
| FatSpec.ListedExactly | src/fat32.c:180-185 | an entry is shown if and only if no end mark is at or before it and it is neither deleted nor a long-name part |
| FatSpec.RowReads | src/fat32.c:188-203 | a line is the 11 name bytes with the size the entry spells, or, with attribute bit 4 set, a directory mark |
| Fat32.FileSystem.AtaReadSectors | src/ata.c:21-41 | on success the target holds the named sectors; on failure those that came before it; nothing else changes |
| Fat32.FileSystem.InitFAT32 | src/fat32.c:72-90 | the volume fields are those of the boot sector when it was read, else unchanged; live blocks stay and the block list is unchanged if and only if the request was reversible |
| Fat32.FileSystem.GetNextCluster | src/fat32.c:93-107 | the FAT entry, or the end mark without buffer or sector; live blocks and live memory stay; the list is unchanged if and only if the request was reversible |
| Fat32.FileSystem.AutopsyChain | src/fat32.c:133-151 | on any FAT and whatever is read, at most ceil(size / cluster size) turns read a whole cluster and as many clusters are drawn, cut to the size; it stops earlier than its turns run out once that many did; what is drawn is the file |
| Fat32.FileSystem.AutopsyFirstFile | src/fat32.c:109-161 | what is drawn is the file of the root's first cluster, by the kernel's choice of entry, when nothing fails; once it returns live blocks are in place and a coalesced list is unchanged, whatever failed; it returns unless its turns see fewer whole reads than the file has clusters |
| Fat32.FileSystem.ListRootDirectory | src/fat32.c:163-207 | a line with name and size for every entry listed, or nothing without buffer or sectors; live blocks stay and the list is unchanged if and only if the request was reversible |
| Fat32.FileSystem.LoadChain | src/fat32.c:229-234 | at most ceil(size / cluster size) turns on any FAT, all inside the buffer's block; the buffer holds the file |
| FatSpec.LoadStopsIff | src/fat32.c:229-234 | for cluster sizes that divide 2^32 the loop stops on every FAT if and only if the size is at most 2^32 less a cluster |
| Fat32.FileSystem.LoadFirstFile | src/fat32.c:209-234 | the buffer holds the same file that `autopsy` draws; both buffers are live |
| Fat32.FileSystem.Unload | src/fat32.c:471-472 | after a raw binary both buffers are back: live blocks are in place and a coalesced list is unchanged |
| Fat32.SpareSectorSuffices | src/fat32.c:223-233 | for each size the 32-bit request covers the rounded-up size if and only if the file is empty, or the sum does not wrap and the last cluster sticks out by at most 512 bytes |
| Fat32.SpareSectorFails | src/fat32.c:223-233 | two sizes for which it does not |
| Sections.LastCover | src/fat32.c:286-296 | the section returned covers the offset and no later one does |
| Sections.TableReads | src/fat32.c:277-289 | a file whose bytes spell its NT headers, section count, optional header size and section fields is read as exactly those sections |
| Sections.MapImage | src/fat32.c:277-296 | each image byte is the file byte of the highest-numbered section covering it, or untouched; nothing else changes |
| Sections.DisjointSectionsComplete | src/fat32.c:286-296 | the bytes of a section that overlaps no other are in the image in full |
| Imports.EmitDecodes | src/fat32.c:328-339 | the trampoline bytes decode to the name's address and the trap, and nothing else changes |
| Imports.PatchExact | src/fat32.c:323-345 | the k-th by-name slot points to its own trampoline, which decodes to its name and the trap; by-ordinal slots stay |
| Imports.PatchFrame | src/fat32.c:318-347 | only trampolines and by-name slots change |
| Imports.PatchImports | src/fat32.c:310-348 | the two loops serve every slot of every descriptor in order, in place or not; with address tables apart, memory is as BoundExactly says |
| Imports.InPlaceMakesNoDifference | src/fat32.c:319-321 | two memories, one without lookup tables and one with lookup tables of equal contents: afterwards they agree in the pool, in the by-name slots and wherever they agreed |
| Imports.TablesSeparate | src/fat32.c:319-344 | address tables that share no byte have slots that share no byte |
| Imports.BoundExactly | src/fat32.c:310-348 | with address tables apart: entry k of descriptor d by name points to its own trampoline in the pool, which leads to its name and the trap; by-ordinal slots and every byte outside pool and by-name slots are unchanged |
| Imports.DescriptorReads | src/fat32.c:318-321 | where descriptor d lies and what its fields say: 20 bytes each, up to one without a name |
| Imports.NameReached | src/fat32.c:323-343 | for an entry without that bit, the slot points into the pool at a trampoline that jumps to the trap with the address of the text behind the two hint bytes at its low 31 bits |
| Imports.OrdinalKept | src/fat32.c:324 | an entry with its highest bit set keeps its slot |
| Imports.PoolCleared | src/fat32.c:314-315 | the 0x5000 bytes of the pool behind the trampolines are zero |
| Loader.FileApartFromImage | src/fat32.c:223-275 | the image granted by the heap never meets the file buffer, which is still live |
| Loader.LoadImage | src/fat32.c:275-296 | each covered image byte is the file byte of the last section covering it; the file survives and the block list is that of one more allocation |
| Loader.LoadProgram | src/fat32.c:209-296 | from disk to image: each covered image byte is the byte that the volume's first file has at its raw offset |
| Loader.BindImage | src/fat32.c:310-348 | rewriting the imports inside the image changes no heap header, and is exact as BoundExactly says |
| Loader.StartProgram | src/fat32.c:310-352 | with the imports bound every image byte but the by-name slots is still the file's, every import is exact, and the entry is what the scan of that memory gives |
| EntryScan.FindOriginalEntryPoint | src/fat32.c:17-64 | the result, in terms of the bytes alone: the end of the instruction plus its signed displacement, for the first MSVC chain, else the first GCC call, else the entry point |
| EntryScan.DisplacementReads | src/fat32.c:25-58 | four bytes that spell a signed displacement are read as it |
| EntryScan.VerdictUnique | src/fat32.c:17-64 | that description determines the result |
| EntryScan.ScanMovesWithTheImage | src/fat32.c:17-64 | when the bytes the scan looks at move by d, whatever becomes of the rest of memory, the result moves by d modulo 2^64 |
| ExportImage.CopyApiName | src/api_manifold.c:34-38 | at most 127 characters and a zero, and nothing else changes |
| ExportImage.BuildUniversalExportTable | src/api_manifold.c:61-106 | the finished image has every header field and every entry in place: no write clobbers an earlier one |
| ExportImage.HeaderLayout | src/api_manifold.c:62-83 | where the header fields are and what they hold |
| ExportImage.EntryLayout | src/api_manifold.c:88-105 | where the number fields, the text and the trampoline of entry i are, and the trampoline's bytes |
| ExportImage.EntryReads | src/api_manifold.c:88-105 | name i, ordinal i and function i lead to (i, trap), and no function address is a forwarder |
| ExportImage.SearchFinds | src/api_manifold.c:88-105 | for distinct names a search in order finds each with its own index and the trap |
| ExportImage.ExportRoundTrip | src/api_manifold.c:61-106 | for sorted names linear and binary search agree, find exactly the names of the table, each with its index and the trap |
| ExportImage.CapacityIsExact | src/api_manifold.c:88-105 | no two entries share a byte if and only if there are at most 96 |
| ExportImage.NameOverTrampoline | src/api_manifold.c:89-96 | a 97th name of plain text undoes the first trampoline |
| ExportImage.UniversalApiTrap | src/api_manifold.c:40-45 | the trap records the name of the index it is given |
| Paging.OrIntoAligned | main.c:295-300 | flags or-ed into an aligned address are added to it |
| Paging.SetupPaging | main.c:292-303 | all 5120 entries of the tables, for any aligned placement |
| Paging.IdentityBelow8GiB | main.c:292-303 | a 4-level walk maps every address below 8 GiB to itself by a 2 MiB page that may be written |
| Paging.NothingElseMapped | main.c:292-303 | every other canonical address is not present |
| Display.CursorShape | src/display.c:121-128 | the cells drawn are exactly the on-screen part of the 5 by 5 square at the mouse |
| Display.CursorPixels | src/display.c:121-128 | red on the on-screen part of the 5 by 5 square, the picture elsewhere |
| Display.Screen.SaveMouseBg | src/display.c:103-110 | every hidden pixel is kept |
| Display.Screen.RestoreMouseBg | src/display.c:112-119 | the picture is back, pixel for pixel |
| Display.Screen.DrawMouseCursor | src/display.c:121-128 | the picture with a clipped cursor, and nothing else |
| Display.Screen.MouseHandler | src/mouse.c:31-48 | one interrupt of the three-byte packet machine, clamped to the screen |
| Display.PacketMoves | src/mouse.c:31-48 | three mouse bytes that spell signed steps move the mouse by them and keep it on the screen; with flag bit 6 or 7 set it stays |
| Display.MouseFollowsPackets | src/mouse.c:31-48 | byte by byte over any interrupts, the mouse is where its packets, taken whole, move it |
| Display.Screen.Redraw | main.c:357-366 | a redraw keeps the overlay invariant and leaves no pending move |
| Display.Screen.MainLoop | main.c:351-368 | over every interleaving of interrupts and passes the screen is the picture with one cursor, the hidden pixels kept |
| Scroll.ScrollScreen | src/display.c:80-91 | every visible row becomes the one 8 below it, the last 8 are blank, pixels beyond the width stay; below 8 rows nothing changes |
| HexText.HexToString | src/shell.c:48-52 | the buffer holds the printed value and a final zero |
| HexText.HexPrints | src/shell.c:48-52 | what is printed: "0x" and sixteen upper-case digits, the highest first |
| HexText.HexToInt64 | src/shell.c:35-47 | the value of the digits read, in 64 bits |
| HexText.NumberReads | src/shell.c:35-47 | any digits in any case, with "0x", "0X" or no prefix, are read as the sum of digit times power of 16, in 64 bits, up to the first other character |
| HexText.HexRoundTrip | src/shell.c:35-52 | every 64-bit value printed is read back |
| ShellSpec.TokensOfJoined | src/shell.c:58-70 | the tokenizer undoes joining tokens that fit with spaces |
| ShellSpec.Commands | src/shell.c:119-148 | "alloc" and "free" hand the value of their argument on, and do nothing without one |
| ShellSpec.EnterClears | src/shell.c:54-56 | Enter leaves an empty line alone, and does no more than clear one that is no heap command or is granted nothing |
| ShellSpec.KeysOk | src/keyboard.c:27-77 | whatever is typed short of an unsafe line, line and clipboard stay within their buffers and the heap stays tiled |
| ShellSpec.ModifierKeys | src/keyboard.c:30-41 | Caps Lock toggles, Shift and Ctrl hold until their own release |
| ShellSpec.EditingKeys | src/keyboard.c:42-60 | Backspace takes the last character, Ctrl+V pastes as far as 255 characters |
| ShellSpec.LetterKeys | src/keyboard.c:20-72 | every letter key adds its letter, in upper case exactly when one of Caps Lock and Shift is on |
| ShellSpec.ClipboardRoundTrip | src/shell.c:124-145 | for every 64-bit value: typing "free " and pasting it printed makes a line that the tokenizer hands to `free` as exactly that value, and Enter does so |
| ShellSpec.AllocThenPasteFree | src/shell.c:119-145 | `alloc`, then "free " and a paste, restores the block list if and only if the allocation was reversible; on a coalesced heap it is |
| Shell.Console.KeyboardHandler | src/keyboard.c:27-77 | one keyboard interrupt over the buffers is one step of the state machine |
| Shell.Console.ExecuteCommand | src/shell.c:54-148 | Enter tokenizes, dispatches and clears the line |

## Left out

- The drive, PIC, PCI and PS/2 handshakes: a read command is an oracle that says how many sectors arrive.
- Inline assembly, descriptor tables, control and debug registers, running a payload, page-fault recovery: processor behaviour outside the model.
- Fonts, strings and colours: presentation; the autopsy loop returns the bytes it draws.
- The PEB/LDR ring, the amnesia page, PCI addresses and memory-map totals: fixed-size or one-loop facts.
- Fat32.FileSystem.AutopsyFirstFile: takes the number of turns it may use, because on a cyclic chain whose data reads keep failing the original need not return; of runs that do not, only which reads failed is said.
- Fat32.FileSystem.LoadFirstFile: the file buffer is not checked in the original, so the request must succeed and the rounded-up size must fit; the payload is not run.
- Imports.PatchImports: the original checks neither the tables nor the 640 trampolines of its pool; null-terminated lookup tables clear of the pool and of what is written before they are read, and room in the pool, are preconditions. Exactness also takes address tables that share no byte.
- Sections.MapImage: the original does not check the section table; a table within the file and the image is a precondition.
- Loader.LoadImage: the 2 MiB request is not checked in the original and must succeed; the file sections must lie within the buffer and the image.
- Loader.LoadProgram: the drive must deliver, the three requests must succeed, and the file must have its section table and sections in bounds; the original checks none of this.
- Loader.StartProgram: the addresses of the import directory and of the entry point are given, not read from the headers; the image must lie above the pool.
- Loader.BindImage: the slots must lie inside the image; the fixed pool at 0x04000000 must end below the heap, as it does in the kernel.
- ExportImage.BuildUniversalExportTable: any table of at most 96 names under 64 characters, not the shipped 70 names in particular.
- Display.Screen.MainLoop: no other drawing while the cursor is shown, a mode of at least 5 by 5 pixels; the wake-up after `hlt` is not modelled, so a redraw may be late but never wrong.
- ShellSpec.KeysOk: runs that enter a command of another part (`sysinfo`, `ls`, `autopsy`, `run`, `crash`, and `read`, `diskread` and `write` with their arguments), or `free` with an address that is neither NULL nor a payload on the list.
- Shell.Console.ExecuteCommand: the same commands are excluded; those that only show something leave the state alone.
- ExportImage.UniversalApiTrap: what it shows on the screen, and the halt.
- UpdateCursor, the prompt and ELF detection: single branches.
