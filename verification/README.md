# Verification of a small operating system's stateful components

A Dafny model of the parts of the repository that keep state over long runs, with proofs of what
every run of them guarantees. Five components are covered.

* **The FAT file system** (`src/fat32.c`, over the block image of `src/external-inserter.c`). A disk
  is 2048 clusters of 2048 bytes; cluster 1 holds a map of 512 entries and directory tables have 64
  entries of 32 bytes, as `src/header/filesystem/fat32.h` lays them out. `Volume.dfy` says when a
  disk holds a well-formed volume and which tree of named files and directories it stands for.
  `FatOps.dfy` gives, for each operation, its return code, the map left in memory and the exact
  sequence of cluster writes. `FatDriver.dfy` is the driver as it runs, a class with its three
  buffers, proved against those outcomes; `FatSim.dfy`, `FatMkdir.dfy` and `FatDelete.dfy` prove
  that the outcomes do to the tree what `AbstractFs.dfy` says; `FatRuns.dfy`, `FatTheorems.dfy` and
  `FatExact.dfy` draw the conclusions about whole runs, `FatBlocks.dfy` about crashes, and
  `FatSystem.dfy` puts driver and tree together. `FatImage.dfy` and `FatAnswers.dfy` say the same of
  single bytes, for every disk: offsets, values, slots and codes are written out there, and
  `FatFirstWrites.dfy` shows the first writes on a new volume.
* **The console and the shell's line editor** (`src/framebuffer.c`, `handleInput` in
  `src/user-shell.c`). The 80x25 cell array refines a plain list of characters; the editor keeps
  screen and buffer in step.
* **The path printer** (`print_dir_tree`, `get_parent_directory`), over a mounted file system, and
  the string routines of `src/string.c`.
* **The frame allocator** (`src/paging.c`): bitmap, count and 32 page directories, 4 MiB pages as in
  the Intel SDM, Volume 3A, section 4.3.
* **The round-robin scheduler** (`src/scheduler.c`, with the lookup of `src/process.c` and the timer
  case of `src/interrupt.c`).

Code that changes things step by step is modelled by classes, arrays and loops. Each such method is
proved against a function of the old state, and the lemmas are about those functions. Fixed-width
integers are subset types; where the program can wrap round, the wrap-around is written out.

## What turned out not to hold

The model follows the code. Where a property one would expect fails, the project proves when it does
hold and gives a concrete case where it does not. The cases in `FatExamples.dfy` start from a volume
just created, so they also show that the premises of the theorems can be met.

* `read` asks for filesize/2048 + 1 clusters, so a file whose size is a multiple of 2048 is read one
  cluster beyond its chain, at the cluster number 0x0FFFFFFF (`FatTheorems.FullClusterFaults`,
  `FatExamples.FullClusterExample`).
* `delete` searches from slot 0, the directory itself (`FatExact.DeleteKeepsIff`,
  `FatExamples.SelfDeleteExample`); `write` of a directory drops the extension it checked for
  (`FatExact.MkdirKeepsIff`, `FatExamples.SameNameExample`).
* `delete` of a file never clears its map entries: its clusters stay reserved for ever
  (`FatDelete.DeleteSimulates`: the free set stays the same).
* A backspace in the shell clears the cell after the one it gives up, so the buffer keeps the
  character just erased until something is typed over it (`LineEditor.ErasedIff`,
  `LineEditor.StaleExample`).
* A directory name with a backslash in it is printed with its parts exchanged
  (`PathPrinter.PathComesOut`, `PathPrinter.BackslashExample`).
* Mapping a page twice, or releasing a directory with pages mapped, loses frames
  (`Paging.LosesDropped`, `Paging.LossExample`).

Where code and comments disagree, the model follows the code: `read` of a directory returns 0 and
its table rather than the documented 1 (the code tests `attribute == 1`, while directories carry
0x10); `read_directory` returns 2, never 1; `paging_allocate_check` counts frames, where its header
speaks of bytes; the buffer size of a read request does not limit what is delivered.

## Model

| member | source | states |
|---|---|---|
| `FatLayout.DecodeEncodeEntry` | src/header/filesystem/fat32.h:80-96 | A 32-byte directory entry survives being stored and loaded, with the cluster number split over the fields cluster_high and cluster_low. |
| `FatLayout.EncodeDecodeTable` | src/header/filesystem/fat32.h:99-101 | Loading any cluster as a directory table and storing it again changes no byte of it; with DecodeEncodeTable, tables and clusters are in bijection. |
| `FatLayout.DecodeEncodeTable` | src/header/filesystem/fat32.h:80-101 | A directory table of 64 entries survives being stored and loaded. |
| `FatLayout.DecodeEncodeFat` | src/header/filesystem/fat32.h:56-58 | The cluster map of 512 entries survives being stored and loaded. |
| `FatLayout.EncodeDecodeFat` | src/header/filesystem/fat32.h:56-58 | Loading any cluster as a cluster map and storing it again changes no byte of it. |
| `FatImage.DecodedImage` | src/header/filesystem/fat32.h:80-96 | Which byte of an entry means what: name at 0, extension at 8, attribute at 11, user attribute at 12, high half of the cluster number at 20, low half at 26, size at 28, low bytes first. |
| `FatImage.TableImage` | src/header/filesystem/fat32.h:99-101 | Entry s of a table is the 32 bytes from 32 s on; it is in use exactly if the byte at 32 s + 12 is 0xAA. |
| `FatImage.MapImage` | src/header/filesystem/fat32.h:56-58 | Entry i of the map is the four bytes from 4 i on, low byte first. |
| `FatImage.FileOnDisk` | src/fat32.c:261-337 | The whole disk after a successful `write` of a file, byte by byte: the 32 bytes of the first unused slot, the links of the lowest free clusters closed by 0x0FFFFFFF, the data in them in order and zeros behind it; no other byte changes. |
| `FatImage.DirectoryOnDisk` | src/fat32.c:50-106 | The whole disk after a directory has been created, byte by byte: 0x10 and 0xAA in the 32 bytes of the first unused slot, the map entry of the lowest free cluster, and in that cluster the entry itself, the parent entry under the name "..", and zeros; no other byte changes. |
| `FatImage.CreatedOnDisk` | src/fat32.c:22-36 | Clusters 1 and 2 of a new volume: the reserved values 0x0FFFFFF0 and 0x0FFFFFFF, the chain of the root, all else free; a root that is its own parent, and zeros. |
| `FatImage.DeleteOnDisk` | src/fat32.c:343-408 | A successful `delete` zeroes the 32 bytes of the first slot with the name and extension and no other of its table; a directory gives back its map entry and its cluster is zeroed; for a file the map stays. |
| `FatSteps.BootOnDisk` | src/fat32.c:4-12 | The boot block of an initialised storage, as it reads: five lines of text, zeros, and "Ok" at its end. |
| `FatFirstWrites.FirstFile` | src/fat32.c:261-337 | The first file of a new volume, ten bytes as "notes.txt": its entry, the map and its cluster as literal bytes. |
| `FatChains.ChainWellFormed` | src/fat32.c:273-311 | In a well-formed map a chain ascends strictly through entries in use and ends in END_OF_FILE, so walking it ends. |
| `FatChains.ChainsDisjoint` | src/fat32.c:273-311 | Two chains with different unlinked heads have no cluster in common. |
| `FatChains.LinkChainOk` | src/fat32.c:273-311 | Linking free clusters into a new chain keeps the map well-formed, takes exactly those clusters from the free set, and leaves the head unlinked. |
| `FatChains.LinkedIsChain` | src/fat32.c:273-311 | Clusters linked upward one to the next, the last marked END_OF_FILE, are exactly the chain of the first. |
| `FatChains.AscendingCount` | src/fat32.c:227-235 | The first-fit list of free clusters is as long as the free set has members. |
| `VolumeSteps.WriteUnowned` | src/fat32.c:327-330 | Overwriting a cluster that belongs to no live file or directory changes neither the tree a disk stands for nor its being well-formed. |
| `FatSim.WriteSimulates` | src/fat32.c:221-341 | On a well-formed disk `write` of a file or a directory leaves a well-formed disk standing for the tree the abstract write makes, with its return code: refused names, no free slot, no free cluster, success. |
| `FatMkdir.MkdirSimulates` | src/fat32.c:50-106 | Creating a directory takes the lowest free cluster, enters it in its parent, gives it its "." and ".." entries, and does to the tree what the abstract mkdir does. |
| `FatDelete.DeleteSimulates` | src/fat32.c:343-408 | `delete` of a file, an empty directory, a directory with members, the root, "..", or a missing name does to the tree and the free set what the abstract delete does, with its return code; deleting a file frees no cluster. |
| `FatRead.ReadAnswers` | src/fat32.c:174-219 | `read` of any name answers what the tree says: the bytes of a file followed by zeros to the cluster boundary, the table of a directory, or the code for a missing name or a zero size. A blank name that finds an unused slot gets the boot cluster. |
| `FatRead.ReadDirectoryAnswers` | src/fat32.c:141-171 | `read_directory` goes by the name alone: "." and ".." deliver the table of the directory, listing exactly its members; any other name returns 0 if and only if a member has it, under any extension, and delivers the first cluster of such a member, a listing or the beginning of a file; a blank name also finds an unused slot; otherwise the code is 2. |
| `FatAnswers.FirstNamedDelivered` | src/fat32.c:141-171 | On any disk `read_directory` of a name other than "." delivers the cluster of the first slot from 1 on with the name; none is code 2. |
| `FatAnswers.OwnDelivered` | src/fat32.c:146-149 | On any disk the name "." delivers the cluster the first entry of the table names. |
| `FatFirstWrites.TwoNamesExample` | src/fat32.c:151-156 | On a new volume, after writing "notes.txt" and making a directory "notes", `read_directory` of "notes" delivers the file, which stands in the earlier slot. |
| `FatAnswers.FirstRead` | src/fat32.c:174-219 | On any disk `read` goes by the first slot with name and extension: code 1 for attribute 1 or a zero size asked for, 2 if there is none; else it walks size / 2048 + 1 clusters, or none if the size is within 2048 of 2^32. |
| `FatAnswers.WalkFollows` | src/fat32.c:202-212 | The clusters `read` stores are those of the path it follows through the map, in order; it stays within the map exactly if every number on the path is below 512. |
| `FatAnswers.WriteCode` | src/fat32.c:221-341 | The return code of `write` on any disk, from its bytes: -1 without a free cluster or for a parent not in use, 1 for a name in use, -1 without a slot or with too few free clusters, else 0; if it is not 0 nothing is written. |
| `FatAnswers.DeleteCode` | src/fat32.c:343-408 | The return code of `delete` on any disk, by the first slot with the name and extension: 1 for none, -1 for the root, 2 for a directory with members, else 0; if it is not 0 nothing is written. |
| `FatRuns.RunSimulates` | src/fat32.c:141-408 | Every run of allowed operations, from any disk that stands for a tree, is defined, gives at each step the answer the tree gives, and ends on a disk standing for the tree the operations make, the boot sector untouched. |
| `FatTheorems.EveryRun` | src/fat32.c:22-408 | The same from `create_fat32` on, whatever the storage held before. |
| `FatTheorems.CreateStands` | src/fat32.c:22-36 | `create_fat32` leaves a well-formed volume holding an empty root, with exactly clusters 3 to 511 free. |
| `FatWrite.FileWriteAtomic` | src/fat32.c:315-336 | Crash atomicity: after any prefix of the cluster writes of a file `write` the disk is well-formed and stands for exactly the old tree; the clusters are taken only by the map write, and only the last write makes the new tree. |
| `FatBlocks.FileWriteBlockAtomic` | src/fat32.c:315-336 | Crash atomicity block by block: after any prefix of the 512-byte block writes of a file `write` the disk is, but for map links nothing refers to, a well-formed volume; it stands for the old tree until the one block of the parent table that holds the slot of the new file is stored, and from then on for the new tree. |
| `FatBlocks.AllBlocks` | src/external-inserter.c:23-31 | Storing every block of every cluster, in order, is making the cluster writes. |
| `FatBlocks.TornMap` | src/fat32.c:334 | A half-written map holds the new entries up to a block boundary and the old ones behind it. |
| `FatBlocks.TornTable` | src/fat32.c:335 | A table that changes in one slot is never seen half-changed. |
| `FatBlocks.PatchedReads` | src/fat32.c:174-219 | On what such a crash leaves every `read`, by the half-written map that is there, answers as the tree says. |
| `FatBlocks.PatchedLists` | src/fat32.c:141-171 | And so does every `read_directory`. |
| `FatTheorems.MapWellFormed` | src/fat32.c:50-106 | In every state a run reaches the reserved map entries stay reserved, links go strictly upward to entries in use, no cluster is linked to twice, and the chain of every member starts unlinked and ends in END_OF_FILE. |
| `FatTheorems.FilesDisjoint` | src/fat32.c:273-336 | Two files of a volume share no cluster, and no file runs through a directory. |
| `FatTheorems.WriteThenRead` | src/fat32.c:174-336 | Round trip: write a file, do any allowed operations but deleting it, read it back: its bytes come back, followed by zeros to the cluster boundary; and the read stays on the disk exactly when the size is no multiple of 2048. |
| `FatTheorems.FullClusterFaults` | src/fat32.c:195-212 | A file can be read without leaving the disk if and only if its size is not a multiple of the cluster size. |
| `FatExamples.NewStands` | src/fat32.c:22-36 | A volume just created meets the premise of the theorems about runs, standing for an empty root. |
| `FatExamples.FullClusterExample` | src/fat32.c:195-212 | On a new volume a file of 2048 bytes is reported written, and reading it back leaves the disk. |
| `FatTheorems.RunKeepsFile` | src/fat32.c:221-408 | No run touches the bytes of a file other than one that deletes it. |
| `FatTheorems.CacheIsAsGood` | src/fat32.c:174-219 | `read`, which never reloads the map, returns what it would with the map reloaded from disk, in every state a run reaches. |
| `FatRuns.WriteCoherent` | src/fat32.c:273-281 | Also after a `write` that ran out of clusters midway the map in memory agrees with the map on disk on every entry in use on disk. |
| `FatTheorems.LowestAreLowest` | src/fat32.c:227-279 | The clusters a file takes are the lowest-numbered free ones, as many as asked for. |
| `FatTheorems.WriteSucceedsIff` | src/fat32.c:271-281 | `write` of a new file succeeds if and only if as many clusters are free as its size needs, taking the lowest; otherwise it returns -1 and writes nothing to disk. |
| `FatTheorems.RunKeepsBoot` | src/fat32.c:121-129 | No run of allowed operations touches the boot sector, so the storage stays marked. |
| `FatExact.DepthUnique` | src/fat32.c:50-106 | A disk determines its live directories and how deep they are: the volume on it is unique. |
| `FatDelete.DeleteIsDefined` | src/fat32.c:343-408 | On a well-formed volume `delete` of any name in a live directory stays within the map and the disk. |
| `FatExact.DeleteKeepsIff` | src/fat32.c:349-406 | `delete` of any name is defined, and keeps a volume well-formed if and only if it neither takes an empty directory away from inside it nor is given a blank name that finds an unused slot (unless the boot cluster looks like a directory with members). |
| `FatExamples.SelfDeleteExample` | src/fat32.c:349-406 | Deleting an empty directory by its own name from inside it is reported done and leaves no well-formed volume. |
| `FatExamples.BlankDeleteExample` | src/fat32.c:349-406 | On a new volume with the signature in its boot cluster, deleting a blank name in the root is reported done and leaves no well-formed volume. |
| `FatExact.MkdirKeepsIff` | src/fat32.c:63-71 | Creating a directory keeps a volume well-formed if and only if its name, taken without the extension asked for, is neither blank nor in use in its parent. |
| `FatExamples.SameNameExample` | src/fat32.c:238-259 | Creating a directory a second time with an extension is not refused, and leaves two entries with one name. |
| `FatExamples.BlankMkdirExample` | src/fat32.c:63-71 | On a new volume, creating a directory with a blank name and an extension is not refused and leaves no well-formed volume. |
| `FatExact.DeleteFileFrame` | src/fat32.c:383-406 | `delete` of a file zeroes exactly the clusters of its chain, leaves the map as it is, blanks exactly one slot of the parent, and changes no other cluster. |
| `FatExact.ClimbsToRoot` | src/user-shell.c:223-259 | Following ".." from any live directory reaches the root after as many steps as the directory is deep. |
| `FatExact.OneHolder` | src/fat32.c:50-106 | Every directory but the root is a member of exactly one directory, the one its ".." entry names, under exactly one name, its own. |
| `BlockDevice.Device.ReadBlocks` | src/external-inserter.c:13-21 | Copies consecutive blocks out of the image. |
| `BlockDevice.Device.WriteBlocks` | src/external-inserter.c:23-31 | Copies consecutive blocks into the image and changes nothing else. |
| `FatDriver.Driver.ReadCluster` | src/fat32.c:121-124 | Delivers one cluster of the disk: byte for byte the 2048 bytes of the image from 2048 times its number on. |
| `FatDriver.Driver.WriteCluster` | src/fat32.c:126-129 | Replaces those 2048 bytes of the image and no other, and appends to the log of writes. |
| `FatDriver.Driver.Lookup` | src/fat32.c:240-244 | Finds the first slot with the name and extension. |
| `FatDriver.Driver.NextFree` | src/fat32.c:228-231 | Finds the first free map entry from an index on. |
| `FatDriver.Driver.AllocateChain` | src/fat32.c:267-313 | The allocation loop links the lowest free clusters into one ascending chain and enters the file in its slot, if and only if enough are free; failing that, the map in memory is left half linked. |
| `FatDriver.Driver.StoreData` | src/fat32.c:315-332 | The data loop follows the new chain and writes each part of the file, zero-padded, into its cluster. |
| `FatDriver.Driver.InitDirectoryTable` | src/fat32.c:50-106 | Writes the map, the parent table and the new table, in that order, for a directory in the first free cluster. |
| `FatDriver.Driver.InitRootTable` | src/fat32.c:50-106 | The same for the root, which is its own parent and is entered nowhere. |
| `FatDriver.Driver.WriteFile` | src/fat32.c:261-337 | Disk, map in memory, return code and log of writes are those of the file outcome. |
| `FatDriver.Driver.Write` | src/fat32.c:221-341 | Disk, map in memory, return code and log of writes after the imperative `write`, loops and buffers included, are those of the outcome the theorems speak of; after code 0 the disk is byte by byte what FileOnDisk and DirectoryOnDisk say. |
| `FatDriver.Driver.ZeroChain` | src/fat32.c:383-400 | The deletion loop ends and zeroes the clusters of the chain, one after the other. |
| `FatDriver.Driver.Delete` | src/fat32.c:343-408 | Disk, map in memory, return code and log of writes are those of the delete outcome. |
| `FatDriver.Driver.Read` | src/fat32.c:174-219 | Delivers the bytes the read outcome says, by the map in memory, and changes neither disk nor map. |
| `FatDriver.Driver.ReadDirectory` | src/fat32.c:141-171 | The front of the buffer is the cluster of the first slot with the name, the rest of it and disk and map stay; code 2 and an untouched buffer if there is none. |
| `FatDriver.Driver.IsEmptyStorage` | src/fat32.c:38-42 | True exactly when the boot sector does not carry the signature. |
| `FatDriver.Driver.CreateFat32` | src/fat32.c:22-36 | Marks the boot sector with the text of BootOnDisk, and makes the writes of the create outcome, from zeroed buffers: clusters 1 and 2 as CreatedOnDisk says. |
| `FatDriver.Driver.Initialize` | src/fat32.c:108-119 | Creates the file system on unmarked storage; on marked storage loads map and root and writes nothing. |
| `FatSystem.MountNew` | src/fat32.c:108-119 | Start-up of the driver on unmarked storage mounts an empty tree; boot block, map and root are the bytes BootOnDisk and CreatedOnDisk say. |
| `FatSystem.MountOld` | src/fat32.c:108-119 | Start-up on marked storage that holds a volume mounts the tree that was there. |
| `FatSystem.Write` | src/fat32.c:221-341 | The driver mounted on a tree does to it what the abstract write does, with its code; after code 0 the disk is byte by byte what FileOnDisk and DirectoryOnDisk say. |
| `FatSystem.Delete` | src/fat32.c:343-408 | The driver mounted on a tree does to it what the abstract delete does, with its code, for every allowed name; and for any name what it leaves is a well-formed volume exactly under the condition of DeleteKeepsIff. |
| `FatSystem.ReadFile` | src/fat32.c:174-219 | The driver fills the buffer with the bytes of the file and zeros, touches no byte of the buffer behind them, and leaves the tree mounted. |
| `FatSystem.ReadOwnTable` | src/fat32.c:141-171 | Reading "." delivers the table of the directory itself, listing its members. |
| `Console.Screen.Clear` | src/framebuffer.c:22-29 | Afterwards all 2000 cells are character 0 in colour 7, the cursor is at 0, and the screen shows the empty text. |
| `Console.Screen.Write` | src/framebuffer.c:17-20 | Sets the character and colours of one cell and nothing else. |
| `Console.Screen.ShiftUp` | src/framebuffer.c:51-61 | Every row moves up by one, characters and colours, and the last row is blank. |
| `Console.Screen.ScanBack` | src/framebuffer.c:77-86 | The backward scan of a backspace at the start of a row ends, on the screen, at the last character of the row above. |
| `Console.Screen.Erase` | src/framebuffer.c:72-89 | A backspace blanks the last cell in use before the cursor and puts the cursor there, and does nothing on an empty screen; the screen then shows the text without its last character, across wraps and newlines. |
| `Console.Screen.PutChar` | src/framebuffer.c:63-104 | Refinement: if the screen shows a text, it then shows that text with the character typed. On the cells: a visible character is written at the cursor, a newline without colour; the cursor moves one on or to the next row; past the last cell all rows move up; a backspace as for Erase; NUL does nothing. |
| `Console.Screen.Puts` | src/framebuffer.c:44-49 | The same for a string of characters, one after the other; if they are neither NUL nor backspace and nothing scrolls, the screen shows the text before and then the characters in order. |
| `Console.PutsInOrder` | src/framebuffer.c:44-49 | Whatever scrolls, a string without NULs and backspaces comes out in order: the screen shows an end of the text before it followed by its characters. |
| `Console.PutsFits` | src/framebuffer.c:44-49 | If the text and the string fit the 25 rows, all of both is shown. |
| `Console.PutsInParts` | src/framebuffer.c:44-49 | Putting u and then v is putting u + v. |
| `Console.PutsOne` | src/framebuffer.c:44-49 | Putting one character is typing it. |
| `Console.ShowsUnique` | src/framebuffer.c:63-104 | A screen with its cursor shows at most one text, so showing a text says everything about both. |
| `Console.TypedOnScreen` | src/framebuffer.c:90-104 | Writing a character at the cursor, and scrolling when the row was the last, is laying out the text with the character added. |
| `Console.InkShows` | src/framebuffer.c:63-104 | Where the cursor goes after a visible character, and that the screen then shows the longer text, scrolled if the cursor passed the last cell. |
| `Console.DropFirstLine` | src/framebuffer.c:98-101 | Dropping the first laid-out line of a text leaves the layout of the others as it was. |
| `LineEditor.Keystroke` | src/user-shell.c:1036-1066 | One keystroke changes the buffer as the line changes, and the screen exactly as the keystroke changes the text shown; keys the editor ignores change neither. |
| `LineEditor.HandleInput` | src/user-shell.c:1034-1066 | For every sequence of keystrokes the screen shows exactly what they make of the text that preceded the input: that text less what scrolled off, then the line typed; the length stays below 256 and the buffer holds the line; plain keystrokes are in the buffer as typed, with a NUL behind them. |
| `LineEditor.PlainKeys` | src/user-shell.c:1055-1062 | Keystrokes that are plain characters are the line, in order, up to 255 of them. |
| `LineEditor.PlainShown` | src/user-shell.c:1055-1062 | A plain line that fits the screen is shown in order behind the text before it, in colour 0x0F. |
| `LineEditor.InputOnScreen` | src/user-shell.c:1034-1066 | After any keystrokes the screen shows the text before the input without its first `Gone` characters, then the line; `Gone` grows only by the laid-out line a typed character makes scroll off. |
| `LineEditor.TypingKeeps` | src/user-shell.c:1055-1062 | A typed character goes behind the line, and what scrolls off comes from the text before it. |
| `LineEditor.ErasingKeeps` | src/user-shell.c:1047-1054 | A backspace takes the last character of the line and none of the text before it, whatever that text is. |
| `LineEditor.BackspaceSpares` | src/user-shell.c:1047-1054 | After any keystrokes, across wraps and scrolls, a backspace leaves of the text before the input exactly what was left of it. |
| `LineEditor.ScrollSparesInput` | src/user-shell.c:1034-1066 | When the screen overflows while a line is typed, the line scrolled off precedes the input. |
| `LineEditor.StringInBuffer` | src/user-shell.c:1047-1054 | The string in the buffer is the line followed by what a last backspace left behind it: it is the line exactly if that is nothing. |
| `LineEditor.ErasedIff` | src/user-shell.c:1047-1054 | A character stays behind in the buffer exactly if the last keystroke that changed anything was a backspace. |
| `LineEditor.StaleExample` | src/user-shell.c:1047-1054 | Typing one character and erasing it leaves an empty line on screen and the character in the buffer. |
| `PathText.NamesReversed` | src/user-shell.c:261-289 | For every string, the whole reversed and then each stretch between backslashes gives the same stretches in the opposite order. |
| `PathText.ReverseRange` | src/user-shell.c:265-272 | The two-pointer loop reverses a range in place and nothing else. |
| `PathText.FlipInPlace` | src/user-shell.c:274-290 | The loop over separators reverses every stretch between backslashes in place, for a text with a NUL behind it. |
| `PathPrinter.ReadHeaders` | src/user-shell.c:153-169 | Reading "." tells the cluster number of the directory, that of its parent, and its name. |
| `PathPrinter.Gather` | src/user-shell.c:223-259 | The walk up ends at the root, and collects the names on the way, each with a backslash; for the root its own name alone. |
| `PathPrinter.PrintDirTree` | src/user-shell.c:217-296 | On a mounted volume, for a directory whose path fits the buffer, the caller gets the collected names turned around, NUL-terminated; that is the path from the root, or for the root its name, if and only if every name shown is mirrored; the volume is left as it was. |
| `PathPrinter.PathComesOut` | src/user-shell.c:261-295 | The names collected on the way up, turned around, are the path from the root if and only if each name reads the same with the stretches between its own backslashes in reverse order. |
| `PathPrinter.MirroredIff` | src/user-shell.c:274-290 | A name meets that condition exactly if its stretches form a palindrome; a name without a backslash always does. |
| `PathPrinter.BackslashExample` | src/user-shell.c:274-290 | A name with a backslash in it comes out with its two parts exchanged. |
| `PathPrinter.PathExample` | src/user-shell.c:217-296 | Directory "b" in directory "a" in the root is shown as "\a\b". |
| `PathPrinter.RootText` | src/user-shell.c:244-258 | On a volume as created the text for the root is "root". |
| `Tokenizer.StrChr` | src/string.c:72-83 | Finds the first place of a character in a string, the terminator included. |
| `Tokenizer.CutToken` | src/string.c:59-67 | One call moves the cursor behind the first delimiter and overwrites it, or stops at the terminator. |
| `Tokenizer.Strtok.Next` | src/string.c:47-70 | With its static pointer: starts on a new string, goes on with the last one, or returns nothing when there is none. |
| `Tokenizer.TokensArePieces` | src/string.c:47-70 | Call after call returns the stretches between delimiters, empty ones included, in order, and the empty string from then on. |
| `Tokenizer.SplitLosesNothing` | src/string.c:47-70 | The stretches hold no delimiter, and with the overwritten delimiters between them they give the string back. |
| `Tokenizer.SplitUnique` | src/string.c:47-70 | They are the only stretches that do. |
| `Tokenizer.ExhaustedStays` | src/string.c:59-69 | Once all stretches are out a further call changes nothing. |
| `Tokenizer.AllCut` | src/string.c:59-67 | By then every delimiter of the string has been overwritten, and no other byte of memory. |
| `Memory.MemMove` | src/string.c:33-45 | Between two places in one buffer, every byte of the destination is what the source held before, also when they overlap, and no other byte changes. |
| `Memory.MemCmp` | src/string.c:20-31 | Zero exactly for equal bytes; else -1 or 1 as the first byte that differs is the smaller or the larger. |
| `Memory.CompareOrders` | src/string.c:20-31 | That order is antisymmetric, transitive and zero only on equal strings. |
| `Memory.CompareAt` | src/string.c:20-31 | The sign is decided where the strings first differ: -1 if the first string has the smaller byte there, 1 if the larger. |
| `Paging.Run` | src/paging.c:58-166 | After every run of allocating, freeing, creating and releasing directories from start-up: the count is the number of free frames, frame 0 is taken, and no two user pages of any directories map the same frame. |
| `Paging.AllocateInv` | src/paging.c:66-93 | An allocation succeeds if and only if a frame is free, hands out the lowest one, which nobody mapped, and keeps the ownership invariant. |
| `Paging.FreeInv` | src/paging.c:95-126 | Freeing succeeds exactly on a mapped page, gives back its frame, unmaps it, and keeps the invariant. |
| `Paging.CreateInv` | src/paging.c:128-151 | Creating takes the first unused directory, with no user page mapped, and keeps the invariant, whatever the uninitialised fields hold. |
| `Paging.ReleaseInv` | src/paging.c:153-166 | Releasing a directory unmaps its user pages and keeps the invariant. |
| `Paging.AllocateSets` | src/paging.c:66-93 | The state after an allocation at any page: the lowest free frame taken and counted, the entry present, writable, for user mode and 4 MiB large with the number of that frame, its other flags and middle bits as they were, and every other entry of every directory unchanged. |
| `Paging.FreeSets` | src/paging.c:95-126 | The state after freeing any page: those four flags and the frame number cleared, the frame given back and counted, all else unchanged; a page not present changes nothing. |
| `Paging.CreateSets` | src/paging.c:128-151 | The state after creating: the first unused directory in use, all its entries zero but entry 0x300, present, writable and 4 MiB large, its other bits those of the uninitialised entry; frames and other directories unchanged. |
| `Paging.ReleaseSets` | src/paging.c:153-166 | The state after releasing: the directory unused, all its entries zero, frames, count and other directories unchanged. |
| `Paging.StartIs` | src/paging.c:6-37 | At start-up frame 0 alone is taken, 31 are counted free, no directory is in use and every entry of the list is zero. |
| `Paging.LosesDropped` | src/paging.c:66-166 | Exactly which frames an operation loses for good: that of a page mapped a second time, and those of a directory released or created over while its pages are mapped. |
| `Paging.LossExample` | src/paging.c:66-93 | Mapping one page of a new system twice loses its first frame. |
| `Paging.CheckReserves` | src/paging.c:58-93 | `paging_allocate_check` says yes to n if and only if the next n allocations, wherever asked for, all succeed; their frames are distinct and ascending. |
| `Paging.UndoRestores` | src/paging.c:66-126 | Allocations at unmapped places, freed again in any order, restore bitmap, count and every mapping. |
| `FrameAllocator.PageDirectory.Update` | src/paging.c:39-49 | Sets flags and address of the entry for virtual address / 4 MiB, the address to physical address / 4 MiB; the bits between and all other entries stay. |
| `FrameAllocator.Allocator.AllocateCheck` | src/paging.c:58-64 | Compares the count of free frames. |
| `FrameAllocator.Allocator.AllocateUserPageFrame` | src/paging.c:66-93 | The search loop, bitmap, entry and count do what the specification says, with the uninitialised flag bits arbitrary; the entry for the address is as AllocateSets says, present, writable, for user mode and 4 MiB large, and nothing else changes. |
| `FrameAllocator.Allocator.FreeUserPageFrame` | src/paging.c:95-126 | The same for freeing, with FreeSets. |
| `FrameAllocator.Allocator.CreateNewPageDirectory` | src/paging.c:128-151 | The same for creating a directory, with CreateSets; null when all are in use. |
| `FrameAllocator.Allocator.FreePageDirectory` | src/paging.c:153-166 | Releases a directory of the list, as ReleaseSets says, and refuses any other, changing nothing. |
| `RoundRobin.Fair` | src/scheduler.c:33-47 | Fairness: from any start, with no process running included, any as many consecutive switches as there are occupied slots dispatch each of them exactly once and no other. |
| `RoundRobin.WindowTurns` | src/scheduler.c:33-47 | They come in the order of their numbers, counting round. |
| `RoundRobin.NextLowest` | src/scheduler.c:33-47 | The next slot is the lowest occupied one above the current, or the lowest of all; with no process running the search starts at slot 0. |
| `RoundRobin.SwitchStarts` | src/kernel.c:39-40 | The first switch makes exactly one occupied slot the running one and leaves every other slot, and every pid and context, as it was. |
| `RoundRobin.TicksKeep` | src/interrupt.c:47-60 | Every run of timer ticks keeps exactly one slot running, the current one; every other slot that had its turn is ready, the rest are in the state they were in; pids and page directories never change. |
| `RoundRobin.TickKeeps` | src/scheduler.c:19-50 | A tick saves the interrupted registers in the slot that was running and no other, and the next slot loads what it saved itself; the preempted slot is ready unless dispatched again, the dispatched one running, every other keeps its state, and all keep their pids. |
| `RoundRobin.SaveSets` | src/scheduler.c:19-31 | Saving, in any state, changes the first occupied slot with the current pid and no other: state ready, registers, eip and eflags those given, pid and page directory kept. |
| `RoundRobin.ResumesWhereInterrupted` | src/scheduler.c:19-50 | Context integrity over runs: when a slot interrupted earlier is next dispatched, what is loaded is exactly the registers, eip and eflags of that interrupt under its own page directory. |
| `Scheduler.Processes.CurrentPcb` | src/process.c:99-106 | Finds the first occupied slot holding the current pid, or none. |
| `Scheduler.Processes.SaveContext` | src/scheduler.c:19-31 | Makes the process found ready, with the eip, eflags and registers given, keeps its pid and page directory, and changes no other; nothing if there is none. |
| `Scheduler.Processes.FindNext` | src/scheduler.c:34-47 | With some slot occupied the search loop ends, at the lowest occupied slot above the current one or else the lowest of all. |
| `Scheduler.Processes.SwitchToNext` | src/scheduler.c:33-50 | Marks the slot found running, makes it current, and loads its context; no other slot changes. |
| `Scheduler.Processes.TimerTick` | src/interrupt.c:47-60 | Saves, then switches; from a state with one running slot to a state with one running slot, where the preempted process is ready unless dispatched again and every other keeps state, pid and context. |
| `Scheduler.FoundNext` | src/scheduler.c:39-47 | The first occupied slot met counting round is the next one. |

## Left out

- `cluster_count` of `read_clusters` and `write_clusters`: every caller passes 1, and the model has only that case.
- `FatDriver.Driver.Write`: the file branch searches for a free slot without a bound (`src/fat32.c:262-265`); the model requires that there is one. It also requires that the parent is not the map's own cluster and that map entries 1 and 2 are in use, as on every volume.
- `FatDriver.Driver.Delete`: requires that the entry found leads to clusters the map and the disk have, which every entry of a well-formed volume does.
- `FatDriver.Driver.Read`: once the walk leaves the disk the model stops and says so; what the original reads there is not modelled. The buffer must have room for all clusters asked for.
- `FatDriver.Driver.LoadTable` and its like: tables and the map are arrays of entries, decoded and encoded at each load and store, where the program copies bytes between typed structures; `FatLayout` proves the two the same. What is left in the directory and cluster buffers between calls is not stated: every operation reloads them.
- `FatRead.ReadDirectoryAnswers`: where several members share a name under different extensions, or a blank name could find a member or an unused slot, which of them is delivered depends on the order of the slots, which the tree does not record; `FatAnswers.FirstNamedDelivered` says it of the table.
- `FatWrite.FileWriteAtomic`: no crash claim is made for creating a directory or for `delete`, whose write order is not atomic; nor, in `FatBlocks`, for what further writes do on a volume left with reserved links.
- The parent of a request is a live directory; a request whose parent is the map cluster or a file is not modelled beyond `FatDriver`.
- Names and extensions are compared as values of 8 and 3 bytes, as `memcmp` of those lengths does; the bytes after the NUL of the name copied from "root" are arbitrary.
- `ceil` on doubles: integer division rounded up, exact for sizes below 2^32.
- `LineEditor.HandleInput`: reads a finite sequence of keystrokes; the keyboard driver, and the NUL characters it delivers while no key is down, appear as NULs in that sequence.
- `Console.Screen.SetCursor`: the cursor position is a field of the model, in place of the VGA ports; row and column are unbounded naturals within the screen, and 8-bit arguments never overflow there.
- `PathPrinter.PrintDirTree`: requires that the path is shorter than the 128-byte buffer. The error branch for a failed read is absent: on a mounted volume the read succeeds.
- `Paging.Run`: user pages only. The kernel's entry of a new directory carries an uninitialised address, and freeing it would index the bitmap with it; the model's `FreeDefined` rules that out.
- `FrameAllocator.Allocator.AllocateUserPageFrame`: the directory is one of the list, as in every caller; the boot-time directory and TLB flushes are not modelled.
- `RoundRobin.TicksKeep`: the occupied table is fixed during a run and slot i holds pid i. Creating and destroying processes (`src/process.c:9-79`, `114-130`) is left out: pid 0 marks a free slot as well as the first process, so the table has no clean invariant.
- `Scheduler.Processes.SwitchToNext`: requires an occupied slot; without one the original search never ends. Names and memory lists of processes are not part of the model.
- The kernel's "move" system call, the shell's commands and command parser, `find_in_directory`, the clock, keyboard tables, interrupt and descriptor tables, ATA ports and assembly.
- `strspn`, `strcmp`, `strcpy`, `memset`: easy, and nothing here rests on them beyond what is modelled in place.
