# Linux introspection from raw memory: a verified model

memflow-linux rebuilds facts about a Linux system from raw memory words: which regions a process has mapped, which
modules they belong to, what a file's path is, how kernel structures are laid out, what the kernel's symbols are
called, and where the kernel itself was loaded. This project models the code that does so and proves what it returns.

Every reader is proved in two ways. On *every* memory, corrupt or cyclic, it ends, stays within its bounds and returns
only what memory says. On every *well-formed* memory, described by a representation predicate, it returns exactly the
abstract value the memory represents.

Memory is a record of partial functions from addresses to bytes, words and strings (`Memory.dfy`), or from physical
addresses to bytes (`Scan.dfy`), so any read may fail and no two reads need agree. Code that works step by step is
modelled by methods, loops and classes that are proved equal to a specification function or predicate; the theorems are
lemmas about that specification. Their statements speak of the words and bytes in memory, of literal values, and of
predicates that the code does not use, so that they do not rest on the functions they are about.

## The parts

- `Paths` — climbing dentries and mounts to a path.
- `MapleTree`, `MapleRefinement`, `MaplePartition` — the maple-tree walk: on any memory, on well-formed trees, and the
  index ranges it hands to slots.
- `LinuxProcess` — the linked-list walk, its agreement with the maple walk, and the caches of a process.
- `VmaRanges`, `ModuleSeeds` — merging VMAs into memory ranges and clustering them into modules.
- `Btf`, `BtfEncoding` — the BPF Type Format: the parser, and an encoder written from sections 2.1 and 2.2 of the
  kernel's BTF document.
- `BtfNames`, `BtfResolver`, `BtfTermination`, `Defs` — the recursive resolver: the names it gives, what it computes,
  when it ends; and field lookup through anonymous members.
- `Kallsyms`, `KallsymsLayout`, `Alignment` — the compressed symbol table, and finding its parts by rounding addresses.
- `Scan`, `Bootstrap`, `BootstrapScans`, `Discover`, `Signature`, `KernelSearch` — windowed searches of physical memory
  and the validation of what they find.
- `Cache`, `Text` — the cache file's text form; numbers as text.
- `Wrappers`, `Memory`, `Sorting`, `Bits` — shared vocabulary.

## What turned out not to hold, and when it does

- The substring iterator reports only non-overlapping matches, so a windowed scan visits every occurrence exactly for
  patterns without a border (`Scan.FindIterCompleteIff`). The name `swapper/0` and the `Linux version ` prefix have none.
- The banner scan and the `swapper/0` scan can never find a kernel that the candidate scan before them missed
  (`BootstrapScans.FallbacksAreRedundant`): their text addresses are aligned and in memory, so they were tried.
- A kernel found through a hint lies at the hinted text address; it is aligned exactly if the hint is
  (`Bootstrap.AttemptIff`, `BootstrapScans.DiscoverKernel`).
- The legacy kallsyms walk recovers the placement exactly for alignments of eight bytes or more
  (`KallsymsLayout.LegacyRecovered`), and a legacy table is used exactly when the modern guess exists and is implausible
  (`KallsymsLayout.NewFindsLegacy`). A legacy table that opens with absolute addresses is never plausible
  (`KallsymsLayout.PlausibleIffKernelPointers`).
- A parsed enum record is the encoded one exactly when none of its enumerators is unsigned with the top bit set, because
  the parser ignores the kind flag of enums (`BtfEncoding.EnumeratorsKept`); `BtfEncoding.NegativeEnumerator` is an enum
  that comes back negative.
- Resolving a reference ends exactly when the references it follows do not come back to a record without going through a
  struct or union (`BtfTermination.EndsIffNoLoop`). A typedef of itself exhausts every depth
  (`BtfTermination.SelfTypedefNeverEnds`). A cycle in the file is not enough: an array of itself with a missing index
  type ends with an error (`BtfTermination.MissingIndexEnds`).
- Two records can share a generated name, in some order of naming, exactly when a record is really called what a second
  one becomes when a third has taken its name (`BtfNames.SharesIffClash`). Without such a clash every entry is its own
  record (`BtfResolver.OwnRecord`); `BtfResolver.ClashExample` is a run that ends with a wrong entry.
- The signature search looks at nothing when memory is shorter than the longest signature, even if a shorter one matches
  (`KernelSearch.ShortMemoryIsMissed`).

## Model

| member | source | states |
|---|---|---|
| Paths.ReadPathComponents | memflow-linux/src/util.rs:61-153 | the nested climbing loops compute the component list that the specification defines, on every memory, within 256 dentries per mount and 64 mounts |
| Paths.ReadWithoutMount | memflow-linux/src/util.rs:75-99 | the climb without a mount |
| Paths.ReadWithinMount | memflow-linux/src/util.rs:108-132 | the climb inside one mount, and whether it ends there for good |
| Paths.ClimbDentriesFollowsChain | memflow-linux/src/util.rs:75-99 | without a mount, a chain of dentries gives its names, leaving out the name of the dentry without a parent at its end |
| Paths.ClimbMountsFollowsChain | memflow-linux/src/util.rs:101-152 | a chain of mounts gives the shown names of all its segments, crossing mount points in order, up to the process root, the topmost mount, a dentry without a parent, or the limit |
| Paths.ReadPathReconstructs | memflow-linux/src/util.rs:156-185 | wherever the names of a file lie in memory, its path is each of them after a slash, from the process root down to the file, and a single slash when there are none; if no name holds a slash, splitting the path at slashes gives the names back |
| Paths.ReadPathHasNames | memflow-linux/src/util.rs:61-185 | on every memory a path is returned exactly when memory holds such names for the file; everything else is an error |
| MapleTree.TagBits | memflow-linux/src/process.rs:710-722 | the node type is decided by the tag bits and the four type bits under their masks |
| MapleTree.NodeBits | memflow-linux/src/process.rs:500 | the node address is the entry without the bits of the low byte |
| MapleTree.DataEndInNode | memflow-linux/src/process.rs:588-644 | on every memory the data end is a slot of the node; zero when a needed end marker is missing; an error exactly when the last pivot is missing |
| MapleTree.ReadVmaMeaning | memflow-linux/src/process.rs:661-702 | a VMA is read exactly when memory holds it, with the words and path that are there; it is skipped exactly when its bounds make no range above zero; otherwise a word is missing |
| MapleTree.ModuleNameIsLast | memflow-linux/src/process.rs:241-247 | a module's name is the last component of its path, or a placeholder |
| MapleTree.WalkEntryGrows | memflow-linux/src/process.rs:487-616 | on every memory no part of the walk loses a collected entry, passes the size bound, or adds anything but a VMA memory describes |
| MapleTree.CollectMapleOnAnyMemory | memflow-linux/src/process.rs:387-396 | on every memory the result is strictly ordered by start, end and address, free of repeated addresses, at most 1,048,576 long, and made of VMAs that memory holds |
| MapleTree.SortedDedup | memflow-linux/src/process.rs:393-395 | sorting and consecutive dedup by address keep exactly the members, once each, because an address determines its VMA |
| MapleTree.WalkMapleEntry | memflow-linux/src/process.rs:487-512 | the dispatch on tagged pointers, with depth and size bounds, updates the shared output as the walk function says and only grows it |
| MapleTree.WalkMapleDense | memflow-linux/src/process.rs:514-536 | the loop over a dense node |
| MapleTree.WalkMapleRange64 | memflow-linux/src/process.rs:539-576 | the walk of a range64 or leaf64 node, sorting after a leaf |
| MapleTree.WalkMapleArange64 | memflow-linux/src/process.rs:579-616 | the walk of an arange64 node |
| MapleTree.WalkMapleSlots | memflow-linux/src/process.rs:552-569 | the slot loop with its running minimum |
| MapleTree.PushVmaEntry | memflow-linux/src/process.rs:647-657 | pushes what reading the pointer gives, by the function that the next row pins to memory |
| MapleTree.PushVmaMeaning | memflow-linux/src/process.rs:647-657 | nothing is added for a pointer below the first page, otherwise the VMA that memory holds there; it fails exactly when a word of that VMA is missing |
| MapleTree.CollectVmasMaple | memflow-linux/src/process.rs:387-396 | the whole collection equals its specification |
| MapleRefinement.NodeDataEnd | memflow-linux/src/process.rs:618-644 | in a well-formed node the computed data end is the last live slot |
| MapleRefinement.WalkEntryRefines | memflow-linux/src/process.rs:487-616 | on memory that represents a tree the walk succeeds and adds exactly the VMAs that memory holds behind its leaves, up to the bound |
| MapleRefinement.LiveVmasMeaning | memflow-linux/src/process.rs:647-702 | the VMAs of a tree are those that memory holds at the address of some leaf, from the first page on |
| MapleRefinement.CollectMapleRefines | memflow-linux/src/process.rs:387-396 | for every well-formed tree of height at most 64 the result holds x exactly when some leaf points to it and memory holds x there, each once, strictly ordered; of more than 1,048,576 leaves it holds the first |
| MapleRefinement.TornFails | memflow-linux/src/process.rs:487-702 | a missing VMA word, slot word or last pivot anywhere in the tree makes the whole walk fail, as long as there is room |
| MapleRefinement.CollectMapleFails | memflow-linux/src/process.rs:387-396 | so the collection of a tree with a missing word, or without a root, is an error |
| MapleRefinement.ExampleTree | memflow-linux/src/process.rs:538-576 | a concrete leaf node in memory meets the representation predicate and holds one live VMA |
| MaplePartition.LoopWalksVisited | memflow-linux/src/process.rs:552-569 | on every memory the slot loop hands out consecutive ranges without gap or overlap |
| MaplePartition.VisitedInNode | memflow-linux/src/process.rs:539-644 | in a well-formed node the visited slots are the live ones and their ranges partition the node's range |
| MaplePartition.PartitionMeaning | memflow-linux/src/process.rs:538-616 | in a partition every index lies in exactly one slot, and none leaves the range |
| MaplePartition.LeavesPartition | memflow-linux/src/process.rs:538-644 | the leaf ranges of a whole tree of range nodes partition the root's range |
| MaplePartition.WalkAddsLeaves | memflow-linux/src/process.rs:487-657 | on any memory the whole walk adds exactly what memory holds behind the entries of its leaf ranges, up to order and the bound |
| MaplePartition.WalkFindsLeaves | memflow-linux/src/process.rs:487-657 | as long as there is room, x is found exactly when it is the VMA that memory holds at the entry of a leaf range |
| LinuxProcess.CollectVmasMmap | memflow-linux/src/process.rs:398-427 | the linked-list loop equals its specification, bounded on cyclic lists |
| LinuxProcess.ListRefines | memflow-linux/src/process.rs:398-427 | a well-formed list is returned whole, in list order, as the VMAs that memory holds at its addresses |
| LinuxProcess.CollectMmapRefines | memflow-linux/src/process.rs:398-427 | x is in the result exactly when its address is in the list and memory holds x there |
| LinuxProcess.CollectFromTree | memflow-linux/src/process.rs:336-363 | if a leaf of the tree leads to some VMA, the collection is the tree's, whatever is known of the list |
| LinuxProcess.CollectWithoutTree | memflow-linux/src/process.rs:336-385 | if there is no tree, part of it cannot be read, or it leads to nothing, the collection is the list's; with no list, or no memory of its own, it is empty |
| LinuxProcess.WalksAgree | memflow-linux/src/process.rs:387-427 | the maple walk and the list walk return the same list when tree and list hold the same VMAs in address order |
| LinuxProcess.CollectIgnoresSource | memflow-linux/src/process.rs:336-385 | then it does not matter which of the two structures the profile knows |
| LinuxProcess.ElfImageMeaning | memflow-linux/src/process.rs:478-484 | an image is recognised by the bytes 7f 45 4c 46 |
| LinuxProcess.SeedsMeaning | memflow-linux/src/process.rs:433-459 | the seeds are those of the file-backed VMAs of some size, in order, marked as images by the bytes in memory |
| LinuxProcess.ModulesOfTree | memflow-linux/src/process.rs:336-476 | from the maple tree to the modules: every module begins at an image in memory behind a leaf, every such image lies in a module, and they are sorted by base |
| LinuxProcess.Process.constructor | memflow-linux/src/process.rs:129-169 | a process starts with empty caches |
| LinuxProcess.Process.CollectVmas | memflow-linux/src/process.rs:336-385 | the maple tree first, falling back to the list when it fails or is empty |
| LinuxProcess.Process.VmaCache | memflow-linux/src/process.rs:320-326 | returns what walking memory gives, and caches only that |
| LinuxProcess.Process.ModuleCache | memflow-linux/src/process.rs:328-334 | the same for modules, built from the cached VMAs |
| LinuxProcess.Process.SetDtb | memflow-linux/src/process.rs:784-791 | a new page table drops both caches, so they never describe the old one |
| VmaRanges.PageTypeBits | memflow-linux/src/process.rs:31-41 | the page type follows from the write, read and execute bits under their masks |
| VmaRanges.EmitVmaRanges | memflow-linux/src/process.rs:726-776 | the callback receives the merged runs in order until it stops |
| VmaRanges.DeliveredIsPrefix | memflow-linux/src/process.rs:726-776 | a stopping callback has received exactly the prefix up to and including the range it stopped at |
| VmaRanges.ClipsAreTheWindow | memflow-linux/src/process.rs:739-749 | a range is a clip exactly when it is one of the VMAs cut to the window, with its page type |
| VmaRanges.EmittedRanges | memflow-linux/src/process.rs:726-776 | for sorted disjoint VMAs: sorted, disjoint, in the window, maximal; every mapped byte in exactly one range of its page type; other bytes only in small holes between equal types |
| VmaRanges.NegativeGapClipsOnly | memflow-linux/src/process.rs:751-763 | a negative gap yields exactly the clipped VMAs |
| ModuleSeeds.AggregateModuleSeeds | memflow-linux/src/process.rs:970-1033 | the in-place clustering loop equals its specification |
| ModuleSeeds.FindLastNear | memflow-linux/src/process.rs:981-988 | the backwards search for a module near the seed |
| ModuleSeeds.AggregateMakesModules | memflow-linux/src/process.rs:970-1033 | sorted by base; modules of a file more than 4 MiB apart; every base the start of an ELF-headed seed of its file and every end the end of one of its seeds; every non-empty ELF-headed seed in exactly one module |
| ModuleSeeds.AggregateKnowsParts | memflow-linux/src/process.rs:970-1033 | every seed of a module's file above its base lies in the module or more than 4 MiB above it; the module's path and name are the first non-empty ones of its parts, and empty only if none has one |
| ModuleSeeds.AggregateIgnoresOrder | memflow-linux/src/process.rs:970-1033 | files, bases and sizes do not depend on the order of the seeds |
| Btf.Parse | memflow-linux-defs/src/vmlinux.rs:1297-1459 | the record loop equals its specification on every byte string |
| Btf.ParseRecord | memflow-linux-defs/src/vmlinux.rs:1332-1455 | one record: head, name, payload and where the next one starts |
| Btf.ParseMembers | memflow-linux-defs/src/vmlinux.rs:1363-1389 | the member loop, with and without the kind flag |
| Btf.ParseEnumValues | memflow-linux-defs/src/vmlinux.rs:1390-1404 | the loop over 32-bit enumerators |
| Btf.ParseEnum64Values | memflow-linux-defs/src/vmlinux.rs:1405-1422 | the loop over 64-bit enumerators |
| Btf.RecordAt | memflow-linux-defs/src/vmlinux.rs:1332-1455 | every record ends after it starts, so the parse of any bytes ends |
| Btf.RecordsIndexed | memflow-linux-defs/src/vmlinux.rs:1442-1449 | whatever the bytes, the name index is exact for the parsed types |
| Btf.FindNamedIsLinearSearch | memflow-linux-defs/src/vmlinux.rs:1461-1487 | a lookup of a struct, union or enum gives the least id of that kind and name, and fails only if there is none |
| Btf.CStringMeaning | memflow-linux-defs/src/vmlinux.rs:171-183 | a name is the text up to the NUL or the end of the section, from any offset within it |
| Btf.ParsedFits | memflow-linux-defs/src/vmlinux.rs:1346-1440 | whatever the bytes, every parsed record has the payload of its kind |
| BtfEncoding.ParseInvertsEncode | memflow-linux-defs/src/vmlinux.rs:1297-1459 | parsing an encoded record list gives its records in order, enumerators read as signed words, with 1-based ids and an exact index, for all supported kinds |
| BtfEncoding.RecordsReadBack | memflow-linux-defs/src/vmlinux.rs:1328-1456 | records are read back one after the other from wherever they are encoded |
| BtfEncoding.BodyReadsBack | memflow-linux-defs/src/vmlinux.rs:1346-1440 | each kind's payload, kflag bitfields included, is read back |
| BtfEncoding.EnumeratorsKept | memflow-linux-defs/src/vmlinux.rs:1390-1422 | a parsed record is the encoded one exactly when none of its enumerators is unsigned with the top bit set |
| BtfEncoding.NegativeEnumerator | memflow-linux-defs/src/vmlinux.rs:1390-1404 | one encoded enumerator with all bits set is parsed as minus one |
| BtfEncoding.StringsExist | memflow-linux-defs/src/vmlinux.rs:171-183 | any ASCII names that fit have a string section from which each is read back |
| BtfEncoding.SectionsMeaning | memflow-linux-defs/src/vmlinux.rs:1297-1326 | for any bytes: the sections are found exactly when magic number and version are right and the offsets and lengths of the header lie within the data |
| BtfEncoding.RecordFailsIff | memflow-linux-defs/src/vmlinux.rs:1332-1455 | for any bytes: a record is an error exactly when it is cut off, or it or one of its parts points past the strings; an unknown kind has no payload |
| BtfEncoding.RecordsEncodable | memflow-linux-defs/src/vmlinux.rs:1297-1459 | every well-formed record list whose names are ASCII and fit has an encoding |
| BtfNames.NameOneKeepsNames | memflow-linux-defs/src/vmlinux.rs:1591-1608 | every naming history keeps: names are own or suffixed, taken names are someone's, own names are unique, and a suffix was forced by another record |
| BtfNames.SharesIffClash | memflow-linux-defs/src/vmlinux.rs:1591-1608 | some order of naming makes two records share a name exactly when a real name equals the suffixed form of a record whose own name a third can take |
| BtfNames.OwnNames | memflow-linux-defs/src/vmlinux.rs:1591-1601 | a record keeps its real name; a nameless struct, union or enum is called after its kind and id |
| BtfResolver.Resolver.constructor | memflow-linux-defs/src/vmlinux.rs:1503-1511 | an empty resolver is valid |
| BtfResolver.Resolver.EnsureTypeName | memflow-linux-defs/src/vmlinux.rs:1591-1608 | chooses a name once, keeps it, and changes nothing else |
| BtfResolver.Resolver.EnsureEnum | memflow-linux-defs/src/vmlinux.rs:1567-1589 | adds an enum under its name, never changing an existing one |
| BtfResolver.Resolver.EnsureUserType | memflow-linux-defs/src/vmlinux.rs:1513-1565 | whenever the recursion ends: seeds before descending, computes what the specification says, never changes an existing entry, and leaves none unfilled when it succeeds |
| BtfResolver.Resolver.WalkMembers | memflow-linux-defs/src/vmlinux.rs:1538-1557 | the loop over the members, stopping at the first that fails |
| BtfResolver.Resolver.RawTypeRef | memflow-linux-defs/src/vmlinux.rs:1610-1670 | whenever the recursion ends: computes what the specification says, index type before element type |
| BtfResolver.RefExtends | memflow-linux-defs/src/vmlinux.rs:1610-1670 | a run only adds names, types and enums and never changes what is there, whether it succeeds or fails |
| BtfResolver.RefKeeps | memflow-linux-defs/src/vmlinux.rs:1610-1670 | a reference that is resolved denotes what its id does, names only known types, and leaves no entry unfilled |
| BtfResolver.UserKeeps | memflow-linux-defs/src/vmlinux.rs:1513-1565 | a struct or union that is resolved leaves every entry complete and closed, however it recurses |
| BtfResolver.RefAgain | memflow-linux-defs/src/vmlinux.rs:1610-1670 | resolving a reference again in any later state gives the same and changes nothing |
| BtfResolver.RefMore | memflow-linux-defs/src/vmlinux.rs:1610-1670 | the specification does not depend on how much depth it is given, once that is enough |
| BtfResolver.LoadProfile | memflow-linux-defs/src/vmlinux.rs:103-128 | a successful run from an empty resolver returns a closed profile with all required structs, the optional ones that exist, and the enum; a struct is stored under its own name, holding the record a lookup finds, unless another record goes by it; in a file whose references exist the run succeeds exactly when the required structs and the enum are there |
| BtfResolver.LoadSucceeds | memflow-linux-defs/src/vmlinux.rs:103-128 | the last part: no reference, struct or enum of such a file can fail to resolve |
| BtfResolver.FinishedRunIsClosed | memflow-linux-defs/src/vmlinux.rs:1513-1565 | after a run no seeded type is unfilled: every entry has its record's size, a field for the last member of each key at the byte that holds its first bit, anonymous exactly when nameless, a bitfield exactly when it has a size in bits; every struct, union or enum that a field comes to through pointers, arrays and bitfields is a key; every enum has its record's constants |
| BtfResolver.FieldsUnique | memflow-linux-defs/src/vmlinux.rs:1538-1557 | the file and the names chosen determine the fields of an entry |
| BtfResolver.ConstantsMeaning | memflow-linux-defs/src/vmlinux.rs:1581-1586 | the constants of an enum are its enumerators, the last one counting when a name is repeated |
| BtfResolver.StoredUnderOwnName | memflow-linux-defs/src/vmlinux.rs:112-119 | the struct that a lookup finds is the entry under its name when no other record goes by that name |
| BtfResolver.OwnRecord | memflow-linux-defs/src/vmlinux.rs:1591-1608 | without a clash of names the entry under a record's name is that record's own |
| BtfResolver.ClashExample | memflow-linux-defs/src/vmlinux.rs:1513-1608 | a run over three records from an empty resolver ends with the third's name standing for the first's entry |
| BtfTermination.EndsIffNoLoop | memflow-linux-defs/src/vmlinux.rs:1513-1670 | in every state, resolving a reference ends exactly when it does not lead to a loop of followed pointers, arrays, typedefs and qualifiers |
| BtfTermination.NoPlainCycleEnds | memflow-linux-defs/src/vmlinux.rs:1527-1529 | it ends for every reference when every cycle of the file passes through a struct or union |
| BtfTermination.LoadEnds | memflow-linux-defs/src/vmlinux.rs:103-128 | then loading a profile ends as well |
| BtfTermination.SelfTypedefNeverEnds | memflow-linux-defs/src/vmlinux.rs:1654-1659 | a typedef of itself is not resolved at any depth |
| BtfTermination.MissingIndexEnds | memflow-linux-defs/src/vmlinux.rs:1627-1644 | an array of itself whose index type is missing ends with an error |
| Defs.FieldFoundIffReachable | memflow-linux-defs/src/defs.rs:1102-1136 | a field is found exactly when a chain of at most 32 anonymous members reaches it, at base plus the sum along such a chain, in every table, cyclic ones included; a type's own field comes first |
| Defs.NamedUserTypeMeaning | memflow-linux-defs/src/defs.rs:1015-1025 | a type has a name exactly when it comes to that struct or union through pointers, arrays and bitfields |
| Defs.OrderDoesNotMatter | memflow-linux-defs/src/defs.rs:1102-1136 | when all chains to the field agree, map iteration order does not matter |
| Kallsyms.ExpandSymbolInto | memflow-linux/src/kallsyms.rs:92-111 | the token loop appends the expansion the specification defines, skipping the type character |
| Kallsyms.ExpandTokensFailIff | memflow-linux/src/kallsyms.rs:92-111 | an expansion fails exactly when one of its tokens cannot be read or expanded |
| Kallsyms.Iterator.constructor | memflow-linux/src/kallsyms.rs:156-163 | a new iterator stands at the first symbol |
| Kallsyms.Iterator.Next | memflow-linux/src/kallsyms.rs:167-199 | yields the current entry and moves the cursor, or moves nothing at the end or on a failed read |
| Kallsyms.EntryReadsBack | memflow-linux/src/kallsyms.rs:92-134 | in a table stored as little-endian bytes entry i is decoded from the total encoded size of the entries before it, to its address and its name without the type character |
| Kallsyms.IterateAll | memflow-linux/src/kallsyms.rs:165-199 | iterating a stored table yields exactly its addresses and names in order, then ends; the cursor is always the encoded size of what was yielded |
| Kallsyms.AddressReadsBack | memflow-linux/src/kallsyms.rs:116-134 | both offset encodings are inverted on every address they can express |
| Kallsyms.AddressableIff | memflow-linux/src/kallsyms.rs:116-134 | an address has a word exactly when it lies in the reach of its encoding |
| Kallsyms.LenReadsBack | memflow-linux/src/kallsyms.rs:359-365 | the one- and two-byte length prefixes are inverted up to 32767 |
| Kallsyms.ReadU16Meaning | memflow-linux/src/kallsyms.rs:104 | two bytes in memory are a little-endian word |
| Kallsyms.ReadU32Meaning | memflow-linux/src/kallsyms.rs:119 | four bytes in memory are a little-endian word |
| Alignment.AndNotRoundsDown | memflow-linux/src/kallsyms.rs:338-341 | clearing the mask bits of a power of two rounds down to a multiple of it |
| Alignment.AlignUpFinds | memflow-linux/src/kallsyms.rs:344-347 | rounding up finds the next aligned address whenever there is one |
| Alignment.AlignDownFinds | memflow-linux/src/kallsyms.rs:338-341 | rounding down from less than a step above an aligned address finds it |
| KallsymsLayout.IsPlausibleLayout | memflow-linux/src/kallsyms.rs:275-322 | the loop accepts exactly layouts whose base and first four addresses are kernel pointers in ascending order |
| KallsymsLayout.PlausibleIffKernelPointers | memflow-linux/src/kallsyms.rs:275-322 | a stored table in address order is accepted exactly when its base and first four symbols are kernel pointers |
| KallsymsLayout.ModernRecovered | memflow-linux/src/kallsyms.rs:232-247 | rounding recovers exactly where offsets and base were placed, for every power of two |
| KallsymsLayout.LegacyRecovered | memflow-linux/src/kallsyms.rs:253-270 | walking down recovers exactly where they were placed if and only if the alignment is at least eight |
| KallsymsLayout.CountRecovered | memflow-linux/src/kallsyms.rs:58-67 | the symbol count is found below the names if and only if the alignment is at least four |
| KallsymsLayout.NewFindsModern | memflow-linux/src/kallsyms.rs:51-84 | a modern table is described completely by the result, and its layout is chosen exactly when it looks like kernel pointers |
| KallsymsLayout.NewFindsLegacy | memflow-linux/src/kallsyms.rs:204-226 | a legacy table is found exactly when the modern guess exists and is not plausible |
| KallsymsLayout.NewSound | memflow-linux/src/kallsyms.rs:51-84 | on every memory whatever is found has symbols, their number in memory below the names, and a base and first four addresses that are kernel pointers in ascending order |
| KallsymsLayout.ReadU64Meaning | memflow-linux/src/kallsyms.rs:280-283 | eight bytes in memory are a little-endian word |
| Scan.FindIterCompleteIff | memflow-linux/src/kernel.rs:1462 | the match iterator reports every occurrence in every text exactly for patterns without a border |
| Scan.FindIter | memflow-linux/src/kernel.rs:1462 | its matches are real and strictly increasing |
| Scan.WindowVisits | memflow-linux/src/kernel.rs:1451-1486 | one window extends the visited places, each once and in order, to all occurrences that start in it and fit, even if parts of it cannot be read |
| Bootstrap.CandidateMeaning | memflow-linux/src/kernel.rs:1546-1584 | a candidate is accepted exactly when memory holds, byte by byte, a self-parented `swapper/0` with pid 0 whose pointer is a kernel pointer at an aligned slide |
| Bootstrap.PageTableCandidates | memflow-linux/src/kernel.rs:1626-1650 | the loop over the page table symbols |
| Bootstrap.TableAtIsPage | memflow-linux/src/kernel.rs:1636-1637 | a table candidate is the page its symbol falls into once the text is moved to its physical address |
| Bootstrap.TablesAreDistinct | memflow-linux/src/kernel.rs:1626-1650 | the candidates are exactly the symbols' page-aligned addresses, each once; an unplaceable symbol is an error |
| Bootstrap.ResolveKernelFromCandidate | memflow-linux/src/kernel.rs:1587-1624 | the first table that validates decides |
| Bootstrap.FirstValidSound | memflow-linux/src/kernel.rs:1605-1624 | the loop's first table that validates decides, and without a result none does; AttemptIff says what validating means |
| Bootstrap.SlideIsExact | memflow-linux/src/profile.rs:46-62 | the slide carries text and init_task to their runtime addresses without wrapping, and is what computing it from the text gives |
| Bootstrap.AttemptIff | memflow-linux/src/kernel.rs:1364-1373 | an attempt succeeds exactly when under some page table of the profile text and init_task translate to their places, an idle task is there, and the banner is read at its moved address, all at one aligned slide; what it returns is such a kernel |
| Bootstrap.FirstTableDecides | memflow-linux/src/kernel.rs:1605-1650 | of two page tables that fit, that of init_top_pgt is chosen |
| Bootstrap.NullHintIsAligned | memflow-linux/src/kernel.rs:1594-1603 | a null hint gives the same result as the aligned text address that goes with init_task, so physical base 0 needs no special case |
| Bootstrap.DiscoverKernelWithHint | memflow-linux/src/kernel.rs:1364-1373 | one attempt at one physical text address |
| Bootstrap.DiscoverKernelFromCandidateScan | memflow-linux/src/kernel.rs:1392-1425 | the lowest 2 MiB-aligned address whose attempt succeeds decides; failure means all fail |
| BootstrapScans.DiscoverKernelFromBannerScan | memflow-linux/src/kernel.rs:1428-1490 | visits the banners in increasing order, each once, and stops at the first that leads to a kernel; a failure, unless a read fails as a whole, has visited every banner in memory |
| BootstrapScans.DiscoverKernelFromTaskScan | memflow-linux/src/kernel.rs:1493-1543 | visits the task names in increasing order, each once, and stops at the first that leads to a kernel; a failure, unless a read fails as a whole, has visited all of them |
| BootstrapScans.TaskNameUnbordered | memflow-linux/src/kernel.rs:35 | occurrences of `swapper/0` never overlap |
| BootstrapScans.TaskNameText | memflow-linux/src/kernel.rs:35 | the bytes searched for are the letters of `swapper/0` and a NUL |
| BootstrapScans.TaskAttemptIsAligned | memflow-linux/src/kernel.rs:1516-1532 | a task name that leads to a kernel leads to the same one as the aligned text address that goes with it |
| BootstrapScans.BannerAttemptMeaning | memflow-linux/src/kernel.rs:1460-1480 | a banner leads to a kernel exactly when the attempt at the aligned text address below it does |
| BootstrapScans.TaskAttemptMeaning | memflow-linux/src/kernel.rs:1516-1532 | a task name leads to a kernel exactly when the attempt at the aligned text address that goes with its record does |
| BootstrapScans.FallbacksAreRedundant | memflow-linux/src/kernel.rs:1376-1389 | once the candidate scan has failed, no banner and no task name leads to a kernel |
| BootstrapScans.DiscoverKernelFromProfile | memflow-linux/src/kernel.rs:1376-1389 | the three strategies together find the lowest aligned kernel in memory, or there is none; what they find fits the profile |
| BootstrapScans.DiscoverKernel | memflow-linux/src/kernel.rs:1299-1355 | hints, then the profile's strategies, then signature scans; signature scans decide only when nothing fits the profile; any other kernel fits it and is aligned unless an unaligned hint led to it |
| Discover.DiscoverKernelVersions | memflow-linux/src/discover.rs:35-119 | one entry for each non-empty version, for its first banner in a readable window; each entry is what the bytes in memory say: the text `Linux version `, then at most 512 bytes up to a NUL, line feed or carriage return, with the first word as version |
| Discover.ReportMatches | memflow-linux/src/discover.rs:77-108 | the matches of one window, skipping empty and repeated versions |
| Discover.UpToMeaning | memflow-linux/src/discover.rs:83-86 | the suffix is the longest beginning of the content without a NUL, newline or carriage return |
| Discover.FirstWordMeaning | memflow-linux/src/discover.rs:88-92 | the version is the first maximal run without white space, empty only if there is none |
| Discover.VisibleIsMatch | memflow-linux/src/discover.rs:52-77 | the matches in a chunk are exactly the banner prefixes in memory whose window could be read |
| Discover.MatchSaysAll | memflow-linux/src/discover.rs:79-92 | the tail makes a window's extraction equal to the whole-memory one |
| Discover.ReportsUnique | memflow-linux/src/discover.rs:94-107 | memory determines the report |
| Discover.BannerUnique | memflow-linux/src/discover.rs:79-107 | memory holds at most one banner with one version at an address |
| Discover.ReadableIsVisible | memflow-linux/src/discover.rs:65-73 | when memory is readable and no read fails, no banner is passed over |
| Signature.New | memflow-linux/src/sig.rs:64-84 | bytes, masks and starred positions are those of the tokens of all fragments, in order |
| Signature.SplitInvertsJoin | memflow-linux/src/sig.rs:18 | splitting words with any white space before, between and after them gives the words back |
| Signature.UnstarredMeaning | memflow-linux/src/sig.rs:20 | a token is its stars and what is left of it |
| Signature.TokenMatches | memflow-linux/src/sig.rs:17-38 | a byte passes the masked comparison exactly when its nibbles match the token's characters |
| Signature.EqualsMeaning | memflow-linux/src/sig.rs:97-109 | a text equals a signature exactly when it has one byte per token and matches nibble for nibble |
| KernelSearch.FirstAccepted | memflow-linux/src/kernel/x64.rs:852-862 | a window's matches are examined signature by signature, lowest address first |
| KernelSearch.FindKernelMatch | memflow-linux/src/kernel/x64.rs:824-862 | what is found is the lowest accepted match of its signature; until a match is accepted every address where a signature matches is examined, unreadable bytes counting as zero, despite the early break, once memory holds the longest signature |
| KernelSearch.MatchesInMeaning | memflow-linux/src/sig.rs:97-109 | memory matches a signature exactly when every byte matches its token nibble by nibble, unreadable bytes counting as zero |
| KernelSearch.ShortMemoryIsMissed | memflow-linux/src/kernel/x64.rs:842-844 | why the longest signature must fit: any shorter match alone in memory is not looked at |
| Cache.ParseCacheEntry | memflow-linux/src/cache.rs:262-314 | returns an entry exactly when the last line of each of the five keys holds that entry's value |
| Cache.KeyValueMeaning | memflow-linux/src/cache.rs:270-280 | a line gives a key and a value exactly when it is neither blank nor a comment and has an equals sign, split at the first one and trimmed |
| Cache.EntryReadsBack | memflow-linux/src/cache.rs:262-314 | an entry's lines, in any order, repeated, among blank lines, comments and unknown keys, describe that entry and no other |
| Cache.FormattedHolds | memflow-linux/src/cache.rs:249-259 | the written text consists of exactly the entry's lines |
| Cache.FormatText | memflow-linux/src/cache.rs:249-259 | the text of each of the five lines |
| Cache.ExampleFile | memflow-linux/src/cache.rs:249-314 | one literal file and the entry it holds |
| Cache.RoundTrip | memflow-linux/src/cache.rs:249-314 | parsing a formatted entry gives it back, for all field values |
| Cache.PlainDecimalReadsBack | memflow-linux/src/cache.rs:317-331 | decimal digits without a prefix are read as decimal |
| Cache.HexReadsBack | memflow-linux/src/cache.rs:317-331 | hexadecimal digits after `0x` are read as hexadecimal |
| Cache.BareDigitsReadBack | memflow-linux/src/cache.rs:317-331 | digits without a prefix are hexadecimal exactly when there is a letter among them |
| Cache.UpperPrefixReadsBack | memflow-linux/src/cache.rs:317-331 | the prefix `0X` means hexadecimal as well |
| Text.RenderReadsBack | memflow-linux/src/cache.rs:250-258 | a number written in a radix is read back, and is written with digits only |
| Text.PaddedReadsBack | memflow-linux/src/cache.rs:251-252 | zero padding does not change the value |
| Text.FromStrRadixMeaning | memflow-linux/src/cache.rs:285-331 | a number is read exactly from at least one digit, with or without a plus sign, up to the largest of its type |
| Text.RenderIsShort | memflow-linux/src/cache.rs:250-258 | no zero is written in front of a number |

## Left out

- Disassembly-driven discovery (kallsyms lookup and symbol-expansion functions): it rests on a disassembler that is not part of this model.
- The DWARF path of the definition generator: it rests on an external parser; the BTF resolver carries the same idea of seeding before descending.
- The page-table walk, translation caches and virtual memory access: translation and virtual reads are uninterpreted functions of page table and address.
- TOML, ELF and file access, environment variables, logging, profile path discovery and plugin entry points: input and output only.
- What the signature search does with a match (reading cr3, la57 and the physical base): an uninterpreted test of address and signature.
- The kernel version range parsed from the banner, and the later banner re-check; what a signature scan returns is a parameter.
- Fingerprints, boolean options, getters and display code: easy members only.
- Environment blocks: the reported offset means little once a block has empty entries.
- Text is ASCII: lossy UTF-8 decoding and Unicode white space are not modelled; bytes above 127 are ordinary characters.
- Addresses handed to a read are unbounded sums; saturating, checked and wrapping arithmetic is modelled where the code computes values it keeps.
- Error values carry nothing: only success or failure is modelled.
- Signature.EqualsMeaning: speaks of tokens of one question mark or two nibble characters, the documented syntax; other tokens are modelled as the code treats them but have no stated meaning.
- KernelSearch.FindKernelMatch: the signatures are non-empty and at most 2 MiB minus 4095 bytes long, which the fixed patterns satisfy.
- MapleRefinement.CollectMapleRefines: a well-formed range node stores its pivots, end marker and slot count as the kernel does; maple tree encodings with other tag values count as VMA pointers, as in the source.
- Partial reads: a window read that keeps partial data leaves the bytes that cannot be read as they were in the buffer, or the read fails as a whole; a single word that is only partly readable counts as unreadable. The memory library that decides this is not part of this model.
- The bounded string readers are not part of the repository either: they are taken to give the text up to the first NUL within the limit and to fail without one, so kallsyms names are read back for tokens shorter than 4096 bytes.
