# qgit: verified model

A Dafny model of the core of qgit, a small Git written in C, with proofs of what its parts promise one another. The modules follow the repository's components:

| module (file) | models |
|---|---|
| `Bytes`, `Options`, `Libc`, `Sorting` | byte strings and the order `strcmp` compares them by; values that may be missing; `strtoul`, `snprintf`, `memchr`; `qsort` as some sorted permutation |
| `Trees`, `TreeCodec`, `Odb` | tree entries and Git tree order; the tree payload; the object database and the tree builder |
| `Index`, `TreeBuild`, `TreeRead` | the index in memory; writing trees from it with one shared cursor; walking trees and reading them back |
| `IndexCodec`, `IndexFile` | the index file, version 2; exactly which files are read, byte by byte |
| `Signatures`, `Payload`, `CommitCodec`, `TagCodec` | signatures with time zones; commit and tag payloads |
| `CommitLines`, `TagLines` | commit and tag payloads line by line: lines in any order, twice, missing or unknown |
| `Readability` | which names and addresses leave a commit that can be read again |
| `OidHex`, `LoosePrefix` | object names in hexadecimal, and lookup by abbreviated name |
| `Heap`, `HashTable`, `OidSet`, `RevWalk` | vector and binary heap on arrays; the chained hash table with real linked nodes; the set on it; the revision walk on all of these |
| `RevOrder` | the exact conditions under which a walk is newest first, and under which it brings out one commit before another |
| `Refs`, `Commits`, `History` | the reference store, update-ref and advancing a branch; committing, over whole runs; the log of a run |
| `Ini`, `IniLines`, `Strings` | the configuration parser and printer; configuration files line by line; growable strings |

The code that changes things in place is modelled in place: arrays, linked nodes and classes with frames, loops with invariants, NULs written into the buffers that are being parsed. Each such method is proved equal to a function of its inputs or of the old state, and the properties are lemmas about these functions.

Main results:

* **Index to trees and back.** Writing trees from any index and reading the root back lists exactly the stage-0 entries that are not also a directory of another one, in index order, if and only if no stage-0 path starts with '/'. The name of the root tree depends on these entries alone. With such paths the live entries come back without the '/' their paths start with. Writing fails exactly when a directory name does not fit into PATH_MAX.
* **Revision walk.** A walk emits every reachable commit exactly once and finishes, if and only if every reachable commit is stored. Each emitted commit is a newest one of the frontier. Its order is neither newest first nor children first in general; when it is, is said exactly. The times of a run never increase if and only if each emitted commit is reached by a path of commits at least as new as it. A finished run can bring out `p` before a reachable `x` if and only if a path leads from the start to `p` around `x` that is never overtaken: no way turns off it towards `x` through commits that are all newer than some later commit of the path. So all runs bring out children before their parents if and only if no commit has such a path to one of its parents. That no parent is newer, or that parents are older, is sufficient; a concrete graph shows a parent that comes out first.
* **Codecs.** For index file, tree, commit, tag and signature: the dry run gives exactly the number of bytes the second pass writes, and parsing inverts printing. Where the round trip has a condition, it is given as an if-and-only-if that can be checked before printing: consistent flags for the index; no bracket that ends a part too early, no blank line and an offset of less than a hundred hours for signatures; a name of one line for tags. What the parsers make of texts that were not printed is said as well: which index files are read, byte by byte, and as what; commit and tag payloads with their lines in any order, missing, twice or unknown; the formats themselves are given as text.
* **Commits and references.** The commit command advances HEAD's branch exactly when HEAD resolves to a commit or names a branch that is not there, and no path is too long; no other reference ever changes. It succeeds if moreover the commit can be read again, because it is looked up after HEAD has been advanced. For a name and an address on one line, as configuration files hold them, the condition is exact: behind the first '<' of the printed line the first '>' is the closing one, or stands right before it, or is followed by a byte and a number with a space behind it. With the address `a>b` the command fails and leaves HEAD on a commit that cannot be read, and no further commit can be made. Over any run of successful commits HEAD resolves to the newest, no reference but its branch changes, and first parents lead back through the run to the old tip, attached, detached or unborn; only that a first commit without parents stays one needs its name and address to be on one line. In a graph without cycles the first-parent log after a run is the run in reverse, then the log before it. Compare-and-swap updates and deletions go through exactly when the name resolves to the expected object. Any run of updates, deletions and advances on a store without circles keeps it so.
* **Configuration.** A printed table is parsed back with every lookup preserved if and only if all its texts are plain (for tables with one live entry per key and no section without one): the condition is exact for each value, each key and each section name, and whatever is parsed is plain. Any file of lines is parsed line by line, with spaces, comments and broken lines as the parser takes them.
* **Containers.** The heap pops least elements of any total preorder, so popping it empty sorts; the hash table is a finite map through insertion, update, removal, clearing and rehashing.

Where the code does less than its names suggest, the model follows the code and a lemma says so: `Readability.UnreadableCommit` and `Commits.NoMoreCommits` (a commit command can fail after it has advanced HEAD), `Refs.DeleteZerosUnchecked` (forty zeros check nothing when deleting), `Refs.UnbornRejected` (an unborn branch cannot be updated through HEAD), `Refs.CanAdvance` (nor be born behind two symbolic references), `Ini.UnsetExact` (unsetting a key that occurs twice uncovers the second), `RevWalk.ParentBeforeChild`.

SHA-1 is a function parameter. Where two different objects with one name would matter, the object database records that a write has replaced a different object (`collided`), and the statements are about histories in which none has.

## Model

| member | source | states |
|---|---|---|
| Bytes.LessExactly | src/libqgit/index/index_sort.c:29-31 | the order of `strcmp` is that of the first byte that differs, a text before those it is the start of |
| Trees.IsDirExactly | src/libqgit/object/tree/tree_entry_type.c:22-26 | only the type bits 4 make a directory, whatever the other bits are |
| Trees.CmpIsKeyOrder | src/libqgit/object/tree/tree_entry_sort.c:26-50 | on names without '/' and NUL the comparator is exactly the byte order of the names with a '/' behind directories: zero only for equal keys, and antisymmetric |
| Trees.TreeSortedBytes | src/libqgit/object/tree/tree_entry_sort.c:26-50 | Git tree order is the order of the first byte that differs in the names, with a '/' behind those of type 4 |
| Trees.FlatMembers | src/libqgit/object/tree/tree_walk.c:29-94 | the pre-order listing of a complete tree holds exactly the leaves that looking a path up finds |
| Trees.FlatSorted | src/libqgit/object/tree/tree_walk.c:35-91 | listing trees sorted in Git tree order gives full paths strictly increasing in the order of `strcmp` |
| Trees.CanonicalUnique | src/libqgit/object/tree/treebuilder_write.c:64-101 | two sorted, content-addressed trees with the same leaves, in any two stores, have the same name |
| TreeCodec.TreeRoundTrip | src/libqgit/object/tree/tree_parse.c:25-88 | any modes of 32 bits, any NUL-free names and any raw object names survive printing and parsing |
| TreeCodec.EntryText | src/libqgit/object/tree/treebuilder_write.c:33-46 | files, executables, links and directories are printed as "100644", "100755", "120000" and "40000", a space, the name, a NUL and the raw object name |
| TreeCodec.AnyEntryRead | src/libqgit/object/tree/tree_parse.c:25-63 | an entry is read whatever octal digits its mode has, if they fit 64 bits; the mode keeps 32 |
| TreeCodec.TruncatedEntry | src/libqgit/object/tree/tree_parse.c:25-63 | a payload that ends within an entry is refused |
| TreeCodec.TreeEntriesSize | src/libqgit/object/tree/treebuilder_write.c:49-61 | the dry run returns the length of the printed payload |
| TreeCodec.EntryFmt | src/libqgit/object/tree/treebuilder_write.c:33-46 | one round of the writing pass puts exactly the entry's text at its place or fails for lack of room |
| TreeCodec.TreeEntriesFmt | src/libqgit/object/tree/treebuilder_write.c:30-48 | the writing pass fails exactly when the payload does not fit, so never with the size of the dry run |
| TreeCodec.TreeParse | src/libqgit/object/tree/tree_parse.c:66-88 | the cursor loop computes the parse of the whole payload |
| Odb.Odb.Write | src/libqgit/odb/odb/odb_write.c:22-39 | the object is stored under its name, all others are kept unless it collides |
| Odb.Odb.LookupTree | include/libqgit/object/tree.h:53-57 | finds exactly the stored objects that are trees and parse |
| Odb.TreeBuilder.Get | src/libqgit/object/tree/treebuilder_get.c:23-34 | finds the first entry of a name |
| Odb.TreeBuilder.Insert | src/libqgit/object/tree/treebuilder_insert.c:24-66 | replaces mode and object of the entry of that name, or appends one |
| Odb.TreeBuilder.Sort | src/libqgit/object/tree/tree_entry_sort.c:52-56 | the same entries, strictly increasing in Git tree order, also in terms of the first byte that differs |
| Odb.TreeBuilder.Write | src/libqgit/object/tree/treebuilder_write.c:64-101 | the sorted entries can be looked up again under the returned name; nothing stored is lost |
| Index.Index.Sort | src/libqgit/index/index_sort.c:24-40 | a permutation ordered by the first byte that differs in the paths and then by stage, strictly when path and stage are unique |
| Index.SortedInByteOrder | src/libqgit/index/index_sort.c:24-33 | being sorted by the comparator is being ordered by the first byte that differs in the paths, and for the same path by stage |
| Index.StageBits | src/libqgit/index/index_entry_stage.c:22-27 | the stage is what bits 12 and 13 of the flags hold |
| Index.Index.Find2 | src/libqgit/index/index_find2.c:24-36 | the first position of a path and stage, or -1 |
| Index.Index.Add2 | src/libqgit/index/index_add2.c:27-58 | an update of one path and stage: every other lookup is unchanged, uniqueness is kept |
| TreeBuild.WriteTree | src/libqgit/object/tree/tree_create_fromindex.c:32-113 | from the shared cursor: consumes exactly the stage-0 entries with the prefix, stops at the first without it, stores a tree that encodes them, and fails exactly for an overlong directory |
| TreeBuild.WriteSubtree | src/libqgit/object/tree/tree_create_fromindex.c:72-103 | one nested call advances the cursor over the whole subdirectory and keeps what the outer loop has built |
| TreeBuild.CreateFromIndex | src/libqgit/object/tree/tree_create_fromindex.c:115-123 | the root tree encodes all stage-0 entries of the sorted index; fails exactly for an overlong directory |
| TreeBuild.TooDeepExactly | src/libqgit/object/tree/tree_create_fromindex.c:72-80 | it fails exactly for a stage-0 path with a '/' behind 4094 bytes or more |
| TreeBuild.Finish | src/libqgit/object/tree/tree_create_fromindex.c:106-112 | what the builder holds at the end is, once sorted and stored, the encoding of the entries consumed |
| TreeBuild.NotYetDir | src/libqgit/object/tree/tree_create_fromindex.c:72-103 | when a subdirectory is met the builder holds no directory of that name yet: each is written by exactly one nested call |
| TreeBuild.NewFileName | src/libqgit/object/tree/tree_create_fromindex.c:62-71 | when a file is met the builder holds nothing of that name yet |
| TreeRead.Foreach | src/libqgit/object/tree/tree_walk.c:29-94 | the recursive loop is the walk, for any callback with skip and stop results, in both orders |
| TreeRead.ForeachEntry | src/libqgit/object/tree/tree_walk.c:35-91 | one round of the loop, with lookup failures and overlong paths |
| TreeRead.WalkPerforms | src/libqgit/object/tree/tree_walk.c:29-94 | for any callback, in both orders and whatever is stored: a walk performs one list of calls, ends at a positive answer, leaves out what is below at a negative one in pre-order, and fails at a directory that is not stored or too long |
| TreeRead.WalkOfFile | src/libqgit/object/tree/tree_walk.c:86-89 | an entry of any type but a directory is given to the callback and nothing is looked up |
| TreeRead.FileRead | src/libqgit/index/index_read_tree.c:31-65 | a tree of one regular file is read as one index entry of that path and mode, in stage 0, with all other fields zero; a path of 4096 bytes or more fails |
| TreeRead.WalkIsFold | src/libqgit/object/tree/tree_walk.c:29-94 | a walk that nothing stops applies the callback to all entries in the order of the mode, and completes exactly when every directory path fits |
| TreeRead.SameVisits | src/libqgit/object/tree/tree_walk.c:48-83 | pre-order and post-order visit the same entries equally often |
| TreeRead.SkippingWalk | src/libqgit/object/tree/tree_walk.c:50-64 | a pre-order callback that always asks to skip sees the top level only |
| TreeRead.WalkLists | src/libqgit/index/index_read_tree.c:31-65 | with the callback of the index, the walk appends the listing and fails exactly when a path is too long |
| TreeRead.ReadTree | src/libqgit/index/index_read_tree.c:67-87 | the index is replaced by the tree's listing, or left alone on failure |
| TreeRead.ReadsBack | src/libqgit/object/tree/tree_create_fromindex.c:32-123 | reading the written tree gives exactly the stage-0 entries that are not a directory of another, in index order |
| TreeRead.ReadsBackExactly | src/libqgit/object/tree/tree_create_fromindex.c:59-104 | this listing comes back if and only if no stage-0 path starts with '/' |
| TreeRead.ListedExactly | src/libqgit/object/tree/tree_walk.c:35-91 | the listing of any tree in Git tree order, also with directories that have no name: the leaves found once some number of '/' stands before a path that does not start with one |
| TreeRead.ReadsBackStripped | src/libqgit/object/tree/tree_create_fromindex.c:59-104 | what comes back from a tree written from any index: the surviving entries without the '/' their paths start with |
| TreeRead.NoClashAllLive | src/libqgit/object/tree/treebuilder_insert.c:34-44 | without file and directory clashes no stage-0 entry is lost |
| TreeRead.SameLiveSameTree | src/libqgit/object/tree/tree_create_fromindex.c:106-123 | the root tree's name is determined by the surviving entries, whatever the index, the store or its history |
| TreeRead.LiveAgain | src/libqgit/index/index_read_tree.c:31-87 | among the entries read back none hides another |
| TreeRead.RestoreIndex | src/libqgit/index/index_read_tree.c:67-87 | restoring from a written tree puts its listing into the index and fails, changing nothing, exactly when a path is too long; without a stage-0 path that starts with '/', these are exactly the surviving entries |
| TreeRead.RewriteSameTree | src/libqgit/object/tree/tree_create_fromindex.c:115-123 | writing the index read back gives the same root name |
| TreeRead.LiveWellFormed | src/libqgit/index/index_read_tree.c:31-65 | the entries read back can be written to a tree again |
| TreeRead.FreshIndexSorted | src/libqgit/index/index_sort.c:35-40 | an index read from any tree in Git tree order is sorted already, with paths all different: sorting changes nothing |
| TreeRead.FitsByLeaves | src/libqgit/index/index_read_tree.c:43-47 | the paths the walk forms fit exactly when the leaves' paths do |
| TreeRead.FreshIndexStored | src/libqgit/index/index_read_tree.c:53-57 | an index read from a tree survives its file: written and parsed it is the same |
| IndexCodec.Be32RoundTrip | src/libqgit/index/endian.h:31-48 | reading a stored word gives back its low 32 bits |
| IndexCodec.EntryRoundTrip | src/libqgit/index/index_parse.c:28-106 | a printed entry, of any path length, is read back but for times of more than 32 bits if its flags are consistent, and refused otherwise |
| IndexCodec.ParsedEntry | src/libqgit/index/index_parse.c:65-105 | what the parser accepts is consistent, fits its file form and takes as many bytes as printing it |
| IndexCodec.EntriesAligned | src/libqgit/index/index_write.c:38-40 | the entries before any entry take a multiple of eight bytes |
| IndexCodec.IndexRoundTrip | src/libqgit/index/index_write.c:72-118 | parsing a written index gives the entries back field for field if and only if all flags are consistent; otherwise it is refused |
| IndexCodec.AcceptedAgain | src/libqgit/index/index_parse.c:145-182 | whatever the parser accepts, with extensions and padding, is accepted again with the same entries once written in any order |
| IndexFile.FileAccepted | src/libqgit/index/index_parse.c:108-192 | a file of "DIRC", version 2, the count, entries with any padding and any extension blocks is read as the entries if all flags are consistent and the checksum is that of the bytes before it, and refused otherwise |
| IndexFile.FileOnly | src/libqgit/index/index_parse.c:108-192 | nothing else is read: every accepted file is of this form and ends with the checksum of what is before it |
| IndexFile.HeaderExactly | src/libqgit/index/index_parse.c:120-143 | the header must be "DIRC" and version 2, with room for a checksum |
| IndexFile.EntryAccepted | src/libqgit/index/index_parse.c:28-106 | an entry is read whatever its padding is, from its ten words, object name, flags and path in this order |
| IndexFile.EntryOnly | src/libqgit/index/index_parse.c:28-106 | nothing else is read as an entry |
| IndexFile.FlagsOkExactly | src/libqgit/index/index_parse.c:65-94 | the top bit is ignored, the extended bit must be clear, and twelve bits hold the length of the path or 4095 |
| IndexFile.Be32Bytes | src/libqgit/index/endian.h:31-48 | words are stored with the most significant byte first |
| IndexCodec.AddedFlagsOk | src/libqgit/index/index_add.c:93-94 | the flags given to added entries are consistent and hold the stage |
| IndexCodec.EntriesSize | src/libqgit/index/index_write.c:35-45 | the dry run returns the length of the printed entries |
| IndexCodec.EntryFmt | src/libqgit/index/index_write.c:46-67 | one round writes exactly the entry and nothing before it |
| IndexCodec.EntriesFmt | src/libqgit/index/index_write.c:30-70 | the writing pass fails exactly when the entries do not fit |
| IndexCodec.IndexWrite | src/libqgit/index/index_write.c:72-118 | sorts the index and puts out exactly its file; the second pass never fails |
| IndexCodec.EntryParse | src/libqgit/index/index_parse.c:28-106 | the moving pointer reads the entry at the start of the rest and never passes the checksum |
| IndexCodec.EntriesParse | src/libqgit/index/index_parse.c:145-157 | the loop reads as many entries as the header says, within the body |
| IndexCodec.ExtensionsParse | src/libqgit/index/index_parse.c:159-182 | accepts exactly the bodies that blocks fill up to the checksum |
| IndexCodec.IndexParse | src/libqgit/index/index_parse.c:108-192 | header, entries, extensions and checksum: the parse of the whole file, which IndexFile describes exactly |
| Signatures.OffsetRoundTrip | src/libqgit/object/signature/signature_parse.c:25-31 | a printed time zone is read back if and only if it is less than a hundred hours |
| Signatures.WhenRoundTrip | src/libqgit/object/signature/signature_parse.c:67-97 | any 64-bit time is read back from its decimal text, within the header |
| Signatures.SignatureRoundTrip | src/libqgit/object/signature/signature_parse.c:33-98 | a printed signature is read back if and only if the header holds all of it, the name has no '<', the address no '>' and the offset is short |
| Signatures.SignatureText | src/libqgit/object/commit/commit_create.c:59-79 | a signature is printed as name, address in brackets, seconds and zone: "A <a> 1700 -0530" |
| Signatures.ZoneText5 | src/libqgit/object/commit/commit_create.c:59-79 | a zone is printed as its sign, two digits of hours and two of minutes |
| Signatures.ZoneValue | src/libqgit/object/signature/signature_parse.c:25-31 | a zone is read as hours and minutes, east of Greenwich for a plus sign and west for any other byte |
| Signatures.Scan | src/libqgit/object/signature/signature_parse.c:44-45 | finds the first occurrence of a byte before the end |
| Signatures.WhenParse | src/libqgit/object/signature/signature_parse.c:67-97 | the time, and the zone read from the buffer between two NULs; nothing changes but bytes that become NUL, nothing up to the bracket, and on success nothing behind the newline |
| Signatures.SignatureParse | src/libqgit/object/signature/signature_parse.c:33-98 | parsing in place: on success name and address are the C strings left in the buffer; nothing changes but bytes that become NUL, and on success nothing behind the line |
| Signatures.SignatureSuffix | src/libqgit/object/signature/signature_parse.c:39-56 | the result depends only on the bytes from the starting point on |
| Payload.BlankLine | src/libqgit/object/commit/commit_parse.c:136 | where two newlines meet, if they do |
| Payload.MessageExactly | src/libqgit/object/commit/commit_parse.c:136-147 | the header ends at the first blank line, and the message is what follows it, up to a NUL; without a blank line there is none |
| Payload.SignatureLine | src/libqgit/object/commit/commit_parse.c:79-112 | the signature on a header line is read back if and only if it is sound: plain, and without blank lines |
| Payload.OidLineRead | src/libqgit/object/commit/commit_parse.c:39-74 | an object name printed on a header line is read back and the header goes on behind it |
| CommitCodec.CommitRoundTrip | src/libqgit/object/commit/commit_parse.c:23-155 | parsing a printed commit gives tree, parents in order, both signatures and the message with one more newline, if and only if both signatures are sound |
| CommitCodec.FieldsKept | src/libqgit/object/commit/commit_parse.c:79-112 | a signature once parsed is never replaced by a later line |
| CommitCodec.CommitText | src/libqgit/object/commit/commit_create.c:33-102 | a commit is printed line by line: tree, parents, author, committer, a blank line and the message with a newline |
| CommitLines.UnknownSkipped | src/libqgit/object/commit/commit_parse.c:114-117 | a line of no known keyword is skipped up to its newline, or to the end of the header |
| CommitLines.LinesExactly | src/libqgit/object/commit/commit_parse.c:23-155 | a payload of header lines in any order is read as the commit of its one tree, author and committer, the parents in order and the message, if there is one; it is refused if one of the three is missing or comes twice |
| CommitLines.PrintedLines | src/libqgit/object/commit/commit_create.c:33-102 | a printed commit is such a payload |
| CommitLines.UnknownLinesIgnored | src/libqgit/object/commit/commit_parse.c:114-117 | unknown lines put in anywhere among the lines of a printed commit change nothing |
| CommitLines.CutShort | src/libqgit/object/commit/commit_parse.c:39-112 | a header that ends within an object name, or right behind a keyword, is refused |
| CommitLines.NoObjectName | src/libqgit/object/commit/commit_parse.c:51-71 | so is one with a byte that is no hex digit in an object name |
| Readability.LineReadable | src/libqgit/object/signature/signature_parse.c:44-97 | a signature printed on one line is parsed, and the parse goes on behind the line, if and only if its name and address are readable |
| Readability.CommitReadable | src/libqgit/object/commit/commit_parse.c:23-155 | a commit of one-line signatures can be read if and only if both are readable; then with the printed tree, parents and message |
| Readability.ParentsFirst | src/libqgit/object/commit/commit_parse.c:39-74 | whatever the signatures hold, a commit that can be read has the printed tree and, first, the printed parents |
| Readability.UnreadableCommit | src/libqgit/object/signature/signature_parse.c:66-75 | with the address `a>b` no commit can be read |
| Readability.OpeningBracketReadable | src/libqgit/object/signature/signature_parse.c:44-56 | with a '<' in the name and no '>' in the address it can |
| Readability.SoundReadable | src/libqgit/object/signature/signature_parse.c:33-98 | sound signatures are readable |
| CommitCodec.CommitSize | src/libqgit/object/commit/commit_create.c:104-127 | the dry run returns the length of the printed commit |
| CommitCodec.CommitFmt | src/libqgit/object/commit/commit_create.c:33-102 | the writing pass fails exactly when the commit does not fit |
| CommitCodec.ParentsFmt | src/libqgit/object/commit/commit_create.c:47-57 | one line for each parent, in order |
| CommitCodec.MessageFmt | src/libqgit/object/commit/commit_create.c:81-102 | blank line, message and newline, with room needed for nothing more |
| CommitCodec.CommitData | src/libqgit/object/commit/commit_create.c:141-153 | both passes agree: the second never fails and fills the buffer |
| CommitCodec.LineParse | src/libqgit/object/commit/commit_parse.c:30-117 | one turn of the header loop, in place |
| CommitCodec.HeaderParse | src/libqgit/object/commit/commit_parse.c:23-126 | the header loop over the buffer it changes is the parse of the unchanged buffer |
| CommitCodec.CommitParse | src/libqgit/object/commit/commit_parse.c:128-155 | header and message of the payload |
| TagCodec.TagRoundTrip | src/libqgit/object/tag/tag_parse.c:22-168 | parsing a printed tag gives everything back, a message with one more newline, if and only if the name is one line and the tagger is sound |
| TagCodec.NameRead | src/libqgit/object/tag/tag_parse.c:86-111 | the name found is the printed one up to its first newline |
| TagCodec.TagText | src/libqgit/object/tag/tag_create.c:28-81 | a tag is printed line by line: object, type, name, tagger, a blank line and the message with a newline |
| TagLines.UnknownSkipped | src/libqgit/object/tag/tag_parse.c:129-132 | a line of no known keyword is skipped up to its newline, or to the end of the header |
| TagLines.LinesExactly | src/libqgit/object/tag/tag_parse.c:22-168 | a payload of header lines in any order is read as the tag of its one object, type, name and tagger and the message, if there is one; it is refused if one is missing, comes twice or names no type |
| TagLines.PrintedLines | src/libqgit/object/tag/tag_create.c:28-81 | a printed tag is such a payload |
| TagLines.UnknownLinesIgnored | src/libqgit/object/tag/tag_parse.c:129-132 | unknown lines put in anywhere among the lines of a printed tag change nothing |
| TagLines.CutShort | src/libqgit/object/tag/tag_parse.c:39-127 | a header that ends within the object name, or right behind a keyword, is refused |
| TagLines.NotALine | src/libqgit/object/tag/tag_parse.c:39-111 | so is one with a byte that is no hex digit in the object name, or a type or a name without its newline |
| TagLines.NulInName | src/libqgit/object/tag/tag_parse.c:86-111 | and one whose name holds a NUL |
| TagLines.TypeOfExactly | src/libqgit/object/object/object_string2type.c:23-38 | the types are "commit", "tree", "blob" and "tag", and no other text |
| TagCodec.TagFmt | src/libqgit/object/tag/tag_create.c:28-81 | sizing and printing agree on the payload |
| TagCodec.LineParse | src/libqgit/object/tag/tag_parse.c:29-133 | one turn of the header loop, in place |
| TagCodec.HeaderParse | src/libqgit/object/tag/tag_parse.c:22-142 | the header loop over the buffer it changes is the parse of the unchanged buffer |
| TagCodec.TagParse | src/libqgit/object/tag/tag_parse.c:144-168 | header and message of the payload |
| OidHex.OidFmt | src/libqgit/oid/oid_fmt.c:22-26 | two digits for every byte |
| OidHex.OidFromStrN | src/libqgit/oid/oid_fromstrn.c:23-47 | the loop over digit pairs with a last single digit computes the parsed name |
| OidHex.HexTable | src/libqgit/oid/oid.h:21-45 | the digits are 0 to 9 and a to f in either case, and are printed in lower case |
| OidHex.CaseIgnored | src/libqgit/oid/oid_fromstrn.c:23-47 | a text and its lower-case form are parsed as the same name |
| OidHex.ParsedPrefix | src/libqgit/oid/oid_fromstrn.c:23-47 | parsing succeeds on one to forty hex digits of either case only, and the result begins with these digits in lower case and goes on with zeros |
| OidHex.HexRoundTrip | src/libqgit/oid/oid_fromstr.c:20-23 | parsing a printed name gives it back |
| OidHex.HexInjective | src/libqgit/oid/oid.h:40-45 | different names have different digits |
| OidHex.NCmpIsPrefix | src/libqgit/oid/oid_ncmp.c:21-32 | comparing up to a length, odd or even, is zero if and only if the digits up to it are the same |
| OidHex.NCmpByDigits | src/libqgit/oid/oid_ncmp.c:21-32 | otherwise its sign is the order of these digits |
| LoosePrefix.ReadPrefix | src/libqgit/odb/odb_backend/loose/loose_read_prefix.c:44-84 | the scan finds the one matching entry of the directory; none or several is a failure |
| LoosePrefix.PrefixLookup | src/libqgit/odb/odb_backend/loose/loose_read_prefix.c:28-87 | four to forty digits, in either case, find a name if and only if exactly one stored name begins with them, and find that one |
| LoosePrefix.PrefixIsNCmp | src/libqgit/oid/oid_ncmp.c:21-32 | beginning with the digits is the same as comparing equal up to their number |
| Heap.Vector.PushBack | src/collection/vector.c:180-196 | appends, growing the buffer when it is full |
| Heap.Heap.Push | src/collection/heap.c:87-96 | keeps heap order and adds one element to the multiset |
| Heap.Heap.Pop | src/collection/heap.c:98-119 | removes and returns a least element, or fails on an empty heap |
| Heap.Heap.ShiftUp | src/collection/heap.c:128-140 | restores heap order from a violation at one element, with the same elements |
| Heap.Heap.ShiftDown | src/collection/heap.c:142-164 | restores heap order from a violation below one element, with the same elements |
| Heap.RootLeast | src/collection/heap.c:98-119 | in heap order the root is least, for any total preorder |
| Heap.UpStep | src/collection/heap.c:133-138 | one swap with the parent moves the violation up |
| Heap.DownStep | src/collection/heap.c:146-162 | one swap with the smallest child moves the violation down |
| Heap.DrainSorted | src/collection/heap.c:98-119 | any number of pops yields the least elements in order, with what is left a permutation of what was there |
| Heap.Heap.Drain | src/collection/heap.c:98-119 | popping until the heap is empty gives a sorted permutation of its elements |
| HashTable.MaskIsMod | src/collection/hashtbl.c:308-311 | masking with a power of two minus one is the remainder |
| HashTable.BucketCountPower | src/collection/hashtbl.c:313-316 | the number of buckets is a power of two, and a multiple of four |
| HashTable.HashTable.PlaceOf | src/collection/hashtbl.c:171-178 | the node of every key is in the chain its masked hash names |
| HashTable.HashTable.NodeAt | src/collection/hashtbl.c:126-133 | every node of a chain is the one node of its key, belongs to that bucket and links to the next |
| HashTable.HashTable.FindNode | src/collection/hashtbl.c:122-135 | walking one chain finds the node of a key, and fails only for absent keys |
| HashTable.HashTable.Find | src/collection/hashtbl.c:117-120 | lookup in the finite map |
| HashTable.HashTable.Insert | src/collection/hashtbl.c:157-180 | adds an absent key, refuses a present one, and keeps the load at three quarters at most under the default threshold |
| HashTable.HashTable.Update | src/collection/hashtbl.c:182-195 | replaces the value of a present key only, and gives back the old one |
| HashTable.HashTable.Remove | src/collection/hashtbl.c:197-231 | takes the key out of the map and its node out of its chain |
| HashTable.HashTable.Clear | src/collection/hashtbl.c:233-251 | the empty map, with the buckets kept |
| HashTable.HashTable.Search | src/collection/hashtbl.c:203-227 | finds the node of a key with the node before it in its chain, or that there is none |
| HashTable.HashTable.Bypass | src/collection/hashtbl.c:217-220 | changes the one pointer that leads to the node, and nothing else |
| HashTable.HashTable.Rehash | src/collection/hashtbl.c:313-337 | the same map in twice as many buckets, every node in the bucket its hash now names |
| HashTable.HashTable.MoveChain | src/collection/hashtbl.c:320-332 | emptying one bucket moves each of its nodes, once |
| HashTable.PushedFront | src/collection/hashtbl.c:172-179 | linking a node in at the head of its bucket keeps every chain intact |
| HashTable.Unlinked | src/collection/hashtbl.c:197-231 | unlinking a node at any position keeps every chain intact |
| OidSet.Set.Contains | src/collection/set.c:66-71 | membership |
| OidSet.Set.Insert | src/collection/set.c:73-82 | the set with the element, unchanged if it was there |
| OidSet.Set.Remove | src/collection/set.c:84-93 | the set without the element |
| OidSet.Set.Clear | src/collection/set.c:95-100 | the empty set |
| RevWalk.RevWalker.constructor | src/libqgit/revwalk/revwalk_new.c:71-99 | a blank walker |
| RevWalk.RevWalker.Push | src/libqgit/revwalk/revwalk_push.c:22-57 | starts a walk exactly from a blank state and a stored commit |
| RevWalk.RevWalker.EnqueueParents | src/libqgit/revwalk/revwalk_next.c:29-69 | enqueues the followed parents not yet visited, stopping at a missing one |
| RevWalk.RevWalker.Next | src/libqgit/revwalk/revwalk_next.c:22-85 | emits a newest commit of the frontier, or resets the walker at the end |
| RevWalk.RevWalker.Reset | src/libqgit/revwalk/revwalk_reset.c:22-28 | the blank state |
| RevWalk.RunInv | src/libqgit/revwalk/revwalk_next.c:22-73 | in every state of a run, visited is emitted plus frontier, each once, all reachable, and all parents of emitted commits are visited |
| RevWalk.WalkExact | src/libqgit/revwalk/revwalk_next.c:22-85 | a finished run has emitted exactly the reachable commits, each once, in any graph |
| RevWalk.RunBounded | src/libqgit/revwalk/revwalk_next.c:34-62 | no run is longer than there are commits |
| RevWalk.StuckMeansMissing | src/libqgit/revwalk/revwalk_next.c:46-50 | a step fails only if a reachable commit is missing |
| RevWalk.TimesFall | src/libqgit/revwalk/revwalk_new.c:23-36 | sufficient for it: if no parent is newer than its child, emitted times never increase |
| RevWalk.ChildrenFirst | src/libqgit/revwalk/revwalk_next.c:26-68 | sufficient for it: if parents are strictly older, every commit comes out before its parents |
| RevWalk.ParentBeforeChild | src/libqgit/revwalk/revwalk_next.c:26-68 | a graph with a parent newer than its child, in which the parent comes out first |
| RevOrder.NewestFirstExactly | src/libqgit/revwalk/revwalk_next.c:26-68 | the times of a run never increase if and only if each emitted commit is reached by a path of commits at least as new as it |
| RevOrder.BeforeNeedsClear | src/libqgit/revwalk/revwalk_next.c:26-68 | no run brings out one commit before another unless a path leads to it around the other that is never overtaken |
| RevOrder.ClearGivesBefore | src/libqgit/revwalk/revwalk_new.c:23-36 | along such a path some finished run brings it out first: with ties broken in favour of the path |
| RevOrder.BeforeExactly | src/libqgit/revwalk/revwalk_next.c:26-68 | so it is possible for a reachable other if and only if there is such a path |
| RevOrder.ChildrenFirstExactly | src/libqgit/revwalk/revwalk_next.c:26-68 | all finished runs bring out children before parents if and only if no commit has such a path to one of its parents |
| RevWalk.FirstParentRun | src/libqgit/revwalk/revwalk_next.c:30-33 | in first-parent mode a run follows the first-parent chain, with at most one commit left to do |
| RevWalk.FirstParentToRoot | src/libqgit/revwalk/revwalk_next.c:30-33 | without cycles a finished first-parent run ends at a commit without parents |
| RevWalk.Log | src/cmd/log/log.c:71-93 | without a limit it succeeds if and only if all reachable commits are stored, and has then finished; with one, it emits no more than that |
| Refs.RefStore.ResolveRef | src/libqgit/refs/reference_resolve.c:24-66 | the loop ends on chains without a circle, with the direct reference at their end or the reason there is none |
| Refs.ResolveStep | src/libqgit/refs/reference_resolve.c:48-58 | a symbolic reference resolves to what its target resolves to |
| Refs.ValidNameExactly | src/libqgit/refs/reference.h:46-54 | a name is valid if and only if it is HEAD or begins with "refs/", and holds no two dots in a row |
| Refs.TipDirect | src/libqgit/refs/reference_resolve.c:50-61 | a resolution ends at a stored direct reference |
| Refs.TipWritten | src/libqgit/refs/reference_set_oid.c:23-53 | once the direct reference is rewritten, the name resolves to the new object through it |
| Refs.StillAcyclic | src/libqgit/refs/reference_set_oid.c:44-48 | writing an object name or removing a file makes no circle |
| Refs.RefStore.CreateOid | src/libqgit/refs/reference_create_oid.c:26-75 | creates exactly for valid names, over an existing reference only with force |
| Refs.RefStore.SetOid | src/libqgit/refs/reference_set_oid.c:23-53 | rewrites a direct reference only |
| Refs.RefStore.Delete | src/libqgit/refs/reference_delete.c:25-43 | removes one reference that is there |
| Refs.UpdateRef | src/cmd/update-ref/update-ref.c:100-191 | accepts exactly the updates of its specification; a rejected call changes nothing |
| Refs.DeleteRef | src/cmd/update-ref/update-ref.c:48-98 | accepts exactly the deletions of its specification; a rejected call changes nothing |
| Refs.CompareAndSwap | src/cmd/update-ref/update-ref.c:143-186 | with an expected object the update goes through if and only if the name resolves to it; then the name resolves to the new object through the same reference |
| Refs.SecondSwapLoses | src/cmd/update-ref/update-ref.c:152-175 | of two updates that expect the same object, the second is rejected unless the first wrote that object again |
| Refs.ZerosCreate | src/cmd/update-ref/update-ref.c:124-141 | forty zeros go through if and only if the name is valid and absent |
| Refs.UpdateChangesOne | src/cmd/update-ref/update-ref.c:133-186 | an accepted update changes exactly the name that the given one resolves to, or that name itself, to the new object; it held the expected object, if one was expected; the store stays acyclic |
| Refs.DeleteRemovesOne | src/cmd/update-ref/update-ref.c:60-98 | an accepted deletion removes exactly the name that the given one resolves to, or that name itself, which held the expected object, if one was expected; the store stays acyclic |
| Refs.CompareAndDelete | src/cmd/update-ref/update-ref.c:60-98 | with an expected object the deletion goes through if and only if the name resolves to it; then the reference it resolves to is gone |
| Refs.DeleteZerosUnchecked | src/cmd/update-ref/update-ref.c:72 | in delete mode forty zeros check nothing |
| Refs.UnbornRejected | src/cmd/update-ref/update-ref.c:143-150 | a branch without commits cannot be updated through a symbolic reference |
| Refs.UncheckedUpdate | src/cmd/update-ref/update-ref.c:124-186 | an unchecked update that follows references writes what the name resolves to, or a valid name without a reference, and is rejected otherwise |
| Refs.DirectUpdate | src/cmd/update-ref/update-ref.c:133-186 | without following references an update goes through exactly for valid names over whatever can be read, or with an expected object over a direct reference that holds it; it writes that name |
| Refs.Detach | src/cmd/update-ref/update-ref.c:177-181 | so HEAD can be detached from a branch |
| Refs.UncheckedDelete | src/cmd/update-ref/update-ref.c:48-98 | which deletions go through without an expected object, and without following references; what they remove |
| Refs.UnknownExpected | src/cmd/update-ref/update-ref.c:152-175 | with an expected or a new object that does not resolve nothing goes through |
| Refs.Advance | src/libqgit/object/commit/commit_create.c:163-211 | the steps on the store compute its advanced state, or change nothing |
| Refs.HeadAdvanced | src/libqgit/object/commit/commit_create.c:163-211 | afterwards HEAD resolves to the commit and only its branch has changed |
| Refs.CanAdvance | src/libqgit/object/commit/commit_create.c:179-203 | HEAD can be advanced if and only if it resolves or names directly a branch that is not there |
| Refs.AdvancedExactly | src/libqgit/object/commit/commit_create.c:163-211 | for any name: what it resolves to is written, or the name itself if it is a valid one without a reference, or such a name that it names directly; otherwise it is refused |
| Refs.AdvanceChangesOne | src/libqgit/object/commit/commit_create.c:163-211 | advancing any name changes exactly one reference, to the new object, and keeps the store acyclic |
| Refs.ApplyAll | src/libqgit/refs/reference_resolve.c:50-59 | after any run of updates, deletions and advances on an acyclic store every resolution terminates, and every reference is as it was or direct |
| Commits.LookupCommit | include/libqgit/object/commit.h:39-43 | finds exactly the stored objects that are commits and parse |
| Commits.CommitCreate | src/libqgit/object/commit/commit_create.c:130-213 | the commit object is stored in any case, the reference advanced if it can be |
| Commits.WrittenCommit | src/libqgit/object/commit/commit_create.c:149-159 | a commit of sound signatures is found again under its name, with its first parent |
| Commits.CommitCmd | src/cmd/commit/commit.c:56-86 | HEAD's branch is advanced to the new commit on the old tip exactly for what HEAD is and for paths that fit, and no other reference changes; the new commit's tree encodes the index; the command succeeds if the commit can moreover be read, with a one-line signature exactly if that is readable |
| Commits.ReadParents | src/cmd/commit/commit.c:56-70 | the parents: none for an unborn branch, else the commit HEAD resolves to, which must be one |
| Commits.WriteCommit | src/cmd/commit/commit.c:76-86 | HEAD is advanced if it can be, whether or not the commit can then be read; success needs both |
| Commits.CanCommitIs | src/cmd/commit/commit.c:56-78 | what a commit needs of HEAD is that its parents can be read and that it can be advanced; its branch alone changes then |
| Commits.NoMoreCommits | src/cmd/commit/commit.c:64-66 | once HEAD has been advanced to a commit that cannot be read, no further commit can be made |
| Commits.ConfiguredOnOneLine | src/credentials.c:31-45 | name and address from configuration files are on one line, so the condition on them is exact for every user |
| Commits.StepOfRun | src/cmd/commit/commit.c:56-86 | what one successful commit does to HEAD, its branch and the first parent |
| Commits.RunOfCommits | src/cmd/commit/commit.c:56-78 | over any run of successful commits HEAD resolves to the newest through the same reference, no other reference changes, all can be read, and each commit's first parent is the one before; a first commit without a parent has none if its signatures are on one line |
| Commits.HistoryOfRun | src/cmd/commit/commit.c:64-78 | first parents from the newest commit list the run in reverse, then the original tip |
| History.WalkedChain | src/libqgit/revwalk/revwalk_next.c:30-33 | in a graph without cycles a finished first-parent walk brings out exactly the chain of first parents, to a commit without any |
| History.LogAfterRun | src/cmd/log/log.c:71-93 | in a graph without cycles the first-parent log after a run of commits is the run in reverse, then the log before it |
| Ini.IniFile.GetEntry | src/iniparse/parser.c:165-179 | finds the first live entry of a key in the first section of its name |
| Ini.IniFile.Get | src/iniparse/parser.c:213-217 | the value in the map, if there is one |
| Ini.IniFile.PutEntry | src/iniparse/parser.c:82-114 | appends to the section, or to a new one |
| Ini.IniFile.Set | src/iniparse/parser.c:219-231 | an update of one key of one section; every other lookup is unchanged, and at most one live entry per key is kept |
| Ini.IniFile.Unset | src/iniparse/parser.c:233-247 | removes the key from the map on tables with one live entry per key; fails for an absent one |
| Ini.UnsetExact | src/iniparse/parser.c:235-244 | a key is gone after it has been unset if and only if it had no second live entry |
| Ini.ValueAfterPut | src/iniparse/parser.c:82-114 | an appended entry is found unless an earlier one hides it |
| Ini.IniFile.Parse | src/iniparse/parser.c:181-211 | the loop over the buffer it changes is the parse of the unchanged text; when it fails the table holds what was put before |
| Ini.SectionParse | src/iniparse/parser.c:116-135 | the section's name without spaces around it, left in the buffer as a C string, and the next line; nothing before or behind is touched |
| Ini.EntryParse | src/iniparse/parser.c:137-163 | key and value, left in the buffer as C strings, and the next line; without '=' the line after it is lost; nothing before or behind is touched |
| Ini.ScanBack | src/iniparse/parser.c:130-132 | stepping back over spaces strips exactly them |
| Ini.WriteTo | src/iniparse/write.c:82-92 | puts out exactly the text of the table and counts it |
| Ini.TableText | src/iniparse/write.c:82-92 | a table is printed as its sections in brackets, with a tab, the key, an equals sign and the value on a line for each entry |
| Ini.PrintedTableRead | src/iniparse/write.c:74-99 | parsing a printed table of plain texts preserves every lookup, with a missing value read back as empty |
| Ini.PrintedTableExactly | src/iniparse/write.c:74-99 | for tables with one live entry per key and none of their sections without one: every lookup is preserved if and only if all texts are plain |
| IniLines.LinesExactly | src/iniparse/parser.c:116-211 | a file is parsed line by line: spaces around parts are dropped, comments and blank lines change nothing, a section line opens its section and one without its bracket closes it, an entry is put in, one without '=' loses the next line, and one outside a section fails |
| Ini.ParsedPlain | src/iniparse/parser.c:181-211 | all texts of a parsed table are plain, whatever was parsed |
| Ini.ValueExactly | src/iniparse/parser.c:137-163 | a printed value is read back if and only if it is plain |
| Ini.KeyExactly | src/iniparse/parser.c:137-163 | the line of an entry is read as one of its key if and only if the key is plain |
| Ini.SectionExactly | src/iniparse/parser.c:116-135 | the line of a section is read as one of its name if and only if the name is plain |
| Strings.StrStrFinds | src/collection/string.c:519 | an occurrence is found unless a NUL stands before it |
| Strings.ReplaceIsJoin | src/collection/string.c:507-536 | replacing all occurrences is splitting and joining with the replacement, whatever it contains |
| Strings.JoinSplit | src/collection/string.c:554-591 | joining with the separator undoes splitting |
| Strings.SplitJoin | src/collection/string.c:647-676 | splitting undoes joining if and only if no part, with the separator behind it, holds an earlier occurrence |
| Strings.PartsWithoutSep | src/collection/string.c:570-590 | no part of a split C string contains the separator |
| Strings.Str.Reserve | src/collection/string.c:136-149 | room for more, with the content kept |
| Strings.Str.Append | src/collection/string.c:250-265 | the content with the text behind it |
| Strings.Str.ReplaceAt | src/collection/string.c:522-532 | one occurrence replaced in place, whether the new text is shorter or longer |
| Strings.Str.ReplaceEach | src/collection/string.c:507-536 | the loop in place, which ends even if the replacement contains the pattern, replaces all occurrences |
| Strings.SplitAll | src/collection/string.c:554-591 | the loop computes the parts, and refuses an empty separator |
| Strings.JoinAll | src/collection/string.c:647-676 | the loop of appends joins the parts |
| Libc.ReadBackUnsigned | src/libqgit/object/tree/tree_parse.c:30-36 | `strtoul` reads back what `%o` and `%lu` print |
| Libc.ReadBackSigned | src/libqgit/object/signature/signature_parse.c:67-73 | `strtoul` and the conversion to `time_t` read back what `%ld` prints, also for times before 1970 |
| Libc.NumberRead | src/libqgit/object/signature/signature_parse.c:66-75 | what `strtoul` makes of any text: spaces, a sign and digits, an error for a number that does not fit, and a minus sign that wraps around |
| Libc.IsSpaceExactly | src/iniparse/parser.c:130-132 | the six bytes that are spaces in the C locale |
| Libc.IsDigitExactly | src/libqgit/object/tree/tree_parse.c:30-36 | the digits of a base, and no other bytes |
| Sorting.SortedUnique | src/collection/vector.c:256-263 | a strictly sorted list is determined by its elements, whatever `qsort` does with ties |

## Left out

* Files, directories, `mmap`, `stat`, locks, renaming and temporary files: stores are maps, directories are lists of names, file contents are byte strings. Failures of these calls are not modelled.
* zlib and SHA-1 themselves, and the header of raw objects. SHA-1 is a parameter; what is proved about stored objects holds as long as no write replaces a different object.
* Failing allocations and freeing memory.
* Command lines, help texts, colours, dates, listings and messages; the codes set by `qgit_seterror` beyond success, absence and failure.
* Fixed-width `int` totals of the two-pass printers and `size_t` overflow: sizes are unbounded.
* `strtoul` reading behind the end of a payload: a number that would have to be read there counts as a failure.
* A key line without '=' at the very end of a configuration file, where the parser reads behind the buffer's NUL: the model ends there.
* The floating-point load factor: the hash table compares exact quotients of reals.
* The hash table's iterator, which does not skip an empty first bucket.
* `hashtbl_setthreshold`: the threshold is a field of the table, and the bound on the load is stated for its default value.
* The check of `index->owner` before trees are written, the sort modes of the revision walk other than by time, `qgit_revwalk_push_head`.
* Resolving a revision such as a branch name or an abbreviated id to the object given to update-ref: the resolved object, or that there is none, is a parameter.
* Symbolic references in a circle: resolution has no check for them, so a chain that ends is a precondition.
* Concurrent commands: check and write are not under a lock, so only sequential steps are modelled.
* Creating the reference of a tag, and `symbolic-ref`.
* Path length limits of reference files and object directories.
* Reference files with other content than an object name or a symbolic reference: they are `Broken`, and looking one up fails.
* The commands other than commit, log and update-ref, and finding or creating a repository.
* Ini.PrintedTableRead: one direction only; PrintedTableExactly has both, for tables in which no entry hides another and no section is empty, because of hidden texts nothing can be looked up.
* Signatures.SignatureParse: after a failed parse it is stated that only NULs have been written, not where.
* Commits.RunOfCommits: a first commit without a parent, of a name or an address of several lines, may read back with parents that those lines make up; nothing is stated of it.
* History.LogAfterRun: that no commit is its own ancestor is a premise, which for SHA-1 is an assumption.
