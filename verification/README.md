# Linux kernel selection, dispatch and small-state cores in Dafny

This project models, and proves properties of, several pieces of a Linux kernel tree.

**CPU masks (`lib/cpumask.c`).**
- The ordered searches over a CPU mask: `cpumask_next`, `cpumask_next_and` and `cpumask_any_but`.
- Wrap-around iteration with `cpumask_next_wrap`, the step behind `for_each_cpu_wrap`.
- NUMA-aware spreading with `find_nearest_node`, `cpumask_local_spread` and its fallback `__cpumask_local_spread`.
- The rotating picker `cpumask_any_and_distribute`.
- A mask is a `set<nat>`. Only ids below `nbits` (nr_cpu_ids) count, and `nbits` doubles as "none found".
- `Members(m, lo, hi)` lists the members of `m` in `[lo, hi)` in ascending order. It is the reference against which every walk is proved.

**fsinfo (`fs/fsinfo.c` and `include/linux/fsinfo.h`).**
- The attribute dispatcher: the Nth/Mth validity rules and the minimum buffer size.
- The common attribute table, whose struct sizes are checked against the C layout of the uapi header's structs.
- The de-duplicating attribute-id list and the filesystem-table-then-common-table fallback.
- The buffer-negotiating `vfs_fsinfo` loop.
- The mount-object entry point, and the system call's argument checks and copy-out.
- The feature bitmap helpers.
- The getters that read a superblock are one abstract handler per table.

**kAFS (`fs/afs/super.c`).**
- The mount-source parser `afs_parse_source`.
- Its printers `afs_show_devname` and `afs_show_options`, with round-trip lemmas back to the parser.
- The statfs block arithmetic.

**Smaller state machines.**
- The Exynos UFS command-history ring (`drivers/scsi/ufs/ufs-exynos-dbg.c`).
- The Mellanox CPLD I2C mux channel cache (`drivers/i2c/muxes/i2c-mux-mlxcpld.c`).
- The PA-RISC futex value semantics and lock hash (`arch/parisc/include/asm/futex.h`).
- The ARC PROM console's line-feed expansion (`arch/mips/fw/arc/arc_con.c`).

Error codes are a symbolic `Errno` datatype in `KernelTypes`. The code only compares and returns them, and their numbers differ between architectures.

## Model

| member | source | states |
|---|---|---|
| CpuMask.Members | lib/cpumask.c:11-24 | the reference enumeration: exactly the members of the mask in the range, strictly ascending |
| CpuMask.FindNextBit | lib/cpumask.c:18-24 | find_next_bit: the first member at or after the offset, or the size when there is none below it |
| CpuMask.Next | lib/cpumask.c:11-24 | cpumask_next(n): the smallest member above n (n = -1 allowed), or nbits when none |
| CpuMask.NextAnd | lib/cpumask.c:27-43 | cpumask_next_and(n): the smallest member of the intersection above n, or nbits |
| CpuMask.NextAfterUnique | lib/cpumask.c:11-24 | the "next member after n" property pins down a single answer |
| CpuMask.MembersSkip | lib/cpumask.c:11-24 | skipping a stretch with no members does not change the enumeration |
| CpuMask.WalkFromIsMembers | lib/cpumask.c:11-24 | repeated cpumask_next from n visits exactly the members above n, ascending |
| CpuMask.ForEachCpu | lib/cpumask.c:11-24 | for_each_cpu, built from cpumask_next starting at -1, enumerates every member below nbits once, ascending |
| CpuMask.WalkAndFromIsMembers | lib/cpumask.c:27-43 | repeated cpumask_next_and visits exactly the common members above n, ascending |
| CpuMask.WalkAndIsWalk | lib/cpumask.c:27-43 | walking with next_and over two masks equals walking their intersection with next |
| CpuMask.ForEachCpuAnd | lib/cpumask.c:27-43 | for_each_cpu_and enumerates exactly the intersection, ascending |
| CpuMask.AnyBut | lib/cpumask.c:46-63 | cpumask_any_but: the first member other than cpu; nbits exactly when the mask below nbits holds nothing but cpu |
| CpuMask.NextWrap | lib/cpumask.c:66-95 | cpumask_next_wrap terminates and answers a member of the mask or nbits |
| CpuMask.NextInMembers | lib/cpumask.c:11-24 | cpumask_next from one entry of the enumeration gives the following entry, or leaves the range after the last |
| CpuMask.FirstOfMembers | lib/cpumask.c:11-24 | cpumask_next from lo - 1 gives the first entry of the enumeration from lo |
| CpuMask.WrapRestart | lib/cpumask.c:78-95 | after the walk passes nbits it restarts once from -1 and continues with the members below start |
| CpuMask.WrapFirst | lib/cpumask.c:66-95 | the first wrap step from start - 1 answers the first entry of the wrap order, or nbits when it is empty |
| CpuMask.WrapStep | lib/cpumask.c:66-95 | each further wrap step answers the next entry of the wrap order, and nbits after the last |
| CpuMask.WrapWalk | lib/cpumask.c:66-95 | the whole for_each_cpu_wrap walk: members at or above start ascending, then those below start ascending, each once, then nbits |
| CpuMask.ForEachCpuWrap | lib/cpumask.c:66-95 | the loop driving cpumask_next_wrap visits the members at or above start, then those below it, each exactly once |
| LocalSpread.Scan | lib/cpumask.c:279-282 | one `if (i-- == 0) return cpu` walk: the i-th CPU of the list, or what is left of i |
| LocalSpread.ScanAppend | lib/cpumask.c:290-308 | counting down over two walks in turn is counting down over their concatenation |
| LocalSpread.CalcNodeDistance | lib/cpumask.c:196-202 | the distance table holds node_distance(node, k) for every node id k |
| LocalSpread.FirstUnused | lib/cpumask.c:208-215 | the first unused node at or after i, or -1 exactly when none is unused |
| LocalSpread.NearestFrom | lib/cpumask.c:217-223 | the minimum scan keeps an unused node no farther than any other unused one, ties to the lower id |
| LocalSpread.FindNearestNode | lib/cpumask.c:204-226 | find_nearest_node: -1 exactly when every node is used, otherwise the unused node nearest first, ties to the lower id |
| LocalSpread.NearestUnique | lib/cpumask.c:204-226 | at most one unused node is nearest under that tie-break |
| LocalSpread.CountUnusedZero | lib/cpumask.c:204-226 | no node is left unused exactly when every node is used |
| LocalSpread.MarkUsedCount | lib/cpumask.c:290-303 | marking the chosen node used leaves one unused node fewer, so the node loop ends |
| LocalSpread.NoneUsed | lib/cpumask.c:288 | the cleared used[] array marks no node |
| LocalSpread.NoneUsedCount | lib/cpumask.c:288 | after the clear every node is unused |
| LocalSpread.NodeOrderExact | lib/cpumask.c:290-303 | the nearest-first node order holds exactly the unused nodes |
| LocalSpread.NodeOrderDistinct | lib/cpumask.c:290-303 | the node order uses each node at most once |
| LocalSpread.NodeOrderNearest | lib/cpumask.c:290-303 | the node order runs by distance, ties to the lower id |
| LocalSpread.NodeOrderSorted | lib/cpumask.c:290-303 | the node order is exact, repeat-free and nearest first |
| LocalSpread.NodeCpusOnline | lib/cpumask.c:295-296 | every CPU listed node by node is online and below nr_cpu_ids |
| LocalSpread.SpreadNodes | lib/cpumask.c:290-303 | the node-by-node countdown answers an online CPU or what is left of i |
| LocalSpread.SpreadNodesIsScan | lib/cpumask.c:290-303 | the node-by-node countdown equals one countdown over the online CPUs of the nodes in nearest-first order |
| LocalSpread.SpreadOnline | lib/cpumask.c:276-282 | the NUMA_NO_NODE walk with i below the online count finds an online CPU, so BUG() is not reached |
| LocalSpread.LocalSpreadFallback | lib/cpumask.c:228-255 | __cpumask_local_spread always answers an online CPU |
| LocalSpread.SkipMaskMembers | lib/cpumask.c:245-252 | a walk that skips the local node's CPUs with `continue` enumerates the members outside that node |
| LocalSpread.RemoteCpus | lib/cpumask.c:245-252 | the fallback's second walk visits exactly the online CPUs off the node, ascending |
| LocalSpread.LocalRemoteSplit | lib/cpumask.c:240-252 | the local and the remote walk together cover the online CPUs, with no CPU counted twice |
| LocalSpread.SpreadNearest | lib/cpumask.c:284-309 | the locked part of cpumask_local_spread answers an online CPU |
| LocalSpread.LocalSpread | lib/cpumask.c:268-311 | cpumask_local_spread always answers an online CPU below nr_cpu_ids |
| LocalSpread.NoNodeIsIndex | lib/cpumask.c:276-282 | with NUMA_NO_NODE the answer is the (i mod n)-th online CPU, ascending |
| LocalSpread.NoNodeAt | lib/cpumask.c:276-282 | with NUMA_NO_NODE and i below n the answer is the i-th online CPU |
| LocalSpread.NoNodeCoversOnline | lib/cpumask.c:276-282 | with NUMA_NO_NODE, i = 0 .. n-1 hand out every online CPU exactly once |
| LocalSpread.NearestFirstIsIndex | lib/cpumask.c:284-309 | with a node, the answer is entry i mod n of the node-by-node list (nearest node first) followed by all online CPUs |
| LocalSpread.NearestOrderIsSorted | lib/cpumask.c:284-309 | the nearest-first order takes every node id exactly once, by distance from the node, ties to the lower id |
| LocalSpread.LocalNodeFirst | lib/cpumask.c:284-309 | when the node is strictly nearest to itself, the first answers are its own online CPUs, in order |
| LocalSpread.FallbackIsIndex | lib/cpumask.c:228-255 | the fallback answers entry i mod n of local-then-remote CPUs, a list holding each online CPU once |
| LocalSpread.FallbackDistinct | lib/cpumask.c:240-243 | the fallback's local walk repeats no CPU |
| Distribute.AnyAndDistribute | lib/cpumask.c:324-340 | a common member, and ≥ nbits exactly when the intersection is empty; prev moves to the pick only when one is found |
| Distribute.EmptyMembers | lib/cpumask.c:324-340 | the first next_and answer is ≥ nbits exactly when the intersection is empty |
| Distribute.RankSplits | lib/cpumask.c:331-334 | in an ascending list, the entries at or below prev are exactly those before its rank |
| Distribute.NextIsRankEntry | lib/cpumask.c:331-334 | cpumask_next_and after prev is the list entry at prev's rank, or ≥ nbits when prev is past the last |
| Distribute.PickIsRankEntry | lib/cpumask.c:324-340 | the pick is the first common member after prev, wrapping to the first one |
| Distribute.NextPickFollows | lib/cpumask.c:324-340 | after picking entry j the next call picks entry j + 1, or entry 0 after the last |
| Distribute.WrapFollows | lib/cpumask.c:324-340 | stepping the rotation once more advances the wrapped index by one |
| Distribute.PicksAt | lib/cpumask.c:324-340 | the x-th of k successive picks is entry (start + x) mod K of the intersection |
| Distribute.PicksLength | lib/cpumask.c:324-340 | k successive calls give k picks |
| Distribute.RotationDistinct | lib/cpumask.c:324-340 | K successive calls over a K-member intersection return K distinct CPUs |
| Distribute.RotationCovers | lib/cpumask.c:324-340 | K successive calls over a K-member intersection return every one of its CPUs |
| Distribute.FairRotation | lib/cpumask.c:324-340 | K calls return every common CPU exactly once, and call K + 1 starts the round again |
| Distribute.FirstPickSkipsZero | lib/cpumask.c:314-340 | from the zeroed prev the first pick is CPU 0 only when 0 is the sole common CPU |
| FsInfo.StoreOpaque | fs/fsinfo.c:25-37 | fsinfo_opaque: len for a blob, copied unless only the size is wanted; 0 and no copy for NULL |
| FsInfo.StoreString | fs/fsinfo.c:45-50 | fsinfo_string: 1 for NULL, else min(strlen + 1, buf_size) bytes, a prefix of the string with its NUL |
| FsInfo.StringTruncation | fs/fsinfo.c:45-50 | a string that fits is stored whole with its NUL; one that does not is cut to the buffer without a NUL |
| FsInfo.Pow10 | fs/fsinfo.c:194-217 | powers of ten are positive |
| FsInfo.GenericTimestampInfo | fs/fsinfo.c:194-217 | all four timestamps get the full range and mantissa 1, with exponent -9, -6, -3 or 0 by granularity |
| FsInfo.TimestampExponentBand | fs/fsinfo.c:194-217 | the reported 10^e seconds is the power of a thousand at or just below the real granularity |
| FsInfo.GetThisAttribute | fs/fsinfo.c:307-336 | ENODATA for an instance the attribute cannot have, ENOPKG for an unknown type, the minimum size for a short buffer, else the getter's answer; clear_tail for structs |
| FsInfo.HandlerOnlyWhenFits | fs/fsinfo.c:307-336 | the getter can affect the outcome only for an allowed instance of a known type with at least the minimum buffer |
| FsInfo.AttributesInsert | fs/fsinfo.c:338-356 | with room an id is appended only when absent; without room the usage still grows by four |
| FsInfo.Ids | fs/fsinfo.c:358-367 | the ids of a table, entry by entry |
| FsInfo.InsertAll | fs/fsinfo.c:358-367 | inserting a list only grows the stored ids and grows the usage by at most four per id |
| FsInfo.InsertAllAppend | fs/fsinfo.c:425-446 | listing two tables in turn is listing their concatenation |
| FsInfo.Dedup | fs/fsinfo.c:338-356 | the reference: distinct elements, exactly those of the input |
| FsInfo.FirstIndex | fs/fsinfo.c:338-356 | the position of an element's first occurrence |
| FsInfo.DedupFirstSeen | fs/fsinfo.c:338-356 | the de-duplicated list is in first-seen order |
| FsInfo.DedupStep | fs/fsinfo.c:338-356 | each new id either is already present or is appended, as the insert does |
| FsInfo.InsertAllBuildsDedup | fs/fsinfo.c:338-367 | the stored ids are a prefix of the distinct ids in first-seen order, the usage never undercounts, and when it fits it is exact |
| FsInfo.InsertAllNoBuffer | fs/fsinfo.c:338-356 | without a buffer every insert only counts four bytes |
| FsInfo.RoomForAll | fs/fsinfo.c:338-356 | a buffer with a word per inserted id never runs out of room |
| FsInfo.ListAttributes | fs/fsinfo.c:358-367 | fsinfo_list_attributes inserts every id of the table and answers EOPNOTSUPP so the next table is listed |
| FsInfo.Lookup | fs/fsinfo.c:369-417 | the first table entry with the id, or the table length when none has it |
| FsInfo.CommonTableMatchesHeader | fs/fsinfo.c:277-300 | every entry of fsinfo_common_attributes records the size of the struct the uapi header defines for it (0 for a string), only ATTRIBUTE_INFO has FLAGS_N, and no id appears twice |
| FsInfo.CommonIdsDistinct | fs/fsinfo.c:277-300 | no attribute id appears twice in the common table |
| FsInfo.UapiSizes | include/uapi/linux/fsinfo.h:150-320 | under natural alignment the header's structs are statfs 112, ids 48, limits 96, supports 40, timestamp info 96, volume uuid 16, features 12, attribute info 16, mount info 48, topology 24 and mount child 24 bytes |
| FsInfo.GetAttributeInfo | fs/fsinfo.c:369-390 | an empty buffer asks for one record; otherwise the first entry with id Nth is described, or EOPNOTSUPP |
| FsInfo.GetAttribute | fs/fsinfo.c:401-417 | the two meta-attributes are answered from the table; any other request is answered by the first entry with its id, or is EOPNOTSUPP when none has it |
| FsInfo.FsinfoCall | fs/fsinfo.c:425-446 | the request, the buffer size and the size-only flag pass through both tables unchanged |
| FsInfo.AttributeListIsUnion | fs/fsinfo.c:358-446 | the attribute list answers at least four bytes per distinct id of both tables, exactly that when it fits, and stores each id once in first-seen order |
| FsInfo.AttributeInfoLookup | fs/fsinfo.c:369-446 | attribute info describes the first entry with id Nth in the filesystem's table, else in the common one, and is ENODATA when neither has it |
| FsInfo.FsTableShadowsCommon | fs/fsinfo.c:425-446 | when the filesystem's entry for an ordinary attribute answers anything but EOPNOTSUPP, that is the answer and the common getters cannot change it |
| FsInfo.FsDeclineFallsThrough | fs/fsinfo.c:425-446 | when the filesystem's entry answers EOPNOTSUPP, the common table answers in the context that attempt left (clear_tail possibly set), or the result is EOPNOTSUPP |
| FsInfo.CommonFallback | fs/fsinfo.c:425-446 | an attribute the filesystem's table lacks is answered by the common table, or is EOPNOTSUPP |
| FsInfoFeatures.FeatureIndexInBounds | include/uapi/linux/fsinfo.h:285-291 | every feature id below FSINFO_FEAT__NR indexes within the (NR + 7) / 8-byte array |
| FsInfoFeatures.InitFeatures | include/linux/fsinfo.h:73-76 | fsinfo_init_features records the feature count and leaves the bitmap alone |
| FsInfoFeatures.ByteBits | include/linux/fsinfo.h:78-88 | or-ing in bit k, or and-ing with its complement, changes bit k of the byte and no other |
| FsInfoFeatures.SetFeature | include/linux/fsinfo.h:78-82 | after a set the reader's bit test reports the feature; every other feature tests as before |
| FsInfoFeatures.SetOnlyBit | include/linux/fsinfo.h:78-82 | the byte update of a set adds feature f and nothing else |
| FsInfoFeatures.ClearFeature | include/linux/fsinfo.h:84-88 | after a clear the reader's bit test reports the feature absent; every other feature tests as before |
| FsInfoFeatures.ClearOnlyBit | include/linux/fsinfo.h:84-88 | the byte update of a clear removes feature f and nothing else |
| FsInfoFeatures.SameIndex | include/linux/fsinfo.h:78-88 | two features share a bit exactly when they are the same feature |
| FsInfoFeatures.SameBitsSameBytes | samples/vfs/test-fsinfo.c:258-260 | bitmaps that agree on every bit test are the same bytes |
| FsInfoFeatures.BitIsZeroOrItself | samples/vfs/test-fsinfo.c:258-260 | a bit test yields 0 or the bit itself |
| FsInfoFeatures.BytesFromBits | samples/vfs/test-fsinfo.c:258-260 | bytes that agree on all eight bits are equal |
| FsInfoFeatures.SetFeatureIdempotent | include/linux/fsinfo.h:78-82 | setting a feature twice is setting it once |
| FsInfoFeatures.ClearUndoesSet | include/linux/fsinfo.h:78-88 | clearing a feature just set gives what clearing alone gives |
| FsInfoFeatures.SetFeatures | include/linux/fsinfo.h:94-108 | setting a list of features keeps the count and the array size |
| FsInfoFeatures.SetFeaturesSpec | include/linux/fsinfo.h:94-108 | after setting a list, a feature is present exactly when it was before or is in the list |
| FsInfoFeatures.SetUnixFeatures | include/linux/fsinfo.h:94-108 | exactly the twelve UNIX features are added on top of the existing bits |
| FsInfoSyscall.RoundUpToPage | fs/fsinfo.c:514-515 | roundup to PAGE_SIZE: the least multiple of the page size at or above n |
| FsInfoSyscall.ResizeLoop | fs/fsinfo.c:492-518 | the loop returns a value only once it fits a buffer no larger than INT_MAX that was allocated; a size above INT_MAX is EMSGSIZE and a failed allocation ENOMEM |
| FsInfoSyscall.RetryAtRoundedSize | fs/fsinfo.c:506-520 | a value larger than its buffer is fetched again into whole pages at least as large as the value, for the same attribute, or is ERESTARTSYS once the retries are spent |
| FsInfoSyscall.VfsFsinfo | fs/fsinfo.c:482-521 | the size alone when only the size is wanted; otherwise a value that fits its buffer |
| FsInfoSyscall.StableSizeNeedsOneBuffer | fs/fsinfo.c:482-521 | a value whose size does not depend on the buffer is fetched with one allocation, whatever the retry bound |
| FsInfoSyscall.ListingNeedsOneBuffer | fs/fsinfo.c:482-521 | listing attributes ends after one buffer with four bytes per distinct id of both tables, the ids stored once each |
| FsInfoSyscall.AsLong | fs/fsinfo.c:595-608 | the unsigned long kstrtoul stores reads back through `long mnt_id` as the same 64 bits in two's complement, negative from 2^63 |
| FsInfoSyscall.FsinfoMountAsWritten | fs/fsinfo.c:589-629 | vfs_fsinfo_mount as written: ids up to INT_MAX are looked up; ids from 2^31 to 2^63 - 1 return the 0 left by kstrtoul without a lookup; ids from 2^63 reach the lookup as negative numbers |
| FsInfoSyscall.MountIdOverflowSucceeds | fs/fsinfo.c:604-608 | mount id 2^31 is reported as a successful query of size 0 |
| FsInfoSyscall.MountIdWrapsNegative | fs/fsinfo.c:604-620 | mount id 2^64 - 1 passes the INT_MAX check and is looked up as -1 |
| FsInfoSyscall.FsinfoMount | fs/fsinfo.c:589-629 | corrected: a value only for a given name parsing to an id at most INT_MAX; EINVAL without a name or for any larger id; the parse error otherwise |
| FsInfoSyscall.MountFixOnlyRejectsOverflow | fs/fsinfo.c:589-629 | the corrected entry point differs from the original only on ids above INT_MAX |
| FsInfoSyscall.CopyResult | fs/fsinfo.c:714-732 | min(ret, result_buf_size) bytes of the value are copied, and the rest is zeroed only when clear_tail is set |
| FsInfoSyscall.CheckArgs | fs/fsinfo.c:669-708 | EINVAL for a mismatched pointer/size pair, EOVERFLOW for a size above UINT_MAX, the copy error, else the flag checks |
| FsInfoSyscall.UnknownFlagsRejected | fs/fsinfo.c:687-708 | unknown flag bits or an unknown query mode are EINVAL |
| FsInfoSyscall.FdQueryWithPathRejected | fs/fsinfo.c:699-701 | a file-descriptor query that names a path is EINVAL |
| FsInfoSyscall.SysFsinfo | fs/fsinfo.c:647-737 | whichever mount entry point it calls: the first failed check is the result; past the checks the query's result is returned, and a success returns the full size of the value while copying only what fits the buffer (clearing the rest when the attribute asks for it); a failure writes nothing |
| FsInfoSyscall.Fsinfo | fs/fsinfo.c:647-737 | sys_fsinfo as written: the first failed check is the result; past the checks the query's result (mount ids through the as-written vfs_fsinfo_mount) is returned, a success being the full size of the value with only what fits copied; a failure writes nothing |
| FsInfoSyscall.MountOverflowReportsSuccess | fs/fsinfo.c:604-608 | as written, a mount query with an id from 2^31 to 2^63 - 1 succeeds with a 0-byte value and writes nothing |
| FsInfoSyscall.FsinfoFixed | fs/fsinfo.c:647-737 | corrected sys_fsinfo: the same checks, query result and copy-out through the corrected vfs_fsinfo_mount, and a mount query succeeds only for an id at most INT_MAX |
| FsInfoSyscall.MountOverflowRefused | fs/fsinfo.c:604-608 | the corrected system call refuses every mount id above INT_MAX with EINVAL and writes nothing |
| FsInfoSyscall.SyscallFixOnlyRejectsOverflow | fs/fsinfo.c:655-737 | the corrected system call differs from the original only on mount queries with an id above INT_MAX |
| FsInfoSyscall.SyscallDefaults | fs/fsinfo.c:677-693 | without parameters the query is instance 0,0 of statfs on a path; without a buffer only the size is asked |
| FsInfoSyscall.ApplyOutcome | fs/fsinfo.c:714-732 | the copy-out keeps the user buffer's size |
| FsInfoSyscall.UserBufferAfterCopy | fs/fsinfo.c:714-732 | after success the user buffer starts with the value cut to it; the rest is zero for a struct and untouched otherwise |
| AfsSuper.FirstIndexOf | fs/afs/super.c:263 | strchr: the first position of the character, or none exactly when it is absent |
| AfsSuper.LastIndexOf | fs/afs/super.c:275 | strrchr: the last position of the character, or none exactly when it is absent |
| AfsSuper.SplitCell | fs/afs/super.c:263-272 | the cell name is the text before the first ':' and holds no ':'; without one there is no cell name |
| AfsSuper.VolumeNameLength | fs/afs/super.c:275-290 | the volume name proper never exceeds the volume text |
| AfsSuper.ParseSource | fs/afs/super.c:231-316 | NULL is EINVAL; a source without a '%'/'#' prefix is accepted only as "none", which sets no_cell; these errors leave the context unchanged |
| AfsSuper.VolumeTextIsTail | fs/afs/super.c:263-272 | the volume text is the tail of the source after the cell separator |
| AfsSuper.VolumeContext | fs/afs/super.c:256-290 | the volume text and name length come from the source's tail, and its type from the prefix and suffix |
| AfsSuper.ParseVolumeSource | fs/afs/super.c:256-316 | the call fails exactly when a named cell is not found, with the lookup's error; either way the type, force flag, volume name and its length its text selects stay in the context; a failure keeps the old cell and source, a success records the source |
| AfsSuper.ParseSourceCell | fs/afs/super.c:263-301 | with no ':' the context's cell is kept; with one, the text before it is looked up; a failed lookup is the result and leaves the old cell but the new volume name |
| AfsSuper.ParseSourceType | fs/afs/super.c:256-290 | whether or not the cell is found, ".readonly" and ".backup" force their types; otherwise '%' forces read/write and '#' keeps the context's type (read-only, unforced after afs_init_fs_context) |
| AfsSuper.ShowDevname | fs/afs/super.c:162-191 | "none" for the dynamic root, else prefix, cell name, ':', volume name and suffix |
| AfsSuper.SplitAfterCellName | fs/afs/super.c:263-272 | a cell name without ':' is split off at the ':' after it |
| AfsSuper.SuffixAfterVolumeName | fs/afs/super.c:275-290 | a printed ".readonly" or ".backup" is the text from the last '.' whatever dots the volume name holds, and is cut off again; with no suffix the name is kept whole exactly when its own last '.' does not start ".readonly", ".backup" or "." |
| AfsSuper.ParseWithCell | fs/afs/super.c:231-316 | parsing a source that names a known cell takes the cell from the oracle and the rest from the volume text |
| AfsSuper.DevnameIsCString | fs/afs/super.c:162-191 | the printed device name contains no NUL when its parts contain none |
| AfsSuper.DevnameShape | fs/afs/super.c:162-191 | the device name has the '%'/'#' form the parser expects, with the cell text up to the first ':' |
| AfsSuper.SuffixSelectsType | fs/afs/super.c:162-290 | the printed prefix and suffix select the volume type that was printed, provided a volume name printed without a suffix does not end in ".readonly", ".backup" or "." |
| AfsSuper.DevnameRoundTrip | fs/afs/super.c:162-316 | parsing a printed device name from a fresh context recovers cell, volume name and volume type, for a cell name without ':' and any volume name except one that, with no suffix printed, ends in ".readonly", ".backup" or "." |
| AfsSuper.DevnameSuffixLost | fs/afs/super.c:162-316 | the converse: a volume name printed without a suffix that ends in ".readonly", ".backup" or "." parses back shortened |
| AfsSuper.RetryAfterFailedLookup | fs/afs/super.c:256-301 | a '%' source whose cell lookup fails leaves a forced read/write type, which a following '#' source without a suffix inherits |
| AfsSuper.DynRootRoundTrip | fs/afs/super.c:162-250 | parsing "none" printed for the dynamic root gives the no-cell context |
| AfsSuper.LookupFlock | fs/afs/super.c:83-89 | the flock parameter table's mode for a name, or none when no entry has that name |
| AfsSuper.ShowOptions | fs/afs/super.c:196-216 | without a flock mode only ",dyn" and ",autocell" appear, as they apply |
| AfsSuper.FlockRoundTrip | fs/afs/super.c:205-213 | every flock mode but unset is printed as ",flock=<name>" and the afs_param_flock table maps that name back to the mode |
| AfsSuper.VolumeStatusSuccess | fs/afs/super.c:732-745 | the total is the quota, or the partition size without one; free and available are what remains, set only when positive |
| UfsCmdLog.Repeat | drivers/scsi/ufs/ufs-exynos-dbg.c:183 | n copies of the zeroed record |
| UfsCmdLog.Stamps | drivers/scsi/ufs/ufs-exynos-dbg.c:100-107 | each record as a put stores it |
| UfsCmdLog.Put | drivers/scsi/ufs/ufs-exynos-dbg.c:86-109 | the record goes to slot last with end_time reset; total grows by one as a u32; last moves on mod 32; only the tag's pointer moves, to that slot |
| UfsCmdLog.DumpLoop | drivers/scsi/ufs/ufs-exynos-dbg.c:76-83 | n records starting at idx, contiguous until the wrap slot |
| UfsCmdLog.DumpLoopWraps | drivers/scsi/ufs/ufs-exynos-dbg.c:76-83 | past the wrap slot the loop carries on from slot 0 |
| UfsCmdLog.DumpStart | drivers/scsi/ufs/ufs-exynos-dbg.c:65-77 | min(total, 32) records, wrapping after slot max - 1, starting at 0 before the ring fills and at last after |
| UfsCmdLog.PreviousSlot | drivers/scsi/ufs/ufs-exynos-dbg.c:68 | (last + 32 - 1) % 32 is the slot before last, wrapping |
| UfsCmdLog.FullRingOrder | drivers/scsi/ufs/ufs-exynos-dbg.c:76-83 | with a full ring the loop reads from slot last round to last - 1 |
| UfsCmdLog.Dump | drivers/scsi/ufs/ufs-exynos-dbg.c:54-84 | min(total, 32) records: slots 0 up while the ring is filling, else every slot from last round, none for total 0 |
| UfsCmdLog.Replay | drivers/scsi/ufs/ufs-exynos-dbg.c:86-109 | every ring reached by puts from the zeroed ring is well formed |
| UfsCmdLog.SlotsDiffer | drivers/scsi/ufs/ufs-exynos-dbg.c:94-97 | fewer than 32 puts apart, two commands occupy different slots |
| UfsCmdLog.PutShiftsWindow | drivers/scsi/ufs/ufs-exynos-dbg.c:86-109 | a put moves the window of the latest 32 commands on by one |
| UfsCmdLog.ReplayTotal | drivers/scsi/ufs/ufs-exynos-dbg.c:95 | below 2^32 commands the u32 count is exact |
| UfsCmdLog.ReplayWindow | drivers/scsi/ufs/ufs-exynos-dbg.c:86-109 | below 2^32 commands each of the latest min(n, 32) sits in slot (position mod 32) |
| UfsCmdLog.Rotate | drivers/scsi/ufs/ufs-exynos-dbg.c:76-83 | the slot i places after last stays in the ring |
| UfsCmdLog.RotatedEntry | drivers/scsi/ufs/ufs-exynos-dbg.c:76-83 | entry i of the ring read from last round is slot Rotate(last, i) |
| UfsCmdLog.WindowSlot | drivers/scsi/ufs/ufs-exynos-dbg.c:94-97 | command n - 32 + i sits i slots after slot n mod 32 |
| UfsCmdLog.RotatedWindow | drivers/scsi/ufs/ufs-exynos-dbg.c:76-83 | once full, entry i of the rotated ring is command n - 32 + i |
| UfsCmdLog.DumpWindow | drivers/scsi/ufs/ufs-exynos-dbg.c:54-84 | a ring holding the window of a history dumps exactly that window, oldest first |
| UfsCmdLog.DumpShowsLatest | drivers/scsi/ufs/ufs-exynos-dbg.c:54-109 | the dump of a ring filled by fewer than 2^32 commands is exactly the last min(n, 32) of them, oldest first |
| UfsCmdLog.NewestSlot | drivers/scsi/ufs/ufs-exynos-dbg.c:94-97 | the slot just written is the one before last |
| UfsCmdLog.NewestDumped | drivers/scsi/ufs/ufs-exynos-dbg.c:54-84 | whenever anything was logged, the dump ends with the newest record |
| UfsCmdLog.DumpEndsWithPut | drivers/scsi/ufs/ufs-exynos-dbg.c:54-109 | after a put the dump ends with the command just put |
| UfsCmdLog.InitDbg | drivers/scsi/ufs/ufs-exynos-dbg.c:179-194 | ENOMEM exactly when the allocation fails; otherwise an active manager whose dump is empty |
| UfsCmdLog.LogStart | drivers/scsi/ufs/ufs-exynos-dbg.c:134-164 | nothing while inactive; else the record is filled from the command, lba kept for UNMAP, and put in the ring |
| UfsCmdLog.LogEnd | drivers/scsi/ufs/ufs-exynos-dbg.c:166-177 | nothing while inactive; else only end_time of the tag's slot changes |
| UfsCmdLog.StartThenEnd | drivers/scsi/ufs/ufs-exynos-dbg.c:134-177 | a start then an end on one tag leave that command, with its end time, as the newest dumped record |
| UfsCmdLog.DumpInfo | drivers/scsi/ufs/ufs-exynos-dbg.c:117-132 | nothing while inactive; else the dump time is recorded (the first one once) and the ring's records are returned |
| MlxcpldMux.RegVal | drivers/i2c/muxes/i2c-mux-mlxcpld.c:81 | the u8 register value chan + 1 |
| MlxcpldMux.SelectChan | drivers/i2c/muxes/i2c-mux-mlxcpld.c:77-91 | a write of chan + 1 exactly when the cache differs; after it the cache is the value or 0 on failure, and the write's result is returned |
| MlxcpldMux.Deselect | drivers/i2c/muxes/i2c-mux-mlxcpld.c:93-102 | always writes 0 and clears the cache |
| MlxcpldMux.RepeatedSelectWritesOnce | drivers/i2c/muxes/i2c-mux-mlxcpld.c:85-88 | selecting a channel twice, the first time successfully, writes the register at most once |
| MlxcpldMux.FailedSelectRetries | drivers/i2c/muxes/i2c-mux-mlxcpld.c:85-88 | after a failed write the next select writes again |
| MlxcpldMux.ApplyWrites | drivers/i2c/muxes/i2c-mux-mlxcpld.c:77-102 | the register holds the last write when it succeeded and is unknown after a failure |
| MlxcpldMux.SelectKeepsCoherent | drivers/i2c/muxes/i2c-mux-mlxcpld.c:77-91 | select keeps the cache truthful about the register, and a successful select leaves the channel selected |
| MlxcpldMux.DeselectKeepsCoherent | drivers/i2c/muxes/i2c-mux-mlxcpld.c:93-102 | deselect keeps the cache truthful, and a successful one leaves 0 in the register |
| MlxcpldMux.ConfiguredChannels | drivers/i2c/muxes/i2c-mux-mlxcpld.c:133-136 | at most CPLD_MUX_MAX_NCHANS channels get adapters |
| MlxcpldMux.AddLoop | drivers/i2c/muxes/i2c-mux-mlxcpld.c:133-149 | every configured channel gets an adapter, or the first that fails is reported with its error |
| MlxcpldMux.Probe | drivers/i2c/muxes/i2c-mux-mlxcpld.c:105-150 | EINVAL, ENODEV, ENOMEM as the checks fail; else an adapter per configured channel in order with the cache cleared, or the first adapter error |
| MlxcpldMux.ProbeSucceedsIff | drivers/i2c/muxes/i2c-mux-mlxcpld.c:105-150 | probe succeeds exactly when its prerequisites hold and every configured adapter is added |
| MlxcpldMux.FirstSelectAfterProbeWrites | drivers/i2c/muxes/i2c-mux-mlxcpld.c:130 | after probe the first select of any channel below 8 writes the register |
| PariscFutex.LockIndex | arch/parisc/include/asm/futex.h:12-20 | the lock word index is a multiple of 4 below 64: one of sixteen locks |
| PariscFutex.SameLockIff | arch/parisc/include/asm/futex.h:12-33 | lock and unlock of one address use one lock; two addresses share it exactly when bits 4..7 agree |
| PariscFutex.EveryLockUsed | arch/parisc/include/asm/futex.h:12-20 | each of the sixteen locks is reached by some address |
| PariscFutex.AtomicOpInUser | arch/parisc/include/asm/futex.h:35-82 | EFAULT on a faulting read, ENOSYS for an unknown op, EFAULT on a faulting write; on success the op's value is stored and *oval gets the old one; on failure neither changes |
| PariscFutex.SetStoresArgument | arch/parisc/include/asm/futex.h:53-55 | SET stores the argument |
| PariscFutex.OrSetsBits | arch/parisc/include/asm/futex.h:59-61 | OR sets the argument's bits and keeps the others |
| PariscFutex.AndnClearsBits | arch/parisc/include/asm/futex.h:62-64 | ANDN clears the argument's bits and keeps the others |
| PariscFutex.XorTwiceRestores | arch/parisc/include/asm/futex.h:65-67 | XOR with one argument twice restores the value |
| PariscFutex.CmpxchgInatomic | arch/parisc/include/asm/futex.h:84-122 | EFAULT for a NULL kernel address, a failed access_ok, or a fault; else newval is stored exactly when the word equals oldval and *uval gets the word |
| PariscFutex.CmpxchgIsCompareAndSwap | arch/parisc/include/asm/futex.h:113-121 | a successful cmpxchg swapped exactly when the value it reports matched oldval |
| ArcConsole.LineFeeds | arch/mips/fw/arc/arc_con.c:20-26 | the line feeds among the characters written |
| ArcConsole.Expand | arch/mips/fw/arc/arc_con.c:20-26 | the output grows by one character per line feed, and every line feed is preceded by a carriage return |
| ArcConsole.UnexpandExpand | arch/mips/fw/arc/arc_con.c:20-26 | removing the inserted carriage returns gives back the input |
| ArcConsole.ExpandAppend | arch/mips/fw/arc/arc_con.c:20-26 | the expansion of a text is the expansions of its parts in order |
| ArcConsole.ConsoleWrite | arch/mips/fw/arc/arc_con.c:18-27 | the first count characters in order, each line feed preceded by a carriage return; count plus the line feeds long; nothing for count 0 |
| ArcConsole.ConsoleSetup | arch/mips/fw/arc/arc_con.c:29-32 | 0 exactly when PROM_FLAG_USE_AS_CONSOLE is set, 1 otherwise |

## Left out

- The cpumask allocators (`alloc_cpumask_var_node` and related, lib/cpumask.c:99-194) only allocate memory.
- Concurrency is left out:
  - the `spread_lock` IRQ-saving spinlock;
  - the per-CPU nature of `distribute_cpu_mask_prev`, which is plain state passed in and returned;
  - the scratch arrays `node_dist[]` and `used[]`, which are values.
- `cpumask_of_node`, `node_distance` and `num_online_cpus` come from the platform. They are fields of the `Topology` value.
- CpuMask.NextWrap: requires `start <= nbits`. With `start > nbits` and no CPU set in the mask, the source's `again:` loop never exits: the wrapped walk never crosses `start` and keeps restarting from -1. Its callers pass a start below `nbits`.
- LocalSpread.LocalSpread needs at least one online CPU. The source divides by `num_online_cpus()` and reaches `BUG()` otherwise.
- The fsinfo environment is left out:
  - the LSM hook;
  - path and file-descriptor resolution, which are oracles that run the query on what they find;
  - the lookup-flag translation in `vfs_fsinfo_path`;
  - `copy_to_user`/`clear_user` faults;
  - the `kvzalloc` memory, whose success is a parameter.
- With no parameter block in path mode, `vfs_fsinfo_path` reads the uninitialised `user_params`. Path lookup is not modelled, so neither is that read.
- FsInfoSyscall.ResizeLoop: `signal_pending` is replaced by a retry bound, `fuel`. Running out of fuel is the ERESTARTSYS exit.
- The getters that read a superblock are not modelled. Each attribute table has one abstract handler. Neither is any filesystem's own table, such as ext4's.
- FsInfo.UapiSizes: the sizes follow natural alignment, each member aligned to its own size. Every struct in the header is padded explicitly, so an architecture that aligns `__u64` to 4 bytes should give the same sizes, but that is not proved.
- FsInfoSyscall.FsinfoMount: `strndup_user` failures and the `dfd` check fold into the parsed-id parameter and the lookup oracle.
- FsInfoSyscall.FsinfoMountAsWritten: the lookup receives the `long` value. `lookup_mount_object` is not part of this model, so any narrowing its parameter makes is left to the oracle.
- FsInfoFeatures.SetUnixFeatures: the feature numbers are those of the uapi header. The header itself is only imported for its constants.
- kAFS is left out beyond the parser:
  - the mount and superblock lifecycle;
  - key requests, RPC and server lists;
  - cell lookup and alias detection, which is an oracle from a name to a cell or an error.
- AfsSuper.DevnameRoundTrip holds only for a cell name without ':'. With one, the parser splits at its first ':' and looks up a different cell. The lemma also excludes a volume name that ends in ".readonly", ".backup" or "." when no suffix is printed; AfsSuper.DevnameSuffixLost shows such a name is cut short.
- The UFS code's spinlock, `cpu_clock` (times are parameters) and `dev_err` printing are left out. The dump returns the records it would print.
- SCSI CDB byte decoding is left out. `LogStart` receives the opcode, lba, sector count and retries already decoded.
- UfsCmdLog.DumpShowsLatest: proved only for fewer than 2^32 commands. The u32 `total` wraps, after which the dump restarts from slot 0 as if the ring were empty.
- UfsCmdLog.DumpEndsWithPut: requires the incremented count to stay below 2^32. When `total` wraps to 0 the dump is empty.
- UfsCmdLog.LogEnd: requires the tag to have been started. A never-started tag has a NULL pointer, which the source dereferences.
- The mux's register write and `i2c_mux_add_adapter` are parameters. Deleting adapters on failure is not modelled as state: the failed probe simply returns the error.
- The futex's hashed spinlock, IRQ state and atomicity are left out. User memory is one word with fault flags.
- The futex op code values come from the generic futex header, which is not part of this model.
- ArcConsole.ConsoleSetup: the `PROM_FLAG_USE_AS_CONSOLE` value is a parameter, because `asm/sgialib.h` is not part of this model.
- `prom_putchar`, the firmware output, is represented by the characters it receives.
- The rest of the tree is context and is not modelled:
  - NFS fscache, SoundWire, nouveau CRC, anon inodes and the PAPR attributes;
  - the x86 L1D flush, SM2 keys, BTF ids and the printk glue;
  - the samples and selftests.

## Findings

| source | as written | input that shows it | evidently intended | confidence | as-written member | corrected member |
|---|---|---|---|---|---|---|
| fs/fsinfo.c:604-608 | a mount id from 2^31 to 2^63 - 1 jumps to the exit with `ret` still 0 from `kstrtoul`, so the system call reports success with a 0-byte value (FsInfoSyscall.MountOverflowReportsSuccess) | mount id string "2147483648" | reject the out-of-range id with -EINVAL | not executed | FsInfoSyscall.Fsinfo | FsInfoSyscall.FsinfoFixed |
| fs/fsinfo.c:595-608 | `kstrtoul` stores into `long mnt_id`, so a mount id from 2^63 to 2^64 - 1 reads back negative, passes the `> INT_MAX` check, and is handed to the lookup (FsInfoSyscall.MountIdWrapsNegative) | mount id string "18446744073709551615", looked up as -1 | reject the out-of-range id with -EINVAL | not executed | FsInfoSyscall.FsinfoMountAsWritten | FsInfoSyscall.FsinfoMount |
