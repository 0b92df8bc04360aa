# A verified model of the PDB reader, the coverage merge and the debug-admin protocols

The repository runs a .NET program under a supervisor that offers an HTTP debugging page, reads sources embedded
in Portable PDB files, and prepares cobertura coverage reports. This project models the parts of it with the most
branching, arithmetic, state and concurrency, and proves what they are for. Verify it with
`dafny verify dfyconfig.toml`.

**The Portable PDB reader** (`internal/pdb`). The cursor is a class with a position that may pass the end of the
data. Each parser is a method, tied by its postcondition to a function from bytes to a result, and each function
has its inverse: a serialiser written from ECMA-335 partition II (sections II.23.2 and II.24.2) and the Portable
PDB v1.0 format. The result is `PdbRoundTrip.FullRoundTrip`: any file that describes some documents, whatever
rows its other tables have, opens and gives back each name and exactly the attached source. The file's rows are
values, each column in the width the format gives it (`PdbTables`), independently of the widths that the reader
computes. `PdbWriter.WriteThenRead` runs it on a writer, for any documents, rows of tables 0x31 to 0x36, external
row counts and heap-size flags within the format's bounds. Conversely `PdbAcceptance` says which bytes each parser
takes, up to `OpensExactly` for whole files: what is malformed is an error, and nothing else is.
- `Bytes`, `ByteCursors`, `RootHeader`, `TablesStream`, `DebugTables`, `Heaps`, `Guids`: the format, bottom up.
- `MetadataReaders` (in `MetadataReader.dfy`), `EmbeddedSource`, `ExtractRoundTrip`: opening a file, first-match
  scans, extraction, and what extraction makes of a file of given sources.
- `PdbTables`, `PdbFiles`, `PdbImages`, `PdbRoundTrip`, `PdbWriter`, `PdbSizes`: files as a whole. `PdbSizes.PlainRoundTrip` leaves as only
  conditions that the heap fits its index width and that separators are ASCII.

**The coverage merge** (`internal/debugadmin/cobertura_merge.go`). `CoberturaDocument` is the program as it is:
class objects shared between packages, an index and a modified set, and slices compacted in the array they are
read from. It is proved to compute `CoberturaMerge.Output`, a function on the sequence of classes, about which
conservation of hits, idempotence and order independence are proved. `CoberturaReport.ReportExactly` says, of
names, files and lines alone, which classes are left out and what each of the others has become. `LineMaps`, `Decimal` and `GeneratedNames`
hold lines, their numbers as text, and class names; `SourcePaths` the choice of a source file by its path.

**Protocols as state machines.** `LogBroker` interleaves the steps of goroutines that subscribe, cancel, broadcast
and receive under the read-write lock. `LogBrokerObject` is the same object one critical section at a time: it
carries the run of the protocol that its calls make up, and is proved to show the state that run leads to.
`Supervisor` interleaves the supervisor loop with one waiting goroutine for each target. `DebuggerCapture`
interleaves the goroutine that reads the debugger's output with the one that collects it. A run is any sequence
of enabled steps from the initial state, and the results are about all runs.

**Search and text.** `ProcessTree` is the breadth-first search for the program under its wrapper, `StackDump` the
parser of thread dumps with its stable reordering; `StackDumpText` shows that a dump printed with any white space
and line ends parses to its threads.

Where the code does less than its comments or names suggest, the model follows the code, and a lemma shows it:
- A generated line with no hits that the parent lacks is dropped (`LineMaps.UnhitLineLost`); lines are kept exactly
  under the condition of `LineMaps.LinesKeptExactly`. For the same reason the method synthesised for a state
  machine always has line rate 1 (`CoberturaMerge.HitLinesAreHit`).
- In coverage mode a clean exit is recorded as abnormal but not restarted
  (`Supervisor.CoverageExitIsNotRestarted`, with the exact condition in `Supervisor.AbnormalRestartsExactly`),
  though the comment at internal/debugadmin/target_process.go:121-125 says it should be.
- Debugger output from before "bt all" may be shown as part of its answer (`DebuggerCapture.EarlyOutputInStackPart`,
  with the exact condition in `DebuggerCapture.CommandSplitsOutput`).
- On a process snapshot with a parent cycle at the root and no target below it, the search does not end
  (`ProcessTree.CyclicSearchGoesOn`, with the exact condition in `ProcessTree.SearchEndsExactly`).
- A source blob whose size field is negative makes the original panic (`EmbeddedSource.NegativeSize` says exactly
  when).

## Model
| member | source | states |
|---|---|---|
| ByteCursors.ByteCursor.ReadCString | internal/pdb/byte_cursor.go:72-83 | the string up to the first NUL, the position past it; without a NUL the error leaves the position at the end |
| ByteCursors.ByteCursor.Align4 | internal/pdb/byte_cursor.go:88-92 | the next multiple of 4, even past the end of the data |
| ByteCursors.ByteCursor.ReadCompressedUint | internal/pdb/byte_cursor.go:96-123 | reads section II.23.2 integers in place; partner CompressedRoundTrip |
| ByteCursors.CompressedRoundTrip | internal/pdb/byte_cursor.go:96-123 | every value below 2^29, encoded anywhere in any data, is read back and exactly its encoding is consumed |
| ByteCursors.CompressedProgress | internal/pdb/byte_cursor.go:96-123 | a successful read moves strictly forward, stays in the data and gives a value below 2^29 |
| ByteCursors.CStringRead | internal/pdb/byte_cursor.go:72-92 | a padded NUL-terminated name is read back and aligning skips exactly the padding |
| ByteCursors.PastTheEnd | internal/pdb/byte_cursor.go:21-83 | with the position past the end every read fails and none touches the data |
| PdbAcceptance.CompressedExactly | internal/pdb/byte_cursor.go:96-123 | a compressed integer is read exactly if its first byte begins one and all its bytes are there; which error otherwise |
| PdbAcceptance.CompressedValue | internal/pdb/byte_cursor.go:96-123 | its value is that of its bytes, most significant first, less the length marker, whether or not it is the shortest form |
| PdbAcceptance.CStringExactly | internal/pdb/byte_cursor.go:72-83 | a string is read exactly if it has no NUL and one follows it; an error exactly if no NUL is left |
| RootHeader.ParseStreams | internal/pdb/root_header.go:17-74 | the directory loop computes StreamsOf on every input, errors included |
| RootHeader.EntriesRead | internal/pdb/root_header.go:54-73 | entries with names of any length are all found where they lie; the last of two with one name wins |
| RootHeader.RootRoundTrip | internal/pdb/root_header.go:17-84 | parsing a serialised metadata root locates the content of every stream, and names no other stream |
| PdbAcceptance.DirectoryExactly | internal/pdb/root_header.go:17-74 | a directory is read from exactly the files with the signature "BSJB", room for the version, and as many aligned entries as they say |
| PdbAcceptance.SliceExactly | internal/pdb/root_header.go:77-84 | a stream is sliced exactly if it lies in the file, and is then its bytes |
| TablesStream.ReadRowCounts | internal/pdb/pdb_stream.go:35-45 | the bit-mask walk computes CountsAt; partners CountsByRank and CountsRead |
| TablesStream.CountsByRank | internal/pdb/tables_stream_header.go:52-62 | the k-th set bit gets the k-th integer, an unset one 0, and the walk succeeds exactly if all are there |
| TablesStream.CountsRead | internal/pdb/tables_stream_header.go:52-62 | the walk undoes writing the counts of the present tables |
| TablesStream.ParsePdbStream | internal/pdb/pdb_stream.go:20-48 | computes ExternalCountsOf on every input |
| TablesStream.ExternalCountsByRank | internal/pdb/pdb_stream.go:20-48 | accepted exactly if 32 bytes and 4 for each set bit are there; counts by rank of their bit |
| TablesStream.PdbStreamRoundTrip | internal/pdb/pdb_stream.go:20-48 | a serialised "#Pdb" stream gives back its row counts |
| TablesStream.ParseTablesStreamHeader | internal/pdb/tables_stream_header.go:23-77 | computes HeaderOf on every input |
| TablesStream.HeaderFields | internal/pdb/tables_stream_header.go:23-77 | accepted exactly if the payload starts inside the data, at 24 + 4 * popcount + 4 if the extra-data flag is set; counts by rank |
| TablesStream.HeaderRoundTrip | internal/pdb/tables_stream_header.go:23-77 | a serialised header gives back its fields, and the payload offset is its length |
| DebugTables.ParentThreshold | internal/pdb/has_custom_debug_info_tag.go:14-17 | a coded reference fits 16 bits exactly if its row is below 2048, whatever the tag |
| DebugTables.ParentWidthIsCodedIndexSize | internal/pdb/has_custom_debug_info_tag.go:37-44 | the early-return search gives the coded index size that section II.24.2.6 defines by the maximum row count |
| DebugTables.ParentSurvives | internal/pdb/has_custom_debug_info_tag.go:14-50 | any tag and row within a referenced table survive writing in the computed width and decoding |
| DebugTables.RowSizeOf | internal/pdb/debug_tables.go:60-107 | each table's row size is the sum of its schema's column widths; partner PdbTables.RowsTake |
| PdbTables.FlagsRead | internal/pdb/tables_stream_header.go:5-10 | bits 0, 1, 2 and 6 of every flag byte are those of the string, GUID and blob heaps and the extra data |
| PdbTables.SimpleIndexFits | internal/pdb/table_layout.go:25-30 | a simple index column holds every row number of its table, and takes four bytes only if two do not |
| PdbTables.ReferencedAreTagged | internal/pdb/has_custom_debug_info_tag.go:24-34 | the list searched has exactly the tables to which the format gives a tag, and 0x16 is the tag of Document |
| PdbTables.RowsTake | internal/pdb/debug_tables.go:60-107 | for every table the reader skips exactly the bytes that its rows take when written as values in the format's widths |
| PdbFiles.ImageIs | internal/pdb/debug_tables.go:51-113 | so the two tables wanted lie where the reader looks for them, whatever rows precede them |
| DebugTables.OffsetFitsInt | internal/pdb/debug_tables.go:51-110 | for all 32-bit row counts no offset of the walk reaches 2^63 |
| DebugTables.ComputeDebugTableLayout | internal/pdb/debug_tables.go:35-113 | at each step offset is the size of the tables before; fails at the first table that is not a debug table or leaves the payload |
| DebugTables.AcceptedSegments | internal/pdb/debug_tables.go:63-119 | the two slices are exactly their tables' segments, row size times row count long, and disjoint |
| PdbAcceptance.LayoutExactly | internal/pdb/debug_tables.go:53-119 | a layout is accepted exactly if no table outside the debug range has rows and neither table wanted is cut off; the first such table is the error |
| DebugTables.LayoutRoundTrip | internal/pdb/debug_tables.go:35-120 | tables written one after another give back the Document and CustomDebugInformation bytes and counts |
| Heaps.HeapRefRead | internal/pdb/heap_ref.go:10-18 | a reference written in 2 or 4 bytes is read back |
| PdbAcceptance.RefExactly | internal/pdb/heap_ref.go:10-18 | a reference is read exactly if it lies in the data |
| Heaps.ReadBlob | internal/pdb/heap_ref.go:22-31 | moving a cursor to any offset, past the end too, computes BlobAt; partner BlobRead |
| Heaps.BlobRead | internal/pdb/heap_ref.go:22-31 | a blob with its compressed length is read back from anywhere in a heap |
| PdbAcceptance.BlobExactly | internal/pdb/heap_ref.go:22-31 | a blob is read exactly if its length can be and its bytes are all in the heap, and is those bytes |
| Heaps.DecodeDocumentName | internal/pdb/document_name.go:14-50 | the loop over references computes the join of the parts they refer to, or the first error |
| Heaps.NameRoundTrip | internal/pdb/document_name.go:14-50 | a name stored as separator and part references decodes to its joined parts, or to an error exactly if the separator is not ASCII |
| PdbAcceptance.NameExactly | internal/pdb/document_name.go:14-50 | a name is decoded exactly if its blob is empty, or a separator of seven bits and references up to its end, all to blobs; it is their join |
| Heaps.JoinWithSeparator | internal/pdb/document_name.go:33-35 | any other separator stands between each two parts, so that they can be told from the name if it is in none of them |
| Heaps.JoinWithNothing | internal/pdb/document_name.go:33-35 | separator 0 puts nothing between the parts |
| Guids.ParseGuidString | internal/pdb/guid.go:29-46 | groups of hexadecimal digits into mixed-endian bytes, filled in place; partner GuidRoundTrip |
| Guids.GuidRoundTrip | internal/pdb/guid.go:29-46 | parsing inverts the usual notation of every GUID |
| Guids.GuidTextExactly | internal/pdb/guid.go:29-46 | a text is accepted exactly if it has five groups with 32 digits of either case in all |
| PdbAcceptance.GuidExactly | internal/pdb/guid.go:50-63 | index 0 is the nil GUID, k the k-th sixteen bytes, and an index is an error exactly if the heap ends before |
| Guids.EmbeddedSourceGuid | internal/pdb/guid.go:17 | the constant text parses to the sixteen bytes that the reader looks for |
| MetadataReaders.NewMetadataReader | internal/pdb/metadata_reader.go:20-86 | computes ReaderOf for every byte sequence, and what it accepts is valid |
| MetadataReaders.AcceptedIsReadable | internal/pdb/metadata_reader.go:51-69 | in every accepted file each Name, Parent, Kind and Value column of each row is read without error |
| PdbAcceptance.OpensExactly | internal/pdb/metadata_reader.go:20-94 | a file opens exactly if it has a directory, the streams needed lie inside it, and its tables are accepted; its heaps are those streams |
| PdbAcceptance.RowsExactly | internal/pdb/custom_debug_info_table.go:16-53 | in every opened file the columns are read from rows 1 to the count and from no others |
| MetadataReaders.MetadataReader.DocumentName | internal/pdb/metadata_reader.go:102-108 | the name at the row's offset in the blob heap |
| MetadataReaders.MetadataReader.EmbeddedSource | internal/pdb/metadata_reader.go:112-145 | the row loop computes SourceOf; partners FirstSource and NoSource |
| MetadataReaders.NoSource | internal/pdb/metadata_reader.go:112-145 | no source exactly if every row was passed over, for its parent or its kind |
| MetadataReaders.FirstSource | internal/pdb/metadata_reader.go:112-145 | the blob of the first matching row is the result, or the error in reading it |
| PdbAcceptance.ScanFails | internal/pdb/metadata_reader.go:122-128 | a row of the document whose kind is not in the heap, before any source, is an error |
| PdbImages.OpenRoundTrip | internal/pdb/metadata_reader.go:20-86 | opening a file with given tables, heaps and any other streams finds just these |
| PdbImages.DocumentRowRead | internal/pdb/document_table.go:18-24 | the name column of every written row is read back, in either width |
| PdbImages.CustomRowRead | internal/pdb/custom_debug_info_table.go:24-53 | parent, kind and value of every written row are read back, in every combination of widths |
| PdbRoundTrip.FullRoundTrip | internal/pdb/metadata_reader.go:20-145 | any file that describes some documents, with any rows in the tables between, each column in the format's own width, is read back: their number, each joined name, exactly the attached source of each |
| PdbWriter.WriteThenRead | internal/pdb/metadata_reader.go:20-145 | a writer that stores documents among arbitrary rows of other tables produces such a file |
| PdbSizes.ModerateFits | internal/pdb/root_header.go:54-84 | files whose other tables have at most 2^21 rows each and whose version text and further GUIDs take at most 16 MB never exceed the 32-bit offsets of the directory |
| PdbSizes.PlainRoundTrip | internal/pdb/metadata_reader.go:20-145 | any documents that fit the heap are read back, for all heap-size flags and external row counts, whether or not the mask lists tables without rows |
| EmbeddedSource.Extract | internal/pdb/embedded_source.go:27-78 | total is the sum of the three counts, each the size of its set of rows; a written path holds the source of the last document mapped to it; an error is that of the first failing row; partners PathOfSegments, UnderObjExactly and ExtractedExactly |
| EmbeddedSource.PathOfSegments | internal/pdb/embedded_source.go:46-87 | a name that is any separators and then segments, with either separator between, goes to the segments joined by slashes, and is under obj exactly if one of them is "obj" |
| EmbeddedSource.EveryNameHasSegments | internal/pdb/embedded_source.go:46-87 | every name is of that kind |
| EmbeddedSource.UnderObjExactly | internal/pdb/embedded_source.go:48-51 | a document is skipped exactly if that is asked for, its name can be read and "obj" is one of its segments |
| EmbeddedSource.ExtractedExactly | internal/pdb/embedded_source.go:42-73 | any other fails with the first of what goes wrong, has no source, or has its text written to the path of its segments |
| ExtractRoundTrip.ExtractFile | internal/pdb/embedded_source.go:27-78 | from any file of some sources: each text, raw or deflated, ends up at the path of its segments, the last one for a path winning; those with a segment "obj" are left out if asked; nothing else changes, and the counts follow from the sources alone |
| EmbeddedSource.CountsPartition | internal/pdb/embedded_source.go:76-77 | extracted, sourceless and skipped rows make up all documents, none twice |
| EmbeddedSource.SourcelessMeansNoRow | internal/pdb/embedded_source.go:53-59 | a document counts as skipped exactly if it is not under obj and no row has a source of it |
| EmbeddedSource.RawSourceRoundTrip | internal/pdb/embedded_source.go:93-103 | a blob with size 0 is its text |
| EmbeddedSource.DeflatedSource | internal/pdb/embedded_source.go:93-113 | any other size below 2^31 makes the rest data to be inflated to just that size |
| EmbeddedSource.TooSmallSource | internal/pdb/embedded_source.go:93-96 | a blob is too small exactly if it has fewer than four bytes |
| EmbeddedSource.NegativeSize | internal/pdb/embedded_source.go:98-108 | a blob's size is negative exactly if its fourth byte has the top bit |
| GeneratedNames.ParseInvertsGeneration | internal/debugadmin/cobertura_merge.go:96-119 | state machine, lambda and closure names parse to base and suffix, and to the method or none |
| GeneratedNames.GeneratedForms | internal/debugadmin/cobertura_merge.go:96-119 | the same in the compiler's own words: ".<M>d__1", ".<>c" and ".<>c__DisplayClass1_0" after any class, with generic arguments or none |
| GeneratedNames.OrdinaryNames | internal/debugadmin/cobertura_merge.go:96-119 | a name without ".<" is never taken for a generated one |
| GeneratedNames.GeneratedNamesAreRendered | internal/debugadmin/cobertura_merge.go:96-119 | conversely whatever parses is one of the three forms, of the parent and method it parses to |
| GeneratedNames.TryExactly | internal/debugadmin/cobertura_merge.go:96-119 | a pattern matches where its form first occurs after a class name without line break, or nowhere |
| GeneratedNames.ParseExactly | internal/debugadmin/cobertura_merge.go:106-119 | the first of the three patterns that matches decides |
| LineMaps.LinesToMap | internal/debugadmin/cobertura_merge.go:126-142 | the loop over lines, unreadable ones skipped, computes MapOf; partner MapOfIsMax |
| Decimal.AtoiExactly | internal/debugadmin/cobertura_merge.go:132-136 | a text is a number exactly if it is an optional sign, any zeros and its digits, and 64 bits hold it |
| Decimal.ItoaIsCanonical | internal/debugadmin/cobertura_merge.go:151-156 | numbers are written without leading zeros, and with a sign only if negative |
| LineMaps.MapOfIsMax | internal/debugadmin/cobertura_merge.go:126-142 | exactly the numbers of readable lines, each with its largest hits |
| LineMaps.MapToLines | internal/debugadmin/cobertura_merge.go:144-159 | the same ascending lines whatever the order in which the map is met |
| LineMaps.LinesRoundTrip | internal/debugadmin/cobertura_merge.go:126-159 | reading back written lines gives the map, through decimal text |
| LineMaps.WrittenLines | internal/debugadmin/cobertura_merge.go:144-159 | written lines ascend, none twice, each with its numbers in canonical text and branch "False" |
| LineMaps.MergeInto | internal/debugadmin/cobertura_merge.go:161-170 | the update loop gives the same map in any order of the generated lines |
| LineMaps.MergedDomain | internal/debugadmin/cobertura_merge.go:161-170 | the exact lines of a merge: the parent's, and the generated ones with positive hits; the larger hits win |
| LineMaps.LinesKeptExactly | internal/debugadmin/cobertura_merge.go:161-170 | all generated lines survive if and only if each was hit or is the parent's too |
| LineMaps.UnhitLineLost | internal/debugadmin/cobertura_merge.go:165 | a line for which they do not |
| CoberturaMerge.HitLinesAreHit | internal/debugadmin/cobertura_merge.go:174-194 | every line of a synthesised method was hit, so its rate is 1 |
| CoberturaMerge.HitLinesAreLargest | internal/debugadmin/cobertura_merge.go:172-187 | its lines are exactly those that some method of the state machine hit, each with the most hits of any |
| CoberturaMerge.ReceiversAreKept | internal/debugadmin/cobertura_merge.go:270-291 | no class that received lines is removed |
| CoberturaMerge.MergedLines | internal/debugadmin/cobertura_merge.go:252-291 | each class's final lines, described without regard to order: own lines and hit lines of what it absorbed, with the largest hits |
| CoberturaMerge.FinalRate | internal/debugadmin/cobertura_merge.go:209-221 | a receiving class has the rate of its final deduplicated lines, if there are any, else its old one |
| CoberturaMerge.MaxHitsIsMax | internal/debugadmin/cobertura_merge.go:252-291 | what Conservation measures is the largest positive hits of a line over all classes of its file, 0 if there are none |
| CoberturaMerge.Conservation | internal/debugadmin/cobertura_merge.go:252-291 | for every file and line the largest positive hits over all classes are the same before and after |
| CoberturaMerge.Idempotent | internal/debugadmin/cobertura_merge.go:246-295 | merging a merged report changes nothing |
| CoberturaReport.ReportExactly | internal/debugadmin/cobertura_merge.go:246-295 | a class is left out exactly if it is generated and a main class of its file has the name its own refers to; the others stay in order, each with the lines of what it absorbed, their largest hits, their rate, and one method for each state machine hit |
| CoberturaReport.HitsArrive | internal/debugadmin/cobertura_merge.go:270-291 | every line that a left-out class hit is in the class it refers to, with at least its hits |
| CoberturaReport.RenderedIsLeftOut | internal/debugadmin/cobertura_merge.go:270-291 | state machines, lambda caches and closures are left out when their class is there |
| CoberturaOrder.OrderIndependent | internal/debugadmin/cobertura_merge.go:270-295 | under any reordering that keeps main classes of one file and name in order, every class ends with the same lines and rate |
| CoberturaDocument.MergeGeneratedClassLines | internal/debugadmin/cobertura_merge.go:161-170 | the parent object gets the merged lines and keeps everything else; the generated object is untouched |
| CoberturaDocument.AddMergedAsyncMethod | internal/debugadmin/cobertura_merge.go:172-207 | one method with the hit lines is appended, or nothing if none was hit |
| CoberturaDocument.RecomputeClassLineRate | internal/debugadmin/cobertura_merge.go:209-221 | covered over total of the distinct lines, unless there are none |
| CoberturaDocument.IndexMainClasses | internal/debugadmin/cobertura_merge.go:260-268 | the index has, for each file and name, the last main class, and no other key |
| CoberturaDocument.CompactPackage | internal/debugadmin/cobertura_merge.go:270-290 | compaction in the array being read equals filtering it in order, while the classes merge |
| CoberturaDocument.MergePackages | internal/debugadmin/cobertura_merge.go:260-295 | every class object ends as the specification says, and every slice is its classes less the absorbed ones |
| CoberturaDocument.MergeCompilerGeneratedClassesIntoParents | internal/debugadmin/cobertura_merge.go:246-295 | the document's remaining packages hold Output of its classes, each package its own share |
| CoberturaDocument.RemainingExactly | internal/debugadmin/cobertura_merge.go:252-259 | exactly the packages that are not excluded remain, in their order |
| CoberturaDocument.LeftExactly | internal/debugadmin/cobertura_merge.go:270-290 | a package keeps exactly those of its own classes that the report keeps, in their order |
| SourcePaths.CommonPathSuffixLen | internal/debugadmin/cobertura_merge.go:492-504 | the loop from the back computes PathMatch; partner LongestCommonSuffix |
| SourcePaths.LongestCommonSuffix | internal/debugadmin/cobertura_merge.go:492-504 | the count is the longest common suffix of the segment lists |
| SourcePaths.SegmentsAre | internal/debugadmin/cobertura_merge.go:492-496 | the segments of a path are what lies between separators of either kind |
| SourcePaths.MatchIsGreatest | internal/debugadmin/cobertura_merge.go:492-504 | so the count is the greatest number of last segments that are the same, however they are separated |
| SourcePaths.PathMatchIsClose | internal/debugadmin/cobertura_merge.go:492-504 | the count is symmetric, and at least the smaller of the two through any third path |
| SourcePaths.SeparatorsAreAlike | internal/debugadmin/cobertura_merge.go:476-481 | backslashes count as slashes |
| SourcePaths.PickBestFilenameMatch | internal/debugadmin/cobertura_merge.go:457-474 | the choice has the most common segments, and is the least among those |
| SourcePaths.BestIsUnique | internal/debugadmin/cobertura_merge.go:457-474 | there is one such path, so the order of the map does not matter |
| SourcePaths.AtMostExactly | internal/debugadmin/cobertura_merge.go:462 | the order among equals: a prefix first, or what is smaller at the first difference |
| ProcessTree.ChildrenByParent | internal/debugadmin/proc_list.go:98-112 | each pid maps to exactly its children, in the order of the listing |
| ProcessTree.ChildrenInOrder | internal/debugadmin/proc_list.go:98-112 | children are in the order of the listing, each as often as it is listed |
| ProcessTree.TargetExactly | internal/debugadmin/proc_list.go:75-87 | a process is the target exactly if its program mentions the first start-up parameter, or, for a ".dll" in any case, if some dotnet has it in its first argument |
| ProcessTree.FindTargetDescendantPid | internal/debugadmin/proc_list.go:89-123 | with no cycle at the root, or with a target below it, the queue loop ends; it returns a matching proper descendant of least depth, and false exactly if there is none |
| ProcessTree.SearchEndsExactly | internal/debugadmin/proc_list.go:113-122 | the loop stops at some turn if and only if the root is not below itself or some proper descendant matches |
| ProcessTree.CyclicSearchGoesOn | internal/debugadmin/proc_list.go:113-122 | two processes that are each other's parents, for which it never stops |
| StackDump.ParseStackBlocks | internal/debugadmin/http_server.go:532-580 | the line loop with its open block computes the blocks of the segments and the lines before the first |
| StackDump.SegmentsMakeUp | internal/debugadmin/http_server.go:541-568 | leading lines and segments, put together, are all the lines in order; each segment starts with its one header |
| StackDump.SortStable | internal/debugadmin/http_server.go:570-577 | the pool-worker blocks and then the others, each group in input order |
| StackDump.ParsingConserves | internal/debugadmin/http_server.go:532-580 | headers, frames, extras and leading lines are the input lines, none lost and none twice |
| StackDumpText.TrimSpaceIs | internal/debugadmin/http_server.go:549 | trimming takes off exactly the white space at both ends |
| StackDumpText.TextReads | internal/debugadmin/http_server.go:533-535 | whatever white space and runs of "\n" and "\r" are printed around and between lines, their contents are what is parsed |
| StackDumpText.EveryText | internal/debugadmin/http_server.go:532-580 | every text is printed in such a way |
| StackDumpText.DumpRoundTrip | internal/debugadmin/http_server.go:532-580 | a dump of threads so printed parses to the lines in front and its threads: pool workers and then others, in order, each with header, "#" lines and other lines |
| StackDumpText.TextConserved | internal/debugadmin/http_server.go:532-580 | conservation from the text itself |
| LogBroker.Safety | internal/debugadmin/log_broker.go:17-46 | every run keeps the lock discipline, open channels for all clients and closed ones for all others |
| LogBroker.NoPanic | internal/debugadmin/log_broker.go:17-46 | no run sends on a closed channel or closes one twice |
| LogBroker.SubscriberSees | internal/debugadmin/log_broker.go:37-46 | a subscriber receives each message at most once, and each broadcaster's messages in their order |
| LogBroker.BroadcastReachesAll | internal/debugadmin/log_broker.go:37-46 | when a broadcast releases the lock its message was offered to every client |
| LogBroker.DroppedOnlyWhenFull | internal/debugadmin/log_broker.go:40-43 | a step loses a message only by a send that met 256 waiting ones |
| LogBroker.DroppedMeansFull | internal/debugadmin/log_broker.go:40-43 | over a whole run: behind every lost message there is such a send |
| LogBroker.ClientsFrozen | internal/debugadmin/log_broker.go:37-46 | the clients do not change while anyone broadcasts |
| LogBroker.CancelAgain | internal/debugadmin/log_broker.go:25-33 | over every run: once one cancel of an id has unlocked, no step of any other changes a client or a channel, or closes anything |
| LogBroker.ClosedWhenGone | internal/debugadmin/log_broker.go:25-33 | in every run a channel that is no client's, and that nobody is about to close, is closed |
| LogBroker.CancelCloses | internal/debugadmin/log_broker.go:25-33 | in every run, once a cancel has unlocked its channel is closed for good |
| LogBroker.ClosingKeepsMessages | internal/debugadmin/log_broker.go:27-31 | closing keeps what is in the channel, which can still be received |
| LogBroker.ReceivesOldest | internal/debugadmin/log_broker.go:17-35 | a message waiting can be received whoever has the lock, the oldest first |
| LogBroker.NobodyStuck | internal/debugadmin/log_broker.go:17-46 | in every run, whoever is inside a critical section has a step to make |
| LogBroker.MayEnter | internal/debugadmin/log_broker.go:17-46 | broadcasts share the lock; subscribing and cancelling need it alone; nothing else keeps anyone out |
| LogBroker.Delivery | internal/debugadmin/log_broker.go:37-46 | over every run: each client at the start of a broadcast has its message for good from the end of it on, or its channel was full at one of the sends |
| LogBrokerObject.LogBroker.Subscribe | internal/debugadmin/log_broker.go:17-35 | a fresh empty channel under a fresh id, the other clients as before; a run of three protocol steps |
| LogBrokerObject.LogBroker.Cancel | internal/debugadmin/log_broker.go:25-33 | takes one client out and closes its channel, or does nothing; in either case the channel is closed after, here and in the protocol; buffers stay |
| LogBrokerObject.LogBroker.Broadcast | internal/debugadmin/log_broker.go:37-46 | appends to every buffer that is not full and leaves the others; a run that locks, sends to each client once in some order and unlocks |
| Supervisor.OneUndelivered | internal/debugadmin/run.go:98-129 | in every run only the current target can have an unread exit, and each exit is read at most once |
| Supervisor.RecordsInStartOrder | internal/debugadmin/run_history.go:38-42 | the k-th record is the k-th target's, with its exit |
| Supervisor.RecordedBeforeDelivered | internal/debugadmin/target_process.go:111-148 | when an exit can be received, its record is the newest in the history |
| Supervisor.RestartsAreJustified | internal/debugadmin/run.go:100-115 | a restart needs auto-restart and an abnormal newest record |
| Supervisor.AbnormalRestartsExactly | internal/debugadmin/run.go:100-115 | with both there is a restart if and only if it is not a clean exit in coverage mode |
| Supervisor.CoverageExitIsNotRestarted | internal/debugadmin/target_process.go:120-127 | the run that shows the exception |
| Supervisor.RecordTellsExit | internal/debugadmin/run_history.go:54-67 | from code, signal and the abnormal flag of a record one can tell what the exit was |
| Supervisor.ExitStatus | internal/debugadmin/run.go:100-128 | the program exits with 0 exactly if its target exited cleanly or its server ended without failing, else with 1 |
| Supervisor.ExitIsDelivered | internal/debugadmin/target_process.go:111-148 | any exit of the running target can be recorded and sent, and then reaches the supervisor |
| Supervisor.CrashesAreRestarted | internal/debugadmin/run.go:98-129 | any number of abnormal exits in turn are each recorded and followed by a start |
| Supervisor.RecentLines.RecordRecentLine | internal/debugadmin/target_process.go:176-184 | the lines kept are always the last fifty of all recorded ones |
| Supervisor.TrimNewlinesExactly | internal/debugadmin/target_process.go:177 | all newlines at the end of a line are taken off, and nothing else |
| Supervisor.RecordExit | internal/debugadmin/target_process.go:118-145 | recording an exit takes the history object through the protocol's AddRecord step: the record is the next target's, there is one for each exit so far, abnormal unless the exit was clean outside coverage mode |
| Supervisor.RunHistory.Snapshot | internal/debugadmin/run_history.go:44-50 | a fresh copy of all records, which later ones do not reach |
| DebuggerCapture.CaptureIsExact | internal/debugadmin/http_server.go:433-504 | start-up output and stack output together are the bytes of the pipe in order; without a command the latter is empty |
| DebuggerCapture.CommandOnce | internal/debugadmin/http_server.go:442-477 | the command is written at most once, and only after an idle timeout |
| DebuggerCapture.CommandSplitsOutput | internal/debugadmin/http_server.go:442-530 | output read before the command is start-up output if and only if the channel was empty and the reader held no chunk; what was waiting comes first in the stack part |
| DebuggerCapture.EarlyOutputInStackPart | internal/debugadmin/http_server.go:442-504 | a run in which early output does get into the stack part |
| DebuggerCapture.CaptureCanSplit | internal/debugadmin/http_server.go:433-530 | for any output before the command and after it there is a capture that returns just these |
| DebuggerCapture.CaptureWithoutCommand | internal/debugadmin/http_server.go:445-450 | a debugger that ends first is sent no command, and all its output is start-up output |
| DebuggerCapture.NobodyStuck | internal/debugadmin/http_server.go:433-530 | in every run, until the capture is done, someone has a step that brings it on |
| DebuggerCapture.CancelledEnds | internal/debugadmin/http_server.go:463-470 | after a cancellation a capture before its command ends with what it has, and the reader may drop its chunk |

## Left out
- EmbeddedSource.NegativeSize: the original panics there; the model returns an error instead, so `Extract` in the model goes on to report it.
- EmbeddedSource.Extract: inflating, path joining and whether a path can be written are parameters; making a directory and writing a file fail as one.
- MetadataReaders.NewMetadataReader: the file is given as bytes; errors are told apart by kind, not by their text.
- PdbWriter.WriteThenRead: separators are ASCII, as the format says; `Heaps.NameRoundTrip` shows that a larger one is always rejected.
- CoberturaOrder.OrderIndependent: the order of synthesised methods in a parent does depend on the document, and is not claimed.
- CoberturaDocument.MergeCompilerGeneratedClassesIntoParents: XML reading and writing are not modelled, exclusion patterns are a predicate, source recovery from PDB files is off, and the list of packages is a sequence (the classes of a package are an array compacted in place).
- CoberturaMerge.FinalRate: a rate is kept as the pair of covered and total lines, not as formatted floating point.
- ProcessTree.FindTargetDescendantPid: reading /proc is an input, one snapshot with each pid listed once.
- SourcePaths.PickBestFilenameMatch: library sorts (here and elsewhere) are insertion sorts with the same result.
- LogBrokerObject.LogBroker.Broadcast: the object's own run has no receives and no overlapping calls; those are in `LogBroker`.
- Supervisor.OneUndelivered: real time, shutting down the HTTP server, gdb scripts, core dumps and forwarding of output are events or absent.
- DebuggerCapture.CaptureIsExact: the error stream, exit errors and the length of the timeout are not modelled.
- Masks and shifts on bytes are written as division and remainder.
- DEFLATE itself, HTTP handlers and templates, command lines for debuggers and tracers, the trace store, the coverage history and the C# tools.
