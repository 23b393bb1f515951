# phpjoern CSV exporter, modelled in Dafny

phpjoern turns the php-ast syntax trees of a PHP project into a property
graph written as two CSV files. The node file holds one row per graph node:
id, type, flags, lineno, code, endlineno, name and doccomment. The
relationship file holds one row per edge: start, end and type. Edges are
`PARENT_OF` (AST parent to child), `FILE_OF` (File node to the root of its
AST) and `DIRECTORY_OF` (Directory node to the files and sub-directories it
holds). Ids come from a node counter, so they are consecutive from 0.

The model covers four pieces of the repository:

* `src/CSVExporter.php` is the current exporter. The class
  `Exporter.CsvExporter` has the node counter and the two files as fields:
  `nodes` and `rels`, sequences of rows. Its methods are proved to append
  exactly what the pure walk `Exporter.ExportTree` describes. The constructor
  handles both dialects: neo4j-import (`,` and `;`) and jexp batch-import
  (tab and `,`). Other parts are `quote_and_escape` with its reading-back,
  and `csv_format_flags` over abstract flag tables (module `Flags`).
* `CSVExporter.php` is the older tab-only exporter (module `LegacyExporter`).
  It writes each `PARENT_OF` row before descending into the child, using the
  counter's current value as the end. It uses a different escaper,
  `cleanup`. Its `store_filenode` writes `FILE_OF` to the id that comes next.
  For the same row function, the walk is proved to write the same node rows
  as the current exporter. It writes the same relationship rows, each as
  often, in another order. Each id ends as many relationships, and a node's
  outgoing edges end at the same ids in the same order. The row functions
  of the two revisions differ: the older one escapes with `cleanup`, the
  later one with `quote_and_escape`.
* `csvexport.php` is the oldest walker (module `CsvExport`). It passes the
  counter in as a parameter and gets it back as the return value.
* `src/Parser.php` is the driver (module `Parser`). `parse_file` handles one
  file. `parse_dir` walks a directory tree, which is a value: every entry
  lists what `ast\parse_file` makes of it. A directory gets a Directory node
  only when it is interesting; the top directory always gets one, and first.

The php-ast extension's `ast\get_kind_name`, `ast\kind_uses_flags` and
`get_flag_info()` are parameters: the datatype `Ast.Php`. Flag tables are
ordered sequences of `(value, name)` pairs, because PHP arrays iterate in
insertion order. Flags are 64-bit words (`bv64`), and the text of a flag value
is its signed value.

## Model

| member | source | states |
|---|---|---|
| Exporter.CsvExporter.constructor | src/CSVExporter.php:52-73 | jexp uses a tab as column delimiter and `,` as array delimiter, with the jexp headers; any other format uses `,` and `;` with the neo4j headers; the files start empty (after the headers) and the counter at 0 |
| Exporter.HeaderColumns | src/CSVExporter.php:62-72 | in either dialect the node header splits at the column delimiter into exactly its 8 column names and the relationship header into its 3 |
| Exporter.HeaderColumnsFree | src/CSVExporter.php:66-71 | no header column name contains the delimiter of its dialect |
| Exporter.QuoteAndEscape | src/CSVExporter.php:276-293 | the result starts and ends with a double quote |
| Exporter.EscapeInnerIsEscapeAll | src/CSVExporter.php:278-290 | the chain of `str_replace` calls equals escaping each character on its own: backslash and quote always, line feed and carriage return in neo4j only |
| Exporter.UnescapeEscapeAll | src/CSVExporter.php:276-293 | reading the escaped text back (backslash + next character stands for one character) gives back the input, and the escaped text is well-formed |
| Exporter.QuoteAndEscapeRoundTrip | src/CSVExporter.php:276-293 | stripping the outer quotes of the result and undoing the escapes gives back the input, in either format, so the escaping is injective |
| Exporter.QuoteAndEscapeWellEscaped | src/CSVExporter.php:278-290 | between the outer quotes every backslash starts a two-character escape and no quote stands alone |
| Exporter.QuoteAndEscapeNoRawNewline | src/CSVExporter.php:285-288 | in neo4j format the result holds no raw line feed and no raw carriage return |
| Exporter.CsvFormatFlags | src/CSVExporter.php:332-367 | rendered names are returned as rendered; when no name is produced, the result is empty if and only if the flags are 0, and non-zero flags give the quoted `[WARNING]` text naming kind and flags |
| Exporter.FlagsNeverDropped | src/CSVExporter.php:355-366 | non-zero flags never give an empty column when every table name is non-empty |
| Exporter.ZeroFlagsEmpty | src/CSVExporter.php:342-364 | flags 0 give the empty column for every kind without an exclusive table |
| Flags.Lookup | src/CSVExporter.php:335-339 | a name found for the flags is the table's name for that key, and nothing is found only when no entry has that key |
| Flags.LookupFinds | src/CSVExporter.php:335-339 | in a table with distinct keys the lookup returns exactly the entry's name |
| Flags.SetNamesMember | src/CSVExporter.php:342-349 | a name is collected if and only if some entry with that name has a bit in common with the flags |
| Flags.SetNamesAppend | src/CSVExporter.php:345-349 | names are collected in table order |
| Flags.SetNamesOfZero | src/CSVExporter.php:345-349 | flags 0 collect no name |
| Flags.ExclusiveRendersOneName | src/CSVExporter.php:335-340 | for an exclusive kind the column is a given name if and only if the table maps exactly these flags to it |
| Flags.CombinableRendersSetNames | src/CSVExporter.php:342-353 | with disjoint exclusive and combinable tables, a combinable kind's column splits at the array delimiter into exactly the set-bit names in table order, or nothing is rendered when there are none |
| Flags.ZeroFlagsRenderNothing | src/CSVExporter.php:342-353 | flags 0 render no name for a kind without an exclusive table |
| Flags.RenderedNonEmpty | src/CSVExporter.php:335-352 | a rendered column is non-empty when every table name is |
| Flags.PublicStaticExample | src/CSVExporter.php:342-353 | `MODIFIER_PUBLIC \| MODIFIER_STATIC` (257) renders as "MODIFIER_PUBLIC;MODIFIER_STATIC" in neo4j and with `,` in jexp: table order, not bit order |
| Exporter.RowForKeepsId | src/CSVExporter.php:209-213 | every row `export` writes carries the id it is given |
| Exporter.ExportTreeSize | src/CSVExporter.php:98-182 | the walk writes one node row per value of the tree and one relationship per value except the root |
| Exporter.ExportTreeIds | src/CSVExporter.php:209-213 | the rows of a walk started at counter `start` carry the ids start, start + 1, ... in order |
| Exporter.ExportTreeEdges | src/CSVExporter.php:135-139 | every relationship of the walk is a PARENT_OF row from a smaller to a larger id, both among the walk's ids |
| Exporter.ExportTreeEnds | src/CSVExporter.php:136-139 | every id of the walk except the root's ends exactly one relationship and no other id ends one, so the relationships form a tree |
| Exporter.RootEdgesInChildOrder | src/CSVExporter.php:136-139 | the PARENT_OF rows leaving a node end, in child order, at the ids its children receive: the first child gets the node's id + 1, each later one comes after the previous child's subtree |
| Exporter.ExportTreeNotFrom | src/CSVExporter.php:135-139 | no relationship of a subtree starts at an id below the subtree's root |
| Exporter.ChildRootRow | src/CSVExporter.php:136-137 | the row at the id the PARENT_OF row points to is the child's own row, written on the parent node's line |
| Exporter.ChildLine | src/CSVExporter.php:113-179 | a plain child is written with the line of the node it belongs to, and a child node with its own line |
| Exporter.CsvExporter.Export | src/CSVExporter.php:98-182 | `export` returns the counter on entry, the counter grows by the size of the tree, and exactly the walk's rows are appended to the two files |
| Exporter.CsvExporter.ExportChildNodes | src/CSVExporter.php:136-139 | the loop appends each child's subtree and then the PARENT_OF row from the node to the id `export` returned for the child |
| Exporter.CsvExporter.StoreNode | src/CSVExporter.php:209-213 | appends one row with the current counter as id and the given columns, the counter moves on by one, the relationship file is unchanged, and the rows keep the ids 0 .. counter - 1 |
| Exporter.CsvExporter.StoreFileNode | src/CSVExporter.php:224-227 | appends a File row named after the quoted and escaped file name and returns its id, the counter on entry |
| Exporter.CsvExporter.StoreDirNode | src/CSVExporter.php:238-241 | appends a Directory row in the same way and returns its id |
| Exporter.CsvExporter.StoreFileOrDirNode | src/CSVExporter.php:252-260 | returns the current counter, then increments it; the name column is quoted and escaped; the other columns are empty |
| Exporter.CsvExporter.StoreRel | src/CSVExporter.php:302-305 | appends one relationship row and leaves the counter and the node file alone |
| Graph.NodeLineColumns | src/CSVExporter.php:211 | a node line splits back into its 8 columns when no text column holds the delimiter |
| Graph.RelLineColumns | src/CSVExporter.php:304 | a relationship line splits back into start, end and type |
| LegacyExporter.CsvExporter.constructor | CSVExporter.php:28-37 | the older exporter writes its two tab header lines, starts with no rows and sets the counter to 0 |
| LegacyExporter.ReplaceControlsRemoves | CSVExporter.php:214-216 | after the three replacements no tab, line feed or carriage return is left |
| LegacyExporter.EscapedQuotes | CSVExporter.php:218 | after the quote replacement every quote follows a backslash |
| LegacyExporter.CleanupSpec | CSVExporter.php:212-220 | after `cleanup` no tab, line feed or carriage return is left; a quote-wrapped text keeps its outer quotes and every inner quote is backslash-escaped; any other text keeps its quotes as they were |
| LegacyExporter.StringCodeWrapped | CSVExporter.php:104-108 | a string leaf is quoted before `cleanup`, so its code is always quote-wrapped with inner quotes escaped |
| LegacyExporter.CleanupNotInjective | CSVExporter.php:212-220 | `cleanup` does not escape backslashes, so a tab and the two characters `\t` come out as the same text |
| LegacyExporter.FormatFlags | CSVExporter.php:259-292 | where names are found, they are joined by `,`; when nothing is named, the column is empty exactly when the flags are 0, and non-zero flags give the unquoted `[ERROR]` text naming kind and flags |
| LegacyExporter.FormatFlagsAgainstLater | CSVExporter.php:259-292 | where names are found both revisions write the same column (the later one in jexp), and both leave it empty in exactly the same cases; for non-zero flags without a name they differ, the bare `[ERROR]` text against the quoted `[WARNING]` one |
| LegacyExporter.RowForKeepsId | CSVExporter.php:165-173 | every row the older `export` writes carries the id it is given |
| LegacyExporter.SameNodes | CSVExporter.php:58-138 | the older walk writes exactly the node rows of the later walk for the same row contents: writing the edge first changes only the order of the relationship rows |
| LegacyExporter.SameRelsReordered | CSVExporter.php:94-97 | for the same row function the older walk writes the same relationship rows as the later walk, each as often: writing the edge before descending changes only their order |
| LegacyExporter.SameEnds | CSVExporter.php:94-97 | each id ends as many relationships as in the later walk |
| LegacyExporter.SameRootEdges | CSVExporter.php:94-97 | the relationships leaving a node end, in order, at the same ids as in the later walk |
| LegacyExporter.TreeEdges | CSVExporter.php:91-97 | every relationship is a PARENT_OF row from the saved parent id to a larger id among the walk's ids |
| LegacyExporter.TreeShape | CSVExporter.php:91-97 | the rows carry consecutive ids from the counter; every non-root id ends exactly one relationship; the edges leaving a node end, in child order, at the ids its children receive |
| LegacyExporter.CsvExporter.Export | CSVExporter.php:58-138 | the counter grows by the size of the tree and exactly the older walk's rows are appended |
| LegacyExporter.CsvExporter.ExportChildNodes | CSVExporter.php:94-97 | per child, the PARENT_OF row from the saved parent id to the counter's current value comes first, then the child's subtree |
| LegacyExporter.CsvExporter.StoreNode | CSVExporter.php:165-173 | code and doc comment go through `cleanup`; one row with the counter as id; the counter moves on by one |
| LegacyExporter.CsvExporter.StoreFileNode | CSVExporter.php:193-197 | a File row with the raw name and the counter as id, then a FILE_OF row from it to the incremented counter, the id the next row will get |
| LegacyExporter.CsvExporter.StoreRel | CSVExporter.php:229-232 | appends one relationship row; nothing else changes |
| CsvExport.RowColumns | csvexport.php:72-125 | a node line splits back into 3 columns (id, kind name, line) and a value line into 4 |
| CsvExport.WalkCount | csvexport.php:36-128 | `compute_csv` returns its counter plus the number of values below the root, which is the last id it used, and writes one row per value |
| CsvExport.WalkIds | csvexport.php:72-79 | the rows carry consecutive ids from the counter passed in |
| CsvExport.SameRelsAsLegacy | csvexport.php:74-79 | the relationships are exactly those of the older exporter object, in the same order |
| CsvExport.WalkShape | csvexport.php:74-79 | every non-root id ends exactly one relationship; the edges leaving a node end, in child order, at (previous sibling's last id) + 1 |
| CsvExport.ComputeCsv | csvexport.php:36-129 | returns the last id used and appends exactly the walk's rows: leaves on the parent's line, nodes with only id, kind name and line |
| CsvExport.ComputeChildren | csvexport.php:74-79 | per child the counter moves on by one, the PARENT_OF row to it is written, then the child is walked from there |
| CsvExport.CsvFiles.constructor | csvexport.php:11-15 | both files hold only their header |
| CsvExport.AstCsvExport | csvexport.php:9-21 | writes the two headers, then the walk from id 0 on line 0 |
| CsvExport.ExportIds | csvexport.php:14-17 | a whole export numbers its rows 0 .. N - 1 for a tree of N values, and ids 1 .. N - 1 each end exactly one relationship |
| Parser.BuildPathSplits | src/Parser.php:179-182 | a path built from separator-free segments splits back into them |
| Parser.BasenameOfChild | src/Parser.php:151-154 | the name given to the File node of an entry is the entry's own name |
| Parser.ExtensionAfterLastDot | src/Parser.php:153 | the extension is the text after the last dot, and the test ignores case |
| Parser.NoDotNoPhp | src/Parser.php:153 | a name without a dot is never taken for a PHP file |
| Parser.UpperCasePhpParsed | src/Parser.php:153 | a name ending in ".PHP" is parsed |
| Parser.DirRels | src/Parser.php:163-164 | one DIRECTORY_OF row per found index, in order, from the directory's id |
| Parser.FileWellFormed | src/Parser.php:91-112 | on success: the File row with the counter's id, then the tree whose root gets the next id, and a FILE_OF row between them; on a parse error: nothing, and -1 |
| Parser.ParseFile | src/Parser.php:91-112 | `parse_file` appends exactly that and returns the File row's id or -1 |
| Parser.ScanWellFormedAll | src/Parser.php:149-158 | the loop's rows are numbered consecutively from the counter, every index in `$found` is one of them or -1, and every relationship starts at one of them and ends at one of them or at -1 |
| Parser.DirWellFormed | src/Parser.php:137-170 | the same for all of `parse_dir`, its returned index included |
| Parser.ScanFinds | src/Parser.php:149-158 | after the loop `$found` is non-empty if and only if some entry is a PHP file or an interesting sub-directory; while it is empty nothing was written |
| Parser.DirFinds | src/Parser.php:137-170 | below the top, `parse_dir` returns an index other than -1 if and only if the directory is interesting (holds a PHP file, or an interesting sub-directory), and writes nothing when it returns -1 |
| Parser.EdgesFromDirRels | src/Parser.php:163-164 | the DIRECTORY_OF rows leaving the directory end at the found indices, in order |
| Parser.CloseDirNode | src/Parser.php:160-165 | a stored directory's row is the row with its id; the relationships leaving it end exactly at `$found`, in order; the top directory takes the counter on entry |
| Parser.DirNode | src/Parser.php:141-167 | the same for `parse_dir`: the top directory gets the counter on entry (0 for a fresh exporter), and the relationships leaving a stored directory end exactly at `$found` |
| Parser.FailedFileStillListed | src/Parser.php:153-165 | as written, a sub-directory whose only PHP file fails to parse gets a Directory row and a DIRECTORY_OF row ending at -1 |
| Parser.ScanFailedFile | src/Parser.php:153-154 | the loop puts -1 in `$found` for a PHP file that fails to parse and writes nothing for it |
| Parser.ParseDir | src/Parser.php:137-170 | `parse_dir` appends exactly what the directory walk describes and returns the directory's index or -1 |
| Parser.ParseTopDir | src/Parser.php:141-167 | with `$top`, the Directory row is stored first with the counter's id, then the loop, then one DIRECTORY_OF row per found index |
| Parser.ParseSubDir | src/Parser.php:144-167 | below the top, the loop first; then, only if `$found` is non-empty, the Directory row and its DIRECTORY_OF rows; -1 otherwise |
| Parser.ScanDir | src/Parser.php:149-158 | the `readdir` loop appends each entry's rows in order and collects `$found` |
| Parser.ScanEntry | src/Parser.php:150-157 | a readable file with extension php in any case is parsed and its index kept even when it is -1; a readable sub-directory other than "." and ".." is walked and its index kept unless -1; other entries are skipped |
| Parser.StoreDirRels | src/Parser.php:163-164 | the closing `foreach` appends one DIRECTORY_OF row per found index, in order, and nothing else |

## Left out

- File handles: `fopen`, `fwrite`, `fclose` and the destructors are not modelled. The two files are the sequences `nodes` and `rels` (`nodeRows` and `relRows` in the oldest walker). `Graph.NodeLine` and `Graph.RelLine` give the text of each row. Each exporter's header lines are its fields `nodeHeader` and `relHeader`, not rows.
- The command-line part of src/Parser.php is not part of this model: `parse_arguments`, `print_help` and the main script (src/Parser.php:11-79 and 210-237). It uses `CSVExporter::NEO4J_MODE` and `CSVExporter::JEXP_MODE`, which src/CSVExporter.php does not declare (it declares `NEO4J_FORMAT` and `JEXP_FORMAT`).
- The commented-out iterator version of `parse_dir` (src/Parser.php:184-205) and the root Parser.php are not part of this model.
- Console output is left out: the "Parsing file" line (src/Parser.php:94) and the `error_log` call on a parse error (src/Parser.php:108).
- The foreign php-ast functions are parameters, the datatype `Ast.Php`: `ast\get_kind_name`, `ast\kind_uses_flags` and `get_flag_info()` from util.php, which is not part of this model. `ast\parse_file` is the `ParseResult` stored in each file entry. No exception other than `ParseError` is modelled.
- The file system is the datatype `Parser.Directory`. Its entries come in the order `readdir` returns them. `isFile`, `isDir` and `isReadable` are the entry's kind and its `readable` flag. Symbolic links, permission changes during the walk and unreadable directories that `opendir` fails on are not modelled. `DIRECTORY_SEPARATOR` is the parameter `sep`.
- Floating-point leaves: the text of `(string)` on a double is the opaque string `repr` of `Ast.Float`. PHP's float formatting is not modelled.
- Absent arguments: `store_node` is called with fewer arguments than it declares (src/CSVExporter.php:149, 161, 178 and CSVExporter.php:107, 119, 136), the older `store_node` declares its optional `$code = ""` before required parameters (CSVExporter.php:165), and `export` leaves `$nodeendline`, `$nodename` and `$nodedoccomment` unset for plain nodes (src/CSVExporter.php:124-135). In both revisions every absent value is written as the empty string, as PHP 7.0 does (`cleanup` leaves the empty string unchanged). The `ArgumentCountError` that PHP 7.1 and later raise for the missing arguments is not modelled.
- The flag text of the oldest walker: `compute_csv` calls util.php's `format_flags` and reads `endLineno`, `name` and `docComment`, but never writes any of them (csvexport.php:57-70). The model leaves out these unused computations.
- Leaf kinds: `Ast.Value` has strings, null, integers and doubles as plain values, the only ones the exporters' own comments report reaching the leaf branches. Booleans, arrays and objects as leaves are not modelled. Integers are unbounded; PHP's 64-bit integer range is not modelled.
- Parser.DirFinds: stated for a counter that is not negative, which always holds because the counter starts at 0 and only grows. It is needed because an index of -1 could otherwise not be told apart from "not stored".
- Parser.FailedFileStillListed: stated for a counter that is not negative, for the same reason.
