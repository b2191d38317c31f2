# Verified models of the dv core

This project models the parts of `dv` whose behaviour is hardest to see from one function: state machines, in-place
algorithms, parsers and interleavings. It proves what they compute, for every input, every run and every reachable state.
`dafny verify dfyconfig.toml` checks everything.

| part | modules |
|---|---|
| signed packages: reading a ZIP archive and hashing it as it was before `.signature.p7s` was inserted | `Bytes`, `IndexOrder`, `SignedArchive`, `UnsignedHash`, `EmittedArchive`, `SignatureInsertion`, `PrefixedArchive` |
| reference conditions: a bounded recursive-descent evaluator, against a grammar, its meaning and a printer | `ConditionGrammar`, `ConditionSpec`, `ConditionTheory`, `ConditionReferences`, `ConditionPrinter`, `ConditionParser` |
| the runtime identifier graph: compact storage and an all-sources breadth-first search | `BreadthFirst`, `TextOrder`, `Spans`, `RuntimeGraph`, `RuntimeCompatibility` |
| source links: a depth-first walk with an explicit stack | `LinkedSources`, `LinkedSourceTheory` |
| project references: a worklist closure over two sorted indices into one byte arena | `PathTable`, `ProjectClosure` |
| the cancellation token, as atomic steps of any number of threads | `Cancellation` |
| runtime versions and roll-forward | `RuntimeVersions`, `RollForward` |
| credential providers: the host session against any peer, and together with the fixture plugin | `CredentialSession`, `CredentialTheory`, `CredentialProtocol` |
| the argument scan with its compact views | `Invocation`, `InvocationTheory` |
| ancestor inputs | `AncestorInputs` |
| the script tokenizer | `Tokenizer` |
| central package versions | `CentralVersions` |

`Wrappers` and `Ascii` hold `Option`, `Result` and character classes.

What the original does step by step is a method with loops, and what it updates in place is an array or a class; each
is proved against a pure specification, and the theorems are about that specification. What it computes is a function.

## Where the code falls short of a plausible promise

Each of these is proved with a concrete case and with the exact condition.

- A patched local offset counts from the first local header. It is the record's position in the hashed stream if and only
  if the local headers start at 0 (`EmittedArchive.OffsetsAreAbsolute`; a case: `PrefixedArchive.PrefixIsMisplaced`).
- The reader trusts the last footer. Removing a signature undoes inserting it if and only if the archive's own footer is
  the last one (`SignatureInsertion.RemovalUndoesInsertionExactly`), which it is without a comment; a comment that is itself
  a footer makes the archive refused (`SignatureInsertion.CommentCanHideFooter`).
- A `cancel` that lost the compare-exchange can return while the token still runs, because the winner has not raised the
  phase yet (`Cancellation.CancelCanReturnUncancelled`; exactly when: `Cancellation.RunningAfterRequest`).
- Numeric prerelease identifiers with leading zeros are accepted, and ordered by length. A version is ordered as Semantic
  Versioning 2.0.0 says if and only if it has none (`RuntimeVersions.OrderIsSemVerExactly`; a case:
  `RuntimeVersions.LeadingZeroIsMisordered`).
- With the fallback to prereleases, a wider policy may select another version although the narrower one succeeds, namely a
  stable one that the narrower policy cannot reach (`RollForward.NestedSelectCanDiffer`; exactly when:
  `RollForward.NestedSelectAgreesExactly`).
- After a failed push, pushing a root that is already known succeeds and leaves the closure incomplete
  (`ProjectClosure.SecondPushStaysIncomplete`). A successful push leaves it complete if and only if it was complete before
  or the root was not known (`ProjectClosure.ProjectClosureBatch.Push`).
- The conversation with the fixture plugin ends as expected if and only if the log message is at most 65,536 bytes long
  and user name and password are not both empty (`CredentialProtocol.ConversationSucceeds`; cases:
  `CredentialProtocol.UnsoundSetupsFail`).
- A protocol error drops the session, which sends the child a kill and does not wait for its exit
  (exactly when: `CredentialProtocol.ChildHasGone`; cases: `CredentialProtocol.UnsoundSetupsFail`).

## Model

| member | source | states |
|---|---|---|
| `SignatureInsertion.RemovalUndoesInsertionExactly` | crates/dv-core/src/package_signature.rs:1066-1189 | for every archive whose local records tile from offset 0 and every signature entry, put at any local and any central position: what is hashed after reading the signed bytes is the original archive, byte for byte, if and only if the archive's own footer is the last one in the file |
| `SignatureInsertion.RemovalUndoesInsertion` | crates/dv-core/src/package_signature.rs:1150-1189 | the direction that gives the original archive back |
| `SignatureInsertion.LaterFooterIsFar` | crates/dv-core/src/package_signature.rs:1066-1071 | a footer behind another one starts at the second of its two counts at the earliest, so its own counts lie in the bytes that signing leaves alone |
| `SignatureInsertion.NotLastFooterDiffers` | crates/dv-core/src/package_signature.rs:1264-1271 | what is hashed for a footer inside the comment has one entry less there than the original archive |
| `SignatureInsertion.SignedIsAccepted` | crates/dv-core/src/package_signature.rs:1057-1189 | such an archive is accepted by the reader, which finds the inserted entry as the signature |
| `SignatureInsertion.SignedIsAcceptedExactly` | crates/dv-core/src/package_signature.rs:1160-1189 | for every archive and every entry named as the signature, whatever its layout: if the archive's own footer is the last one, the reader accepts the file if and only if the entry has the signing layout, told by the bytes of its two records (no external attributes, no flags, no compression, the same size within the limit in both, and the signature's name); and the row found is that entry's |
| `SignatureInsertion.WrittenIsAcceptedExactly` | crates/dv-core/src/package_signature.rs:1285-1310 | the same for any bytes laid out as such an archive |
| `SignatureInsertion.AcceptedIsZip32` | crates/dv-core/src/package_signature.rs:1073-1101 | every accepted file has, by its bytes alone, a single-disk footer with equal counts that are not all ones, a directory that meets the footer, and a central row at its start |
| `SignatureInsertion.OwnFooterIsLast` | crates/dv-core/src/package_signature.rs:1066-1071 | without a comment, the footer that the scan from the end finds is the archive's own |
| `SignatureInsertion.CommentCanHideFooter` | crates/dv-core/src/package_signature.rs:1066-1084 | with a comment that is itself a bare footer it is not, and the archive is refused |
| `SignatureInsertion.WrittenDirectory` | crates/dv-core/src/package_signature.rs:1073-1148 | any bytes laid out as an archive pass every check of the directory, and the signature found is exactly the entry that has its name |
| `SignatureInsertion.InsertedIsValid` | crates/dv-core/src/package_signature.rs:1150-1159 | inserting an entry into an archive gives a well-formed archive within the same limits, in which only the inserted row names the signature |
| `EmittedArchive.EmittedIsArchive` | crates/dv-core/src/package_signature.rs:1217-1281 | for every archive that was read: the emitted bytes have, at every kept central row, the old row with the shifted local offset; the patched counts, size and offset describe the emitted central section; the emitted length is the file's minus the signature's two records |
| `EmittedArchive.KeptLocalEmitted` | crates/dv-core/src/package_signature.rs:1230-1232 | the bytes of every kept local record stand in the emitted stream at its patched offset plus the start of the local headers |
| `EmittedArchive.OffsetsAreAbsolute` | crates/dv-core/src/package_signature.rs:1171-1181 | a patched offset is the position of its record in the emitted stream if and only if the local headers start at 0 |
| `PrefixedArchive.PrefixIsMisplaced` | crates/dv-core/src/package_signature.rs:1158-1189 | a signed archive with one byte in front is read, and its kept row does not point to its record in what is hashed |
| `SignedArchive.FindFooter` | crates/dv-core/src/package_signature.rs:1066-1071 | finds the last end-of-central-directory record whose comment ends with the file, and fails only if there is none |
| `SignedArchive.ReadRow` | crates/dv-core/src/package_signature.rs:1092-1137 | reads one central row, tells whether it names the signature, and fails only on a wrong magic number or a row that leaves the file |
| `SignedArchive.ReadCentralDirectory` | crates/dv-core/src/package_signature.rs:1086-1148 | succeeds if and only if the counted rows follow each other to the footer, each with its magic number, and at most one names the signature; returns those rows in order |
| `SignedArchive.ReadDirectory` | crates/dv-core/src/package_signature.rs:1073-1148 | succeeds if and only if the footer is single-disk ZIP32, its bounds meet it, and the central directory is accepted |
| `SignedArchive.AssignEntrySizes` | crates/dv-core/src/package_signature.rs:1150-1158 | in local order every record is sized up to its successor (the last up to the central directory); fails if and only if a record starts behind the central directory |
| `SignedArchive.AssignShifts` | crates/dv-core/src/package_signature.rs:1171-1182 | never fails, keeps all rows and sizes, and moves every kept record to the sum of the kept sizes before it |
| `SignedArchive.ShiftInRange` | crates/dv-core/src/package_signature.rs:1176-1181 | a shift never moves a record forward, so no conversion or sum in the loop can overflow |
| `SignedArchive.ValidateSignatureLocalHeader` | crates/dv-core/src/package_signature.rs:1285-1310 | accepts if and only if the local header is complete and agrees with the central row, with the signature's name and no flags or compression |
| `SignedArchive.LayOut` | crates/dv-core/src/package_signature.rs:1150-1189 | succeeds if and only if local records lie before the directory and the signature entry has the signing layout; the result describes the file |
| `SignedArchive.Read` | crates/dv-core/src/package_signature.rs:1057-1190 | succeeds if and only if the file is acceptable; a result describes the file (sizes tile, shifts pack), and no result means that no row names the signature |
| `IndexOrder.SortByKey` | crates/dv-core/src/package_signature.rs:1150-1151 | returns every index but the skipped one once, sorted by key |
| `UnsignedHash.HashRange` | crates/dv-core/src/package_signature.rs:1312-1325 | absorbs exactly the given range, whatever the buffer size, and fails if and only if a non-empty range leaves the file |
| `UnsignedHash.ArchiveHasher.constructor` | crates/dv-core/src/package_signature.rs:1031-1037 | a new hasher has absorbed nothing |
| `UnsignedHash.ArchiveHasher.Update` | crates/dv-core/src/package_signature.rs:1039-1045 | absorbs the bytes behind those already absorbed |
| `UnsignedHash.HashSlices` | crates/dv-core/src/package_signature.rs:1230-1232 | absorbs the local records in the given order, without failing |
| `UnsignedHash.HashLocals` | crates/dv-core/src/package_signature.rs:1221-1232 | after the prefix and the records, exactly the file before the central directory without the signature's local record has been absorbed, in whatever order equal offsets were sorted |
| `UnsignedHash.HashRow` | crates/dv-core/src/package_signature.rs:1242-1252 | absorbs the central row with only its local offset replaced, if the shifted offset fits 32 bits |
| `UnsignedHash.HashRows` | crates/dv-core/src/package_signature.rs:1241-1253 | absorbs all rows but the signature's, patched, one behind the other |
| `UnsignedHash.HashCentral` | crates/dv-core/src/package_signature.rs:1234-1253 | absorbs the kept rows in the order of the directory, each patched |
| `UnsignedHash.HashFooter` | crates/dv-core/src/package_signature.rs:1255-1280 | absorbs the footer with both counts, the size and the offset reduced, then the comment |
| `UnsignedHash.HashFooterOf` | crates/dv-core/src/package_signature.rs:1255-1280 | the same with the sizes of the signature entry |
| `UnsignedHash.ReadIsEmittable` | crates/dv-core/src/package_signature.rs:1242-1278 | after any successful read no checked subtraction and no conversion of the hashing pass can fail |
| `UnsignedHash.UnsignedHash` | crates/dv-core/src/package_signature.rs:1217-1282 | after any successful read the pass succeeds, and what it absorbed is the archive without its signature entry |
| `ConditionTheory.EvaluateIsMeaning` | crates/dv-core/src/project.rs:3473-3502 | a condition evaluates to a value if and only if it spells a syntax tree within the limits (bytes, comparisons, nesting) that has this value |
| `ConditionTheory.SpelledParses` | crates/dv-core/src/project.rs:3504-3564 | the spelling of a tree parses to that very tree, consumes exactly its text and counts exactly its comparisons |
| `ConditionTheory.SpelledEvaluates` | crates/dv-core/src/project.rs:3473-3502 | the spelling of a tree evaluates to the tree's value |
| `ConditionTheory.SpellingIsUnambiguous` | crates/dv-core/src/project.rs:3504-3541 | no text spells two trees: precedence and greedy operands leave one reading |
| `ConditionTheory.OrSound` | crates/dv-core/src/project.rs:3504-3541 | whatever `parse_or` accepts is the text of the tree it read, with the counted comparisons and a depth within the limit, and it consumed something |
| `ConditionTheory.OrComplete` | crates/dv-core/src/project.rs:3504-3541 | the text of a fitting tree in front of any fitting rest is read as that tree, leaving that rest |
| `ConditionTheory.BareLengthSound` | crates/dv-core/src/project.rs:3580-3595 | a bare operand ends at a delimiter and holds only closed property references and plain characters |
| `ConditionTheory.BareLengthComplete` | crates/dv-core/src/project.rs:3580-3595 | every such operand in front of a delimiter is read to its end |
| `ConditionReferences.ExpandIsSubstitution` | crates/dv-core/src/project.rs:3603-3633 | expansion gives a value if and only if the text is a template of literal text and closed references, all known, with that value |
| `ConditionReferences.TemplateExpands` | crates/dv-core/src/project.rs:3603-3633 | every template of known references expands to its substitution |
| `ConditionReferences.ReadTemplateSound` | crates/dv-core/src/project.rs:3603-3633 | whatever expands is such a template |
| `ConditionReferences.FindReferenceFinds` | crates/dv-core/src/project.rs:3603-3633 | the search finds the first place that opens a reference, and fails only if there is none |
| `ConditionPrinter.EvaluateUndoesPrint` | crates/dv-core/src/project.rs:3473-3601 | every expression whose printed form respects the limits evaluates, printed, to its Boolean meaning: `And` binds tighter than `Or`, negation tightest, equality ignores ASCII case; blanks around comparisons, brackets and `!` are free or missing, words come in any case, extra brackets are allowed, and literals of letters, digits, points, hyphens and underscores may stand without quotes |
| `ConditionPrinter.PrintedIsSpelled` | crates/dv-core/src/project.rs:3504-3601 | the printed form spells a tree with the meaning of the expression |
| `ConditionPrinter.OnlyDimensionsAreKnown` | crates/dv-core/src/project.rs:3643-3653 | exactly the three dimensions have a value, under their names in any case |
| `ConditionPrinter.KeywordIsWhole` | crates/dv-core/src/project.rs:3655-3667 | behind blanks, `And` or `Or` in any case is a keyword if and only if no letter, digit or underscore follows |
| `ConditionParser.ReferenceConditionParser.constructor` | crates/dv-core/src/project.rs:3488-3495 | a new parser stands at the start, with no comparison and no nesting |
| `ConditionParser.ReferenceConditionParser.Evaluate` | crates/dv-core/src/project.rs:3473-3502 | the parser over `position`, `comparisons` and `depth` computes the specified value or the same error |
| `ConditionParser.ReferenceConditionParser.ParseOr` | crates/dv-core/src/project.rs:3504-3511 | agrees with the grammar on value, error, rest and comparison count, and restores `depth` |
| `ConditionParser.ReferenceConditionParser.ParseAnd` | crates/dv-core/src/project.rs:3513-3520 | the same for a conjunction |
| `ConditionParser.ReferenceConditionParser.ParseUnary` | crates/dv-core/src/project.rs:3522-3541 | the same for negation, brackets and comparisons; both enter one level of nesting and leave it |
| `ConditionParser.ReferenceConditionParser.ParseComparison` | crates/dv-core/src/project.rs:3543-3564 | the same for one comparison, or an operand that is the word true or false |
| `ConditionParser.ReferenceConditionParser.ParseOperand` | crates/dv-core/src/project.rs:3566-3601 | the same for a quoted or bare operand |
| `ConditionParser.ReferenceConditionParser.SkipBare` | crates/dv-core/src/project.rs:3580-3595 | advances over the bare operand, or reports the unterminated reference |
| `ConditionParser.ReferenceConditionParser.ExpandOperand` | crates/dv-core/src/project.rs:3603-3633 | the loop over the references substitutes as specified, with the same error |
| `ConditionParser.ReferenceConditionParser.EnterNested` | crates/dv-core/src/project.rs:3635-3641 | raises the depth below the limit and fails at it |
| `ConditionParser.ReferenceConditionParser.ConsumeKeyword` | crates/dv-core/src/project.rs:3655-3667 | skips blanks and takes the word in any case, but only as a whole word; otherwise moves nothing |
| `ConditionParser.ReferenceConditionParser.ConsumeText` | crates/dv-core/src/project.rs:3669-3676 | takes the text or moves nothing |
| `ConditionParser.ReferenceConditionParser.ConsumeByte` | crates/dv-core/src/project.rs:3678-3685 | takes the character or moves nothing |
| `ConditionParser.ReferenceConditionParser.SkipWhitespace` | crates/dv-core/src/project.rs:3687-3691 | moves past exactly the leading blanks |
| `BreadthFirst.FromIsReachable` | crates/dv-core/src/runtime_graph.rs:245-267 | in every graph, cyclic ones included, the row of a node starts with the node, lists exactly the reachable nodes, once each, in order of non-decreasing shortest distance |
| `BreadthFirst.SearchMeasures` | crates/dv-core/src/runtime_graph.rs:252-264 | the queue carries walk lengths that are real, never fall, and cover every edge of an expanded node |
| `BreadthFirst.WalkEndsNear` | crates/dv-core/src/runtime_graph.rs:252-264 | no walk reaches a node in fewer steps than the queue gives it |
| `RuntimeGraph.Enqueue` | crates/dv-core/src/runtime_graph.rs:256-262 | pushes exactly the targets that are not yet queued, and marks them with the generation |
| `RuntimeGraph.Traverse` | crates/dv-core/src/runtime_graph.rs:246-264 | appends the row of its start node, although the marks of earlier starts are never cleared |
| `RuntimeGraph.CompileCompatibilityRanges` | crates/dv-core/src/runtime_graph.rs:239-273 | the ranges tile the index array and hold the row of every node; fails exactly if the indices exceed 32 bits |
| `RuntimeGraph.CollectFrom` | crates/dv-core/src/runtime_graph.rs:74-79 | one entry adds exactly its unknown imports, and fails exactly on an unnamed one |
| `RuntimeGraph.CollectMissing` | crates/dv-core/src/runtime_graph.rs:69-80 | lists each import without an entry once, and fails exactly on an unnamed identifier |
| `RuntimeGraph.AddLeaves` | crates/dv-core/src/runtime_graph.rs:81-83 | completes the document: same entries, a leaf for every missing import, still sorted |
| `RuntimeGraph.TextTable.constructor` | crates/dv-core/src/runtime_graph.rs:305-309 | a new table holds no text |
| `RuntimeGraph.TextTable.Push` | crates/dv-core/src/runtime_graph.rs:311-323 | appends the text and returns the span that reads it, or fails past 32 bits and changes nothing |
| `RuntimeGraph.WriteNames` | crates/dv-core/src/runtime_graph.rs:85-95 | every node's span reads the node's identifier, also after the table has grown |
| `RuntimeGraph.LinkOne` | crates/dv-core/src/runtime_graph.rs:101-106 | resolves each import by binary search to the node with that name |
| `RuntimeGraph.LinkImports` | crates/dv-core/src/runtime_graph.rs:97-109 | the import ranges lie one behind the other, cover the edges and hold the resolved imports of every node; fails exactly on a 32-bit overflow |
| `RuntimeGraph.Load` | crates/dv-core/src/runtime_graph.rs:58-120 | compiles the completed document into names, edges and compatibility rows; fails exactly on an unnamed identifier or a 32-bit overflow |
| `TextOrder.BinarySearch` | crates/dv-core/src/runtime_graph.rs:179-181 | on strictly increasing texts, finds the key, or the place that splits them around it |
| `TextOrder.BeforeExactly` | crates/dv-core/src/runtime_graph.rs:179-181 | the order of texts: the first difference decides, and a proper beginning comes first |
| `RuntimeCompatibility.FindNode` | crates/dv-core/src/runtime_graph.rs:179-181 | finds the node with the name, and fails only if there is none |
| `RuntimeCompatibility.AreCompatibleIsClosure` | crates/dv-core/src/runtime_graph.rs:166-177 | compatibility is the reflexive-transitive closure of the imports in the original document, by name, unknown names included |
| `RuntimeCompatibility.ReachesIsProvides` | crates/dv-core/src/runtime_graph.rs:85-109 | reachability of node indices is the closure of imports by name |
| `RuntimeCompatibility.CompatibleRidsAreNearestFirst` | crates/dv-core/src/runtime_graph.rs:153-163 | lists exactly the names that the requested one provides, once each, itself first, nearest first |
| `RuntimeCompatibility.RowListsProvided` | crates/dv-core/src/runtime_graph.rs:153-163 | the row of a node, read as names, is such a list |
| `RuntimeCompatibility.DirectImportsAreTheEntry` | crates/dv-core/src/runtime_graph.rs:143-147 | the direct imports of a known name are those of its entry, in order |
| `LinkedSources.CollectLinkedSources` | crates/dv-core/src/project.rs:3217-3293 | the traversal with an explicit stack refines the recursive depth-first walk that starts below the link's ancestors: the same sources in the same order, or the same error |
| `LinkedSources.RunStack` | crates/dv-core/src/project.rs:3242-3291 | the loop with `Visit` and `Leave` terminates on every finite link graph and equals the recursive walk from the same active ancestors |
| `LinkedSources.ScanDirectory` | crates/dv-core/src/project.rs:3253-3290 | one directory pushes its subdirectories and directory links and lists its sources, or fails with the first error, as specified |
| `LinkedSources.Opened` | crates/dv-core/src/project.rs:3250-3251 | opening a directory leaves the meaning of the stack unchanged and brings the end nearer |
| `LinkedSources.PushedChildren` | crates/dv-core/src/project.rs:3257-3265 | pushed children mean the recursive walks of the children, last one first |
| `LinkedSources.LastDot` | crates/dv-core/src/project.rs:3266-3266 | an extension begins at the last dot |
| `LinkedSourceTheory.DirectoryScans` | crates/dv-core/src/project.rs:3253-3290 | a directory, by its listed entries alone: it is left for exactly the subdirectories and the links to directories that are not excluded, and holds exactly the files and the links to files, not excluded, whose names end in the extension; it fails exactly with the first entry that cannot be judged |
| `LinkedSourceTheory.WalkSucceedsExactly` | crates/dv-core/src/project.rs:3242-3292 | the walk succeeds if and only if no way down through listed entries revisits an active ancestor and every entry of every directory on such a way can be judged |
| `LinkedSourceTheory.WalkFindsExactly` | crates/dv-core/src/project.rs:3242-3292 | on success the sources are exactly the source entries of the directories at the ends of ways down, each under its logical path |
| `LinkedSourceTheory.WalkFailsFor` | crates/dv-core/src/project.rs:3242-3292 | every failure has its way down: to a directory that is open already, or to one whose own entries stop the walk with that error |
| `LinkedSourceTheory.CycleIsReal` | crates/dv-core/src/project.rs:3247-3249 | a reported cycle is a way down through listed entries that ends, at the reported paths, at one of its own active ancestors |
| `LinkedSourceTheory.WalkFails` | crates/dv-core/src/project.rs:3242-3292 | every failure is explained by a trail to the place that fails with that error |
| `LinkedSourceTheory.WalkIsDistinct` | crates/dv-core/src/project.rs:3266-3288 | if names in a directory are distinct, no logical path is listed twice, and all lie under the root |
| `PathTable.CommandPathTable.constructor` | crates/dv-core/src/project.rs:1190-1196 | a new table is two empty maps |
| `PathTable.CommandPathTable.LexicalSearch` | crates/dv-core/src/project.rs:1198-1201 | succeeds exactly on inserted lexical paths, else gives the place to insert |
| `PathTable.CommandPathTable.PhysicalSearch` | crates/dv-core/src/project.rs:1203-1210 | succeeds exactly on inserted physical paths and then gives the project of that path, else the place to insert |
| `PathTable.CommandPathTable.Append` | crates/dv-core/src/project.rs:1235-1254 | the new span reads the path, every old span still reads its own, and past 32 bits nothing changes |
| `PathTable.CommandPathTable.InsertLexical` | crates/dv-core/src/project.rs:1212-1216 | adds one alias to the set and leaves the projects; both indices stay strictly sorted by what their spans read |
| `PathTable.CommandPathTable.InsertProject` | crates/dv-core/src/project.rs:1218-1233 | adds the alias and maps the physical path to the project, sharing the bytes if both are equal; a full arena changes neither map |
| `PathTable.CommandPathTable.InsertRanges` | crates/dv-core/src/project.rs:1230-1231 | inserting at the two searched places keeps both indices sorted, adds the alias and updates the project map |
| `PathTable.ProjectMapInsert` | crates/dv-core/src/project.rs:1218-1233 | inserting a row at its place in the sorted index is updating the map |
| `ProjectClosure.ClosureIsLeast` | crates/dv-core/src/project.rs:1672-1746 | after a successful expansion the known files are exactly those of the projects, closed under references, and included in every closed set that holds the roots |
| `ProjectClosure.ReachedFromRoots` | crates/dv-core/src/project.rs:1678-1743 | every project, through its first referrer, lies in every closed set that holds the roots |
| `ProjectClosure.IdentitiesAreDistinct` | crates/dv-core/src/project.rs:1691-1741 | no two projects have the same physical identity |
| `ProjectClosure.JudgeMeans` | crates/dv-core/src/project.rs:1683-1738 | what the decision about a reference says about its target: known, another name of a known file, or a new file with its evaluated project |
| `ProjectClosure.JudgeExactly` | crates/dv-core/src/project.rs:1684-1738 | in terms of the filesystem alone: a reference is known if and only if its resolved path is; an unknown path to a known file is an alias if and only if no link is used, and refused for a link if and only if one is; an unknown file is refused as outside if and only if its path lies in the referring directory and its physical path does not, and is taken in if and only if it stays inside and evaluates |
| `ProjectClosure.ProjectClosureBatch.StuckIsFull` | crates/dv-core/src/project.rs:1672-1746 | an expansion that stops although every reachable reference can be followed stops for want of room |
| `ProjectClosure.ProjectClosureBatch.constructor` | crates/dv-core/src/project.rs:1567-1576 | a new batch has no projects and no table |
| `ProjectClosure.ProjectClosureBatch.Decide` | crates/dv-core/src/project.rs:1684-1738 | takes the same decision as its specification, and the insertion places that go with it |
| `ProjectClosure.ProjectClosureBatch.AddAlias` | crates/dv-core/src/project.rs:1694-1701 | another name of a known file becomes an alias, unless the arena is full |
| `ProjectClosure.ProjectClosureBatch.AddProject` | crates/dv-core/src/project.rs:1739-1741 | a new file is indexed and its project appended together, or nothing is |
| `ProjectClosure.ProjectClosureBatch.FollowReferences` | crates/dv-core/src/project.rs:1679-1742 | on success every reference of the current project is indexed; new projects use up unseen files |
| `ProjectClosure.ProjectClosureBatch.FollowReference` | crates/dv-core/src/project.rs:1683-1742 | one reference changes table and projects exactly as decided, keeps all earlier rows, and on success its target is indexed |
| `ProjectClosure.ProjectClosureBatch.ExpandProjectClosure` | crates/dv-core/src/project.rs:1672-1746 | terminates on cyclic references over finitely many files; on success every reference of every project is indexed |
| `ProjectClosure.ProjectClosureBatch.InitializeTable` | crates/dv-core/src/project.rs:1637-1669 | the late table indexes the projects seeded without one; fails only if such a project has no physical identity or its names exceed 32 bits |
| `ProjectClosure.ProjectClosureBatch.Admit` | crates/dv-core/src/project.rs:1606-1629 | a root known by name or by file adds no project and moves nothing; a new one is appended and expanded; every failure is explained by the root's own names or by a reference that cannot be followed, and is one of room if there is no such reference |
| `ProjectClosure.ProjectClosureBatch.Push` | crates/dv-core/src/project.rs:1579-1630 | keeps the invariant and all earlier projects whatever happens and never mixes configurations; a success leaves the closure complete if and only if it was complete before or the root was not known; a root known by its path always succeeds and changes nothing; on a complete batch of the same configuration a root from which every reference can be followed fails only for want of room |
| `ProjectClosure.SecondPushStaysIncomplete` | crates/dv-core/src/project.rs:1606-1629 | a root whose reference cannot be resolved, pushed twice: the first push fails, the second succeeds, and the closure is incomplete |
| `Cancellation.NextKeeps` | crates/dv-core/src/cancellation.rs:57-145 | every step of every thread keeps the invariant; phase and request time never fall back |
| `Cancellation.PhaseNeverFalls` | crates/dv-core/src/cancellation.rs:57-91 | in every run the phase never decreases, the request time is written at most once, and cancelled implies a recorded request time |
| `Cancellation.ForcedMeansSecondRequest` | crates/dv-core/src/cancellation.rs:57-62 | a forced token implies a `request` that lost the compare-exchange to another thread |
| `Cancellation.ReturnedRequestCancelled` | crates/dv-core/src/cancellation.rs:57-62 | once any `request` has returned the token is cancelled, and forced if it was not the first |
| `Cancellation.RunningAfterRequest` | crates/dv-core/src/cancellation.rs:64-82 | after the request time is recorded the token still runs if and only if the winner has yet to raise the phase and no other `request` has raised it |
| `Cancellation.CancelCanReturnUncancelled` | crates/dv-core/src/cancellation.rs:64-82 | a run of two `cancel` calls in which the second returns while the token still runs |
| `Cancellation.WaiterReturnsInTime` | crates/dv-core/src/cancellation.rs:134-145 | a waiter returns only when its phase has come |
| `Cancellation.NoLostWakeUp` | crates/dv-core/src/cancellation.rs:134-145 | in every interleaving of any number of threads, a parked waiter whose phase has come implies a requester between raising the phase and `notify_waiters`, whose next step wakes it |
| `Cancellation.WaiterGetsDone` | crates/dv-core/src/cancellation.rs:134-145 | every step of a waiter whose phase has come brings it nearer to returning |
| `Cancellation.GraceNeverGrows` | crates/dv-core/src/cancellation.rs:104-124 | of two answers about the remaining grace, the one asked for later is not larger, and none exceeds two seconds |
| `Cancellation.GraceIsExact` | crates/dv-core/src/cancellation.rs:104-124 | every answer is exactly the grace of some moment between question and answer: nothing once forced, two seconds without a request, and else what the clock leaves of two seconds since the request |
| `RuntimeVersions.CompareIsOrder` | crates/dv-core/src/framework_reference.rs:649-658 | the order is total, antisymmetric up to build metadata and transitive, for identifiers of any mixture and number |
| `RuntimeVersions.WalkIdentifiers` | crates/dv-core/src/framework_reference.rs:673-703 | the loop over two iterators computes the specified order of prereleases |
| `RuntimeVersions.OrderIsSemVerExactly` | crates/dv-core/src/framework_reference.rs:649-703 | a version with valid identifiers is ordered as section 11 of Semantic Versioning 2.0.0 says against all versions of the standard if and only if none of its numeric identifiers has a leading zero |
| `RuntimeVersions.CompareIsSemVer` | crates/dv-core/src/framework_reference.rs:649-703 | for versions that the standard admits, the order is that of section 11 |
| `RuntimeVersions.CanonicalAgrees` | crates/dv-core/src/framework_reference.rs:687-694 | without leading zeros, comparing digits by length and then by character is comparing integers |
| `RuntimeVersions.NumericOrderExactly` | crates/dv-core/src/framework_reference.rs:687-694 | an identifier of digits is ordered as its number against all canonical ones if and only if it has no leading zero |
| `RuntimeVersions.LeadingZeroIsMisordered` | crates/dv-core/src/framework_reference.rs:687-694 | `1.0.0-010` is accepted and comes after `1.0.0-11`, against the standard |
| `RuntimeVersions.ParseUndoesPrint` | crates/dv-core/src/framework_reference.rs:604-628 | parsing a printed version recovers its fields |
| `RuntimeVersions.ParseReads` | crates/dv-core/src/framework_reference.rs:604-628 | every accepted text is the print of its fields with some build metadata |
| `RuntimeVersions.ParseIsExact` | crates/dv-core/src/framework_reference.rs:604-628 | a text parses to given fields if and only if it is a print of them |
| `RuntimeVersions.NumericPartIsDecimal` | crates/dv-core/src/framework_reference.rs:660-665 | a part is read as a number if and only if it is that number's decimal form and fits 32 bits |
| `RuntimeVersions.IdentifiersExactly` | crates/dv-core/src/framework_reference.rs:667-671 | identifiers are valid if and only if the text has only letters, digits, hyphens and points, and no point at either end or behind another one |
| `RollForward.SelectInstalledRuntime` | crates/dv-core/src/framework_reference.rs:731-753 | by the directories alone: the result is named by a directory and allowed by the policy, a release if one is requested and allowed, and preferred to every other such version; none is returned if and only if no directory names an allowed version |
| `RollForward.SelectedIsRuntime` | crates/dv-core/src/framework_reference.rs:731-820 | the same for every order of equal versions that the sort may give |
| `RollForward.InstalledAreDirectories` | crates/dv-core/src/framework_reference.rs:731-746 | the installed versions are exactly those that directories are named after; files and other names do not count |
| `RollForward.SortVersions` | crates/dv-core/src/framework_reference.rs:747-747 | sorts by precedence and keeps the multiset |
| `RollForward.PolicyPicksBest` | crates/dv-core/src/framework_reference.rs:776-820 | each policy returns the best of its candidates: the highest in the nearest band or in the whole range, and none only if there is none |
| `RollForward.BestIsUnique` | crates/dv-core/src/framework_reference.rs:776-820 | the same installed versions in any order give a result of the same precedence |
| `RollForward.WiderPolicyAgrees` | crates/dv-core/src/framework_reference.rs:776-820 | where LatestPatch selects, Minor selects the same; where Minor selects, Major does |
| `RollForward.SelectIsSafe` | crates/dv-core/src/framework_reference.rs:749-753 | the result is installed and at least the requested version; a stable request gets a prerelease only if no stable version satisfies the policy; none is returned only if nothing satisfies it |
| `RollForward.LatestIsMonotone` | crates/dv-core/src/framework_reference.rs:749-806 | LatestPatch, LatestMinor and LatestMajor give versions that never fall, the fallback to prereleases included |
| `RollForward.NestedSelectAgreesExactly` | crates/dv-core/src/framework_reference.rs:749-806 | with the fallback, where the narrower policy selects, the wider one agrees if and only if a prerelease is requested, or the narrower policy has a stable candidate, or the wider one has none |
| `RollForward.NestedSelectCanDiffer` | crates/dv-core/src/framework_reference.rs:749-806 | an installed list for which Minor differs from LatestPatch although both select |
| `CredentialProtocol.NoDeadlock` | crates/dv-core/src/credential_provider.rs:270-361 | in every reachable state of host and plugin over FIFO channels, somebody can move, or the host waits for a silent peer, which its timeout always ends |
| `CredentialProtocol.RunsEnd` | crates/dv-core/src/credential_provider.rs:270-361 | no run of the composed protocol is longer than a fixed bound |
| `CredentialProtocol.ConversationSucceeds` | tools/nuget-plugin-dv-fixture/src/main.rs:45-146 | in the modes that answer, an undisturbed conversation, with or without a log exchange, ends with the plugin's credential or cancellation if and only if the log is within 65,536 bytes and not both secrets are empty; otherwise with a protocol error |
| `CredentialProtocol.TalkToTheEnd` | crates/dv-core/src/credential_provider.rs:270-361 | left alone, every conversation with a fixture that answers comes to its end |
| `CredentialProtocol.UnsoundSetupsFail` | crates/dv-core/src/credential_provider.rs:322-332 | conversations that break down: with empty secrets, and with a log line of 65,537 bytes; the host is done while the child, killed, still has to exit |
| `CredentialProtocol.ChildHasGone` | crates/dv-core/src/credential_provider.rs:713-745 | when the host is done it has seen the child exit, by itself in the grace or by the kill behind it, if and only if the session was stopped or nothing went wrong; after a protocol error a kill was sent and not waited for; a fixture that hangs or ignores cancellations is always waited for |
| `CredentialProtocol.IgnoringNeedsKill` | crates/dv-core/src/credential_provider.rs:713-735 | a fixture that ignores cancellations leaves only by the kill |
| `CredentialProtocol.HangingCanLeave` | crates/dv-core/src/credential_provider.rs:713-735 | a fixture that hangs can, from every state in the grace, leave by answering the cancellation, without a kill |
| `CredentialProtocol.RunsEndWithExit` | crates/dv-core/src/credential_provider.rs:713-745 | a run that cannot go on has the host done and the child exited, in every mode |
| `CredentialProtocol.NextKeeps` | crates/dv-core/src/credential_provider.rs:270-361 | every step of either side keeps the invariant and uses up one of the steps left |
| `CredentialProtocol.PluginAdvances` | tools/nuget-plugin-dv-fixture/src/main.rs:45-146 | to each message of the conversation the plugin answers with exactly the messages that are due |
| `CredentialProtocol.AnswerEnds` | crates/dv-core/src/credential_provider.rs:322-360 | the answer to the credential request ends the session with the expected outcome |
| `CredentialSession.ProviderSession.constructor` | crates/dv-core/src/credential_provider.rs:470-523 | a new session has sent nothing and counts its requests from 1 |
| `CredentialSession.ProviderSession.Send` | crates/dv-core/src/credential_provider.rs:693-711 | a message goes behind those already sent |
| `CredentialSession.ProviderSession.AllocateRequestId` | crates/dv-core/src/credential_provider.rs:747-751 | ids count up from 1 and stay at the largest 32-bit number |
| `CredentialSession.ProviderSession.NextMessage` | crates/dv-core/src/credential_provider.rs:604-659 | returns the next message, or the error; on a timeout or a cancellation, and only then, it sends a cancellation of the pending request |
| `CredentialSession.ProviderSession.Handshake` | crates/dv-core/src/credential_provider.rs:525-568 | agrees with the reaction specification: both halves of the handshake in either order, everything else refused |
| `CredentialSession.ProviderSession.Request` | crates/dv-core/src/credential_provider.rs:570-602 | against any peer, returns only a response with its own id and method; logs and handshakes are answered on the way |
| `CredentialSession.ProviderSession.RequestCredential` | crates/dv-core/src/credential_provider.rs:310-361 | the last request ends the session as specified |
| `CredentialSession.ProviderSession.CloseSession` | crates/dv-core/src/credential_provider.rs:737-739 | sends a close request with the next id |
| `CredentialSession.ProviderSession.Run` | crates/dv-core/src/credential_provider.rs:270-361 | whatever the peer sends, the imperative session has the outcome, the sent messages and the consumed input of the reaction machine |
| `CredentialSession.PlayFinishes` | crates/dv-core/src/credential_provider.rs:525-602 | every play against every finite peer ends |
| `CredentialTheory.OutcomeExactly` | crates/dv-core/src/credential_provider.rs:270-361 | by the provider's messages alone: a session has an outcome if and only if its handshakes break off with it, or a talk of successful answers in order, with only noise between them (progress on the pending request, log requests within the limit, handshake requests), ends in an event of that outcome |
| `CredentialTheory.ToldIsPlayed` | crates/dv-core/src/credential_provider.rs:270-361 | such a session sends exactly one reply to each request of the provider in order, its own five requests with their numbers and methods, and its last words: a close behind a definite answer, a cancellation on silence or interruption, and else nothing |
| `CredentialTheory.NoisePlays` | crates/dv-core/src/credential_provider.rs:570-602 | any stretch of noise changes nothing of a pending request but that its log and handshake requests are answered |
| `CredentialTheory.ProgressChangesNothing` | crates/dv-core/src/credential_provider.rs:577-578 | progress on the pending request, put anywhere in front of the answer, changes neither outcome nor messages |
| `CredentialTheory.EndingReacts` | crates/dv-core/src/credential_provider.rs:578-601 | while a request is pending, each event that ends the session ends it with its own outcome: a cancellation of this request as the user's, foreign messages, faults and bad logs as protocol errors, silence as a timeout |
| `CredentialTheory.EveryEventCounts` | crates/dv-core/src/credential_provider.rs:575-601 | every event is noise, an answer that the next request follows, or an ending |
| `CredentialTheory.GreetedPlays` | crates/dv-core/src/credential_provider.rs:525-568 | both handshakes, in whichever order and however often greeted, lead to the first request, each greeting answered |
| `CredentialSession.Acquire` | crates/dv-core/src/credential_provider.rs:228-268 | a credential or an error comes from the first provider that has one, all before it having passed; otherwise the last provider that was cancelled decides |
| `CredentialSession.RunProvider` | crates/dv-core/src/credential_provider.rs:270-361 | one provider has the outcome of its session |
| `Invocation.InvocationBatch.CaptureArguments` | crates/dv-cli/src/invocation.rs:520-589 | if no option is refused, command, separator and written-out arguments are those of the simple filter, whether or not indices were materialised |
| `Invocation.InvocationBatch.constructor` | crates/dv-cli/src/invocation.rs:634-647 | a batch is made of a scan's results, whose indices lie within the arguments |
| `Invocation.InvocationBatch.CommandArguments` | crates/dv-cli/src/invocation.rs:672-685 | the direct slice and the indexed view show the same thing: the kept arguments of the command |
| `Invocation.KeptIsBehind` | crates/dv-cli/src/invocation.rs:529-589 | the filter keeps strictly increasing places behind the command; if arguments are forwarded, the separator before them is a `--`, and all kept places lie before it and hold no `--` |
| `Invocation.InvocationBatch.ForwardedArguments` | crates/dv-cli/src/invocation.rs:687-691 | what is forwarded is everything behind the separator |
| `Invocation.Len` | crates/dv-cli/src/invocation.rs:750-756 | the length of a view is that of what it shows |
| `Invocation.Get` | crates/dv-cli/src/invocation.rs:762-768 | indexing a view is indexing what it shows, and nothing outside |
| `Invocation.SliceFrom` | crates/dv-cli/src/invocation.rs:774-779 | slicing a view drops as many arguments as asked, or all |
| `Invocation.ParseGlobalOption` | crates/dv-cli/src/invocation.rs:809-855 | a taken option has at least one argument, stays within the arguments, and does not reopen closed options |
| `InvocationTheory.FlagIsTaken` | crates/dv-cli/src/invocation.rs:809-855 | every global option is taken in each of its spellings, with what it says and as wide as it is written: two arguments for a mode or a level of its own, one if joined by an equals sign |
| `InvocationTheory.TakenIsFlag` | crates/dv-cli/src/invocation.rs:809-855 | and whatever is taken is an option in one of its spellings |
| `InvocationTheory.OthersAreLeft` | crates/dv-cli/src/invocation.rs:809-855 | an argument is left alone if and only if it does not begin like an option; a second mode resets the first |
| `InvocationTheory.BehindIsRead` | crates/dv-cli/src/invocation.rs:529-589 | behind the command, a line of options and arguments in any mixture, with or without a separator, keeps exactly its arguments and everything from the separator on that is not forwarded |
| `InvocationTheory.BehindIsPieces` | crates/dv-cli/src/invocation.rs:529-589 | and every line that is not refused is such a line |
| `InvocationTheory.CommandIsRead` | crates/dv-cli/src/invocation.rs:520-589 | a whole line: options, separators that close them, the command, and what follows it, are read as they were written |
| `Invocation.SemanticIndices.constructor` | crates/dv-cli/src/invocation.rs:404-409 | a new list is empty |
| `Invocation.SemanticIndices.Push` | crates/dv-cli/src/invocation.rs:411-427 | appends the index, across the spill from the inline array to the heap |
| `Invocation.SemanticIndices.PushRange` | crates/dv-cli/src/invocation.rs:560-563 | appends a whole range of indices |
| `Invocation.SemanticIndices.Get` | crates/dv-cli/src/invocation.rs:436-441 | reads the list, and nothing outside |
| `Invocation.SemanticIndices.Len` | crates/dv-cli/src/invocation.rs:429-434 | the length of the list |
| `AncestorInputs.DiscoverAncestorInputs` | crates/dv-core/src/workspace.rs:348-479 | for every request the merged walk gives each kind what a walk for this kind alone gives (the nearest occurrence, or all NuGet files root-first), the ranges tile the rows, and the probe count is the sum of the single counts; it fails only on a limit or where a single walk fails |
| `AncestorInputs.ProbeSingletons` | crates/dv-core/src/workspace.rs:386-403 | one level advances the walk of each singleton kind that is still open by exactly its own step |
| `AncestorInputs.ProbeNuget` | crates/dv-core/src/workspace.rs:405-417 | one level adds the NuGet file of that directory, if any, and its probes |
| `AncestorInputs.Assemble` | crates/dv-core/src/workspace.rs:442-478 | reverses the NuGet rows, appends the singletons, and gives each kind the range that reads its own |
| `AncestorInputs.AppendSelected` | crates/dv-core/src/workspace.rs:449-461 | appends the found singletons in order, and stops only at the row limit |
| `AncestorInputs.RangesTile` | crates/dv-core/src/workspace.rs:442-461 | the ranges are disjoint, in order, and cover all rows |
| `AncestorInputs.OneProbe` | crates/dv-core/src/workspace.rs:481-504 | a directory costs one probe for a singleton kind and at most three for NuGet |
| `AncestorInputs.NugetExactly` | crates/dv-core/src/workspace.rs:481-504 | in one directory, the first of the three spellings that is there decides, the ones behind it are not asked for, and each one in front costs a probe; the file is listed under the name that the directory gives it |
| `AncestorInputs.NearestExactly` | crates/dv-core/src/workspace.rs:386-403 | the walk for a singleton kind, by the files alone: the nearest directory that has the file decides, and none is found if and only if no directory has it |
| `AncestorInputs.EveryExactly` | crates/dv-core/src/workspace.rs:405-417 | the walk for NuGet files lists exactly the file of every directory that has one, nearest first, and fails with the nearest directory that does |
| `AncestorInputs.InputRows.constructor` | crates/dv-core/src/workspace.rs:159-165 | a new list is empty |
| `AncestorInputs.InputRows.Push` | crates/dv-core/src/workspace.rs:171-191 | appends the row, across the spill, or fails at 65,535 rows and changes nothing |
| `AncestorInputs.InputRows.Reverse` | crates/dv-core/src/workspace.rs:193-199 | reverses the list, inline or spilled |
| `AncestorInputs.ReversePrefix` | crates/dv-core/src/workspace.rs:193-199 | reverses the first rows in place |
| `Tokenizer.TokenizeLine` | crates/dv-cli/src/compatibility_check.rs:860-939 | the in-place scan fills the output with exactly the specified tokens, or fails with the same error |
| `Tokenizer.ScanToken` | crates/dv-cli/src/compatibility_check.rs:874-936 | one token, an operator (doubled or not), a quoted text or a bare word, ends where it should, with its flags |
| `Tokenizer.ScanQuoted` | crates/dv-cli/src/compatibility_check.rs:894-920 | a quoted token ends at its closing quote, skipping escapes, is complex exactly as specified, or is unterminated |
| `Tokenizer.ScanWord` | crates/dv-cli/src/compatibility_check.rs:921-930 | a bare word ends at the next blank or operator, and is complex exactly if it holds a quote |
| `Tokenizer.TokensAreInOrder` | crates/dv-cli/src/compatibility_check.rs:860-939 | tokens are in bounds, disjoint and in order, and never more than the output holds |
| `Tokenizer.RetokenizingIsStable` | crates/dv-cli/src/compatibility_check.rs:860-939 | for a line without quotes, tokenizing the token texts joined by blanks gives the same texts and flags |
| `Tokenizer.JoinedIsTokenized` | crates/dv-cli/src/compatibility_check.rs:860-939 | plain texts joined by blanks are tokenized into just these texts |
| `Tokenizer.QuotedIsTaken` | crates/dv-cli/src/compatibility_check.rs:890-920 | a closed quoted text of plain characters and characters behind backslashes is one token of what stands between the quotes, complex if and only if it has an escape or a blank or something sticks to it, which is passed over |
| `Tokenizer.OpenIsOpen` | crates/dv-cli/src/compatibility_check.rs:890-908 | a quoted text that ends with the line, be it with a lone backslash, is unterminated |
| `Tokenizer.QuoteHasParts` | crates/dv-cli/src/compatibility_check.rs:890-908 | every quote in a line begins a text of one of these two kinds |
| `Tokenizer.OperatorIsTaken` | crates/dv-cli/src/compatibility_check.rs:874-889 | each of the ten operators is one token, doubled where it can be; separators and pipes are boundaries, redirections and single bars and ampersands observations |
| `CentralVersions.SelectCentralVersions` | crates/dv-core/src/project.rs:2617-2673 | fails exactly on the first bad declaration or on ids equal but for case; otherwise the same versions, strictly increasing by id |
| `CentralVersions.SelectedAreDeclared` | crates/dv-core/src/project.rs:2617-2673 | by the declarations alone: the table is refused if and only if the conditions of a declaration cannot be judged, or one that applies has no literal version for a literal id, or a package is declared twice; otherwise it lists what the applying declarations declare and nothing else |
| `CentralVersions.ApplyingExactly` | crates/dv-core/src/project.rs:2617-2662 | the applying versions are those of the declarations whose conditions hold, in order, and the error is that of the first faulty one |
| `CentralVersions.SortById` | crates/dv-core/src/project.rs:2663-2663 | sorts by the caseless id and keeps the multiset |
| `CentralVersions.AdjacentDuplicate` | crates/dv-core/src/project.rs:2664-2672 | looking at neighbours finds a duplicate if and only if there is one anywhere |
| `CentralVersions.LookupIsDeclaration` | crates/dv-core/src/project.rs:2703-2706 | binary search gives a version if and only if it is declared for that id, ignoring ASCII case |
| `CentralVersions.ResolvedIsDeclared` | crates/dv-core/src/project.rs:2683-2714 | the version of every reference: its override, where overrides are possible; its own version without central management; otherwise the declared one, if it has none of its own; refused exactly in the other cases |
| `CentralVersions.OrderDoesNotMatter` | crates/dv-core/src/project.rs:2617-2673 | for any permutation of the declarations, with their conditions and problems, the selection fails on both or gives the same table |
| `CentralVersions.ApplyingPermuted` | crates/dv-core/src/project.rs:2617-2662 | permuted declarations have a problem together or not at all, and the same versions apply |
| `CentralVersions.SortedTablesAgree` | crates/dv-core/src/project.rs:2663-2672 | the same versions have only one strictly increasing order |
| `CentralVersions.DuplicatesAreShared` | crates/dv-core/src/project.rs:2664-2672 | and a duplicate is found in one order if it is in another |
| `CentralVersions.LoweredIsCaseless` | crates/dv-core/src/project.rs:9-14 | comparing lowered ids is equality ignoring ASCII case |
| `Ascii.CaselessExactly` | crates/dv-core/src/project.rs:9-14 | texts are equal but for case if and only if each place has the same character or the same letter, small and capital ones being 32 apart |

## Left out

- SignedArchive.FindFooter: requires 22 bytes, or fewer that do not begin with the footer's magic number; the scan slices without a guard on other short files.
- SignatureInsertion.RemovalUndoesInsertionExactly: is about archives whose local records tile from offset 0; archives with a prefix are covered by `EmittedArchive.EmittedIsArchive` and `EmittedArchive.OffsetsAreAbsolute`.
- SignedArchive.Read: the file is one sequence of bytes that does not change between reading and hashing, so read errors are only those of reading past its end.
- UnsignedHash.UnsignedHash: a digest is the sequence of bytes it absorbed; the hash algorithms, `read_signature`, CMS, X.509 and RSA are not modelled.
- IndexOrder.SortByKey: sorts by insertion; the library sort is only assumed to sort, and records with equal offsets may come in any order.
- ConditionParser.ReferenceConditionParser.Evaluate: positions are indices of ASCII characters, and error messages are named, not spelled out.
- RuntimeGraph.Load: starts from the decoded document, a map sorted by identifier; reading the file and decoding JSON are left out, as are capacity hints.
- LinkedSources.CollectLinkedSources: directories are listed by their physical path where the code lists the logical one; both name the same directory while nothing changes during the walk. Exclusion patterns, link resolution and directory listings are parameters; the plain walk of `collect_sources` around it, the final sort and `portable_path` are left out.
- PathTable.CommandPathTable.Append: paths are texts of one byte per character; the platform's address space is not modelled beyond the 32-bit limit.
- ProjectClosure.ProjectClosureBatch.Push: the filesystem and the project evaluator are functions that answer alike during one command; only finitely many files exist, and an evaluated project has the path and configuration asked for. Exceeding 32-bit project counts and a full path arena are one error.
- Cancellation.NoLostWakeUp: atomic accesses are sequentially consistent, and `notify_waiters` wakes every `Notified` created before it; weaker memory orders and the scheduler's fairness are not modelled.
- Cancellation.GraceNeverGrows: time is a count of microseconds that never falls; overflow of `Instant` is not modelled.
- RollForward.SortVersions: fixes the order only up to build metadata, as the unstable library sort does.
- RollForward.SelectInstalledRuntime: directory entries are given; errors of listing them and their diagnostics are left out.
- CredentialSession.ProviderSession.Run: the child process itself (`CredentialProtocol` has its exit, grace and kill), starting it, payload fields that the session does not look at, the message-size limit and redaction are left out; a peer is any finite stream of messages, silences, failures and cancellations. Pipes accept every write.
- CredentialProtocol.NoDeadlock: the pipes are unbounded queues that accept every write, also after the reader has gone; a grace may run out at any time, and a kill takes effect at some later step.
- Invocation.InvocationBatch.CaptureArguments: the checks of environment settings behind the loop, the command kind and values of the options are left out; which commands forward arguments, and which values and directives are well formed, are parameters. Arguments are texts.
- AncestorInputs.DiscoverAncestorInputs: the counter of directory enumerations, the validation of the start directory, `write_path` and `into_nearest_path` are left out; a directory says which spellings it holds, with their sizes, or fails.
- Tokenizer.TokenizeLine: lines shorter than 4 GiB, so positions are not truncated to 32 bits; `scan_line`, which judges the tokens, is left out.
- CentralVersions.SelectCentralVersions: conditions are given with their outcome and the test for literal versions is a parameter; the fingerprint is left out.
- XML and MSBuild event parsing, package resolution, SDK discovery, runtime packs, command dispatch, help and diagnostics: driven by libraries or data that these files do not show.
- Small lookups and folds (`environment.rs`, `child_process.rs`, `legacy_pruning.rs`, `pack_requirement.rs`, `framework.rs`, `path.rs`, `compiler.rs`): they would only add easy members.
