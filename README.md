# Universal Blueprints Online Server — a Dafny model of its index pipeline

The repository publishes blueprint definitions. Each definition is an XML file under `blueprints/`, with
preview images under `images/`. A Supabase table lists which blueprint ids are active. Two batch scripts
keep the files and the table in step, and a small web client consumes the result:

- `scripts/cleanup_orphaned_files.py` reads the `BuildingID` embedded in every XML definition. It splits the
  definitions into groups whose id the database lists as active (valid) and groups it does not list
  (orphaned). An orphaned group is its XML plus the images named after it. The script moves these groups
  into `.cleanup/` or deletes them. It can also do a dry run that changes nothing.
- `scripts/generate_index.py` writes the index the client reads. It normally projects the database
  records onto the files that exist (`database` mode). When anything goes wrong, it rescans the XML files
  instead (`filesystem_fallback` mode). Entries combine record fields with metadata read from each XML.
- `web/utils/blueprintUtils.ts` derives image paths, a vote-gated rating and a score for every entry, and
  sorts entries.
- `web/App.tsx` derives the category list, filters by a search term and a category, sorts the result,
  and chooses the interface language.

The files:

- `cleanup.dfy` (module `Cleanup`).
  - The filesystem is a `FileSystem` class whose `files` field maps every existing path to its size.
    Its `failing` set holds the paths the operating system refuses to rename or remove.
  - The script's loops are methods with loop invariants. Each is proved equal to a function on values:
    `Partition`, `RelatedGroup`, `ApplyMoves`, `ApplyRemovals` or `CleanupRun`.
  - The lemmas state what those functions guarantee.
- `generate_index.dfy` (module `IndexGenerator`). It follows the same pattern. The loops of
  `parse_full_xml_metadata`, `scan_filesystem_fallback` and `main` are methods, and each is proved equal to
  `XmlMetadata`, `FallbackScan`, `DatabaseEntries` or `Index`.
- `blueprint_utils.dfy` (module `BlueprintUtils`) and `app_view.dfy` (module `AppView`). These are pure
  functions and lemmas.
- Helper modules:
  - `Wrappers`: `Option`.
  - `Seqs`: filtering and duplicate-freedom.
  - `Strings`: prefix and suffix, stripping, ASCII lower-casing, splitting, integer parsing and printing,
    and JavaScript's string order.
  - `Paths`: `os.path` basename, dirname, splitext and join.
  - `Json`: record values and the HTTP response.
  - `Xml`: the parsed element tree.

Inputs the scripts read from outside are parameters:

- the `glob` listings, which are sequences in the order the platform returns them;
- the parsed XML documents, a map from path to element tree (a missing key is a file that does not parse);
- the HTTP responses;
- `sys.stdin.isatty()`;
- the `input()` answers;
- the environment variables;
- the timestamp.

## Model

| member | source | states |
|---|---|---|
| Cleanup.FileSystem.Rename | scripts/cleanup_orphaned_files.py:194 | `os.rename` succeeds exactly when the source exists and the system allows it. On success the file is at the destination with its size, the source is gone, and nothing else changes. On failure nothing changes. |
| Cleanup.FileSystem.Remove | scripts/cleanup_orphaned_files.py:235 | `os.remove` succeeds exactly when the file exists and the system allows it. Then only that path disappears; otherwise nothing changes. |
| Cleanup.Renamed | scripts/cleanup_orphaned_files.py:194 | After a POSIX rename the destination holds the source's size, the source is gone (unless it is the destination), and every other path keeps its presence and size. |
| Cleanup.ActiveIds | scripts/cleanup_orphaned_files.py:40-43 | A record without `is_active` counts as active. The ids are exactly those of the active records. The result is undefined (KeyError) exactly when some active record has no `id`. |
| Cleanup.ValidBlueprintIds | scripts/cleanup_orphaned_files.py:32-52 | There are valid ids only for a 200 response with a body that iterates as records. Such a response yields the active-id set. |
| Cleanup.ScanLocalFiles | scripts/cleanup_orphaned_files.py:54-63 | A globbed XML path is kept if and only if it does not contain `.cleanup` anywhere. |
| Cleanup.ScanImageFiles | scripts/cleanup_orphaned_files.py:65-79 | A `.png` or `.jpg` path is kept if and only if it does not contain `.cleanup`. |
| Cleanup.ExtractBlueprintId | scripts/cleanup_orphaned_files.py:81-96 | The result is `None` exactly when the file does not parse, `extraInfo/BuildingID` is missing, or its text is absent or empty. Otherwise it is the stripped text: trimmed, and contained in the raw text. It never fails. |
| Cleanup.FirstSeenIds | scripts/cleanup_orphaned_files.py:105-117 | The processed ids contain no duplicates. An id is processed if and only if it is non-empty and some scanned file carries it. |
| Cleanup.FirstIndexFrom | scripts/cleanup_orphaned_files.py:143-144 | The index returned is the first one at or after `start` whose file carries the id. `None` means no such file exists. |
| Cleanup.FirstWithId | scripts/cleanup_orphaned_files.py:141-148 | The XML of a group is a scanned file carrying the id. It is missing only when no scanned file carries the id. |
| Cleanup.ImagePathShape | scripts/cleanup_orphaned_files.py:151-166 | An image path is `images/` plus the XML basename without its extension plus the suffix. |
| Cleanup.IfExists | scripts/cleanup_orphaned_files.py:156-167 | A path is recorded if and only if that file exists. |
| Cleanup.RelatedGroup | scripts/cleanup_orphaned_files.py:130-171 | The group carries the id and the first matching XML. It has no images unless an XML was found. Each image is `images/<stem>.png`, `images/<stem>_minimap.png` or `images/<stem>_minimap.jpg`, recorded only when it exists. `total_size` is the sum of the sizes of the files found. |
| Cleanup.LookupImage | scripts/cleanup_orphaned_files.py:153-169 | One lookup returns the image path exactly when it exists, together with its size (0 otherwise). |
| Cleanup.FindDefinition | scripts/cleanup_orphaned_files.py:141-148 | The loop stops at the first scanned file carrying the id. It returns `FirstWithId` and that file's size (0 when there is none). |
| Cleanup.FindRelatedFiles | scripts/cleanup_orphaned_files.py:130-171 | Over the scanned files and the id reader of `identify_orphaned_files`, the search loop and the `+=` size updates compute exactly `RelatedGroup`. |
| Cleanup.GroupsFor | scripts/cleanup_orphaned_files.py:118-126 | The k-th group is the related group of the k-th id. |
| Cleanup.IdsOf | scripts/cleanup_orphaned_files.py:118-126 | The ids of the groups, in order. |
| Cleanup.GroupsForFound | scripts/cleanup_orphaned_files.py:121-126 | For ids that occur in the files, each group has an XML that is a scanned file carrying the group's id. The ids can be read back in order. |
| Cleanup.PartitionProperties | scripts/cleanup_orphaned_files.py:98-128 | Valid groups have an id in `valid_ids`, and orphaned groups do not. Every group has an XML carrying its id. No id occurs twice across the two lists. The ids are exactly the non-empty ids found in the files. |
| Cleanup.FirstSeenStep | scripts/cleanup_orphaned_files.py:107-117 | One more file appends its id exactly when the id is non-empty and new. |
| Cleanup.SelectStep | scripts/cleanup_orphaned_files.py:119-126 | A new id appends its group to the valid list when the id is valid, and to the orphaned list otherwise. |
| Cleanup.FilterGroupsStep | scripts/cleanup_orphaned_files.py:119-126 | For any selection, appending an id appends its related group exactly when the id is selected. |
| Cleanup.GroupsForAppend | scripts/cleanup_orphaned_files.py:118-126 | The groups of two id lists concatenate. |
| Cleanup.IdentifyOrphanedFiles | scripts/cleanup_orphaned_files.py:98-128 | Over the scanned files and the `BuildingID` reader, the script returns exactly the (valid, orphaned) `Partition`. |
| Cleanup.PartitionLoop | scripts/cleanup_orphaned_files.py:98-128 | The loop over the files, with its `processed_ids` set, returns exactly the (valid, orphaned) `Partition`. |
| Cleanup.MoveBlueprintGroup | scripts/cleanup_orphaned_files.py:173-217 | The method's new filesystem and its list of moved files are those of `ApplyMoves` over the group's four candidates. |
| Cleanup.RunMoves | scripts/cleanup_orphaned_files.py:186-216 | The loop over planned moves, with its existence checks, dry-run listing and caught rename failures, leaves the filesystem and the moved list of `ApplyMoves`. |
| Cleanup.Sources | scripts/cleanup_orphaned_files.py:186-208 | The sources of the planned moves, in order. |
| Cleanup.Dests | scripts/cleanup_orphaned_files.py:190-211 | The destinations of the planned moves, in order. |
| Cleanup.DryRunMovesNothing | scripts/cleanup_orphaned_files.py:186-209 | A dry run leaves the filesystem unchanged. It lists the source of every candidate that exists, in order. |
| Cleanup.MovesOnlyTouchCandidates | scripts/cleanup_orphaned_files.py:173-217 | A run of moves changes no path other than the sources and destinations. It lists only those paths. |
| Cleanup.MoveLanding | scripts/cleanup_orphaned_files.py:190-216 | In a real run of distinct moves, each existing movable file ends at `.cleanup/…/<basename>` with its size. A file whose move fails stays where it was, and the later moves still happen. The result lists exactly the destinations reached. |
| Cleanup.MoveLandingAt | scripts/cleanup_orphaned_files.py:190-216 | The per-move half of `MoveLanding`: for each distinct move, a movable source lands at its destination with its size and is gone, and a failing source stays where it was. |
| Cleanup.RelatedMovesDistinct | scripts/cleanup_orphaned_files.py:150-204 | For a group `find_related_files` builds from definition files that end in `l` outside `.cleanup`, the planned moves share no source, no destination, and no destination is a source. |
| Cleanup.PartitionGroupLanding | scripts/cleanup_orphaned_files.py:173-217 | For every group of the partition of the scanned `.xml` files, a real `move_blueprint_group` moves each existing, renamable file to `.cleanup/…/<basename>` with its size, keeps a file whose rename fails, still moves the files after it, and lists exactly the destinations reached. |
| Cleanup.FourMovesDistinct | scripts/cleanup_orphaned_files.py:186-204 | A definition move followed by up to three image moves with different suffixes is distinct when the endings and the first characters of sources and destinations differ. |
| Cleanup.ImageMoveShape | scripts/cleanup_orphaned_files.py:201-204 | Each image of a group moves from `images/<stem><suffix>` to `.cleanup/images/<stem><suffix>`, and there is at most one such move. |
| Cleanup.DefinitionMoveShape | scripts/cleanup_orphaned_files.py:186-187 | The quarantine destination of a definition that ends in `l` outside `.cleanup` also ends in `l` and differs from it. |
| Cleanup.QuarantineOfPlain | scripts/cleanup_orphaned_files.py:201-204 | Quarantining `pre + name`, with `pre` ending in `/` and `name` without `/`, moves it to `dir/name`. |
| Cleanup.QuarantineEnds | scripts/cleanup_orphaned_files.py:186-187 | A quarantine destination ends with the same character as its source, for any ending other than `/`. |
| Cleanup.ImageMovesEndInG | scripts/cleanup_orphaned_files.py:201-204 | Both ends of an image move end in `g`. |
| Cleanup.ImageMovesApart | scripts/cleanup_orphaned_files.py:201-204 | Image moves for different suffixes share no path, and one image move alone is distinct. |
| Cleanup.ImagesDistinct | scripts/cleanup_orphaned_files.py:201-204 | The up to three image moves of one group (`.png`, `_minimap.png`, `_minimap.jpg`) are pairwise distinct and keep every source and destination ending in `g`. |
| Cleanup.EndingsApart | scripts/cleanup_orphaned_files.py:186-204 | Moves whose paths end in different characters share no path. |
| Cleanup.DistinctAppend | scripts/cleanup_orphaned_files.py:186-215 | Two distinct move lists that share no path concatenate to a distinct list. |
| Cleanup.MovesListed | scripts/cleanup_orphaned_files.py:190-216 | A real run of distinct moves lists exactly the destinations of the moves whose source exists and can be renamed, in order. |
| Cleanup.LastMoveFresh | scripts/cleanup_orphaned_files.py:186-211 | In distinct moves, the last move shares no path with the earlier ones, and the earlier moves stay distinct. |
| Cleanup.UntouchedPath | scripts/cleanup_orphaned_files.py:186-216 | A path that no move names is present after the run exactly when it was before. |
| Cleanup.ApplyMovesAppend | scripts/cleanup_orphaned_files.py:320-326 | Moving group after group equals one run over all the moves. |
| Cleanup.ApplyRemovalsAppend | scripts/cleanup_orphaned_files.py:336-340 | Deleting group after group equals one run over all the candidates. |
| Cleanup.DeleteFile | scripts/cleanup_orphaned_files.py:219-244 | The method's new filesystem and its list of deleted files are those of `ApplyRemovals` over the four candidates. |
| Cleanup.RunRemovals | scripts/cleanup_orphaned_files.py:231-242 | The loop over candidates, with its existence checks, dry-run listing and caught removal failures, leaves the filesystem and the deleted list of `ApplyRemovals`. |
| Cleanup.RemovalsOnlyTouchCandidates | scripts/cleanup_orphaned_files.py:219-244 | The result lists only candidates. Only candidates are removed, and no size changes. |
| Cleanup.DryRunDeletesNothing | scripts/cleanup_orphaned_files.py:231-234 | A dry run removes nothing. It lists the candidates that exist, in order. |
| Cleanup.RealRemovals | scripts/cleanup_orphaned_files.py:231-242 | A real run removes exactly the candidates the system lets it remove. It lists each removed file once. |
| Cleanup.DeleteCandidatesAreSiblings | scripts/cleanup_orphaned_files.py:221-229 | The candidates are the XML itself plus three files in the XML's own directory. Their names are the XML's stem plus `.png`, `_minimap.png` and `_minimap.jpg`. |
| Cleanup.BlueprintsNotImages | scripts/cleanup_orphaned_files.py:176 | A path under `blueprints/` is not under `images/`. |
| Cleanup.DeleteStaysBesideDefinition | scripts/cleanup_orphaned_files.py:221-229 | For an XML under `blueprints/`, every deletion candidate is under `blueprints/` and none is under `images/`. |
| Cleanup.MoveGroups | scripts/cleanup_orphaned_files.py:316-326 | The move branch equals one `ApplyMoves` run, with `dry_run=False`, over every orphaned group's candidates. |
| Cleanup.DeleteGroups | scripts/cleanup_orphaned_files.py:332-340 | The delete branch equals one `ApplyRemovals` run over the candidates of the groups that have an XML. |
| Cleanup.Classify | scripts/cleanup_orphaned_files.py:252-260 | There is a partition if and only if the valid ids could be fetched. |
| Cleanup.CleanupRun | scripts/cleanup_orphaned_files.py:246-354 | A failed fetch returns False and touches nothing. Nothing changes unless `auto_delete` is set or the user confirms a real run. A dry run without `auto_delete` never changes files or regenerates the index. Regeneration happens only after a real cleanup. A report has at least one orphan, and it counts valid plus orphaned. |
| Cleanup.BackupIsMove | scripts/cleanup_orphaned_files.py:308-323 | Any strategy answer that lower-cases to `backup` has exactly the effect and result of answering `move`. |
| Cleanup.DeletionsOnlyWithXml | scripts/cleanup_orphaned_files.py:332-340 | The delete branch deletes exactly what it deletes for the groups that have an XML: the others add nothing. |
| Cleanup.CleanupOrphanedFiles | scripts/cleanup_orphaned_files.py:246-354 | The method equals `CleanupRun` applied to `Classify` of the scanned files. |
| Cleanup.DecideCleanup | scripts/cleanup_orphaned_files.py:288-299 | The cleanup runs exactly under `auto_delete`, or in an interactive real run whose answer lower-cases to `y`. |
| Cleanup.DecideStrategy | scripts/cleanup_orphaned_files.py:301-313 | The strategy is `move` under `auto_delete` and outside an interactive real run; otherwise it is the answer when that is `move`, `delete` or `backup`, and `move` when it is anything else. |
| Cleanup.ProcessGroups | scripts/cleanup_orphaned_files.py:273-354 | The confirmation and strategy logic and the chosen branch equal `CleanupRun`. `backup` runs the move branch. |
| Cleanup.EndsWithAppend | scripts/cleanup_orphaned_files.py:225-228 | A path built by appending a suffix ends with that suffix's last character. |
| Cleanup.ImagePathEnd | scripts/cleanup_orphaned_files.py:151-166 | Image paths end with their suffix's last character (`g`). |
| Cleanup.QuarantineMarked | scripts/cleanup_orphaned_files.py:175-176 | Every quarantine destination contains `.cleanup`. |
| Cleanup.RelatedImagesEndInG | scripts/cleanup_orphaned_files.py:151-169 | The images of a group are `.png` or `.jpg` paths. |
| Cleanup.MovesAvoidAppend | scripts/cleanup_orphaned_files.py:320-326 | Two runs of moves that avoid a path still avoid it when joined. |
| Cleanup.ImageMovesAvoid | scripts/cleanup_orphaned_files.py:201-211 | An image move never involves an `.xml` definition outside `.cleanup`. |
| Cleanup.GroupMovesAvoid | scripts/cleanup_orphaned_files.py:186-211 | The moves of a group whose XML is another file never involve a given definition file. |
| Cleanup.AllMovesAvoid | scripts/cleanup_orphaned_files.py:320-326 | The moves of all orphaned groups never involve a definition that is none of their XMLs. |
| Cleanup.AllDeletionsAvoid | scripts/cleanup_orphaned_files.py:336-340 | The deletions of all orphaned groups never name a definition that is none of their XMLs. |
| Cleanup.DeletionsAvoid | scripts/cleanup_orphaned_files.py:221-229 | `delete_file` on one path never names another file ending in `l`: its siblings are images. |
| Cleanup.SiblingsAvoid | scripts/cleanup_orphaned_files.py:221-229 | A path ending in `l` is neither a different first candidate nor any of three siblings whose suffixes end in `g`. |
| Cleanup.PartitionGroupsAreRelated | scripts/cleanup_orphaned_files.py:118-126 | Every group in the partition is the related group of its own id. |
| Cleanup.EmptyBodyOrphansAll | scripts/cleanup_orphaned_files.py:38-45 | A 200 body that iterates as nothing (`[]`, `{}`, `""`) gives the empty valid set, not None, so no group is valid and every group found is orphaned. |
| Cleanup.DefinitionUntouched | scripts/cleanup_orphaned_files.py:302-346 | Whichever strategy runs, a definition file outside `.cleanup` that is no orphan's XML keeps its entry and its size. |
| Cleanup.ValidDefinitionsSurvive | scripts/cleanup_orphaned_files.py:98-346 | Cleaning up the orphaned groups, by moving or by deleting, never removes or alters the XML of a valid group. |
| Cleanup.MainFlags | scripts/cleanup_orphaned_files.py:397-444 | Missing credentials exit with 1. Without `--execute` or `--auto-delete` the run is a dry run. `--auto-delete` gives a real run with `auto_delete`. A real run without `auto_delete` needs an interactive "yes". An exit with 1 under credentials means EOF at the prompt. |
| IndexGenerator.ParseSize | scripts/generate_index.py:14-21 | A missing size, or one without a comma, yields (0, 0). |
| IndexGenerator.CleanSizeAppend | scripts/generate_index.py:17 | Removing the parentheses works piecewise over concatenation. |
| IndexGenerator.CleanSizePlain | scripts/generate_index.py:17 | Text without parentheses is unchanged. |
| IndexGenerator.CleanSizePlainAppend | scripts/generate_index.py:17 | A parenthesis-free prefix is kept when the parentheses are removed. |
| IndexGenerator.CleanSizeWrapped | scripts/generate_index.py:17 | Wrapping a text in parentheses does not change its cleaned form. |
| IndexGenerator.CleanSizePlainTriple | scripts/generate_index.py:17 | Three parenthesis-free pieces pass through unchanged, whatever follows them. |
| IndexGenerator.CleanSizeOfPair | scripts/generate_index.py:17 | `"(w,h…)"` without its parentheses is `"w,h…"`. |
| IndexGenerator.SplitPair | scripts/generate_index.py:17-18 | Splitting `"a,b…"` on commas gives `a` and `b` as the first two parts. |
| IndexGenerator.SplitPairAt | scripts/generate_index.py:18 | For any separator absent from `a` and `b`, the first two parts of `a sep b …` are `a` and `b`. |
| IndexGenerator.SplitLeadingPart | scripts/generate_index.py:18 | A separator-free part followed by separator-led text is the first of at least two parts. |
| IndexGenerator.ParseSizeOfCleanPair | scripts/generate_index.py:14-19 | If the text without parentheses starts with two integers separated by a comma, they are the result. |
| IndexGenerator.ParseSizeRoundTrip | scripts/generate_index.py:14-19 | `"(" + w + "," + h + ")"` parses back to (w, h) for all integers w and h. |
| IndexGenerator.ParseSizeIgnoresExtraParts | scripts/generate_index.py:14-19 | Comma-separated parts after the second one are ignored. |
| IndexGenerator.ParseSizeRejectsNonInteger | scripts/generate_index.py:14-21 | A first part that is not an integer yields (0, 0). |
| IndexGenerator.ParseSizeRejectsNonIntegerHeight | scripts/generate_index.py:14-21 | A second part that is not an integer also yields (0, 0). |
| IndexGenerator.PackageId | scripts/generate_index.py:69-71 | A recorded `packageId` is never empty. |
| IndexGenerator.ModIds | scripts/generate_index.py:65-71 | `m` holds exactly the non-empty `packageId` texts of the `mod` children, and never more ids than children. |
| IndexGenerator.ModIdsAppend | scripts/generate_index.py:68-71 | The ids follow document order. |
| IndexGenerator.XmlMetadata | scripts/generate_index.py:23-88 | The result is `None` exactly when the file is missing, does not parse, or has no `extraInfo`. Stats are always 0 and the mod ids are non-empty. |
| IndexGenerator.MetadataDefaults | scripts/generate_index.py:49-62 | With no children and no size node, the defaults apply: name "Unnamed", author "Unknown", category "Custom", version "1.0", tags "", size (0, 0), and the id is the file stem. |
| IndexGenerator.MetadataFields | scripts/generate_index.py:49-62 | Child by child, a missing name, author, category, version or tags gets its default ("Unnamed", "Unknown", "Custom", "1.0", ""), a present one its text. No size node gives (0, 0); a size node is parsed. |
| IndexGenerator.MetadataIdFallback | scripts/generate_index.py:44-47 | An absent or empty `BuildingID` falls back to the basename without its extension. A present one is used as is. |
| IndexGenerator.ParseFullXmlMetadata | scripts/generate_index.py:23-88 | The method, including its loop appending to `mods`, equals `XmlMetadata`. |
| IndexGenerator.CollectModIds | scripts/generate_index.py:65-71 | The loop appending the non-empty `packageId` texts computes exactly `ModIds`. |
| IndexGenerator.FallbackEntry | scripts/generate_index.py:123-129 | `p` is the path with every `\` rewritten to `/` and other characters kept. There is no steam id. Stats, id, mods, size and timestamp come from the metadata. |
| IndexGenerator.FallbackEntries | scripts/generate_index.py:121-129 | At most one entry per file. No entry has a `\` or a steam id. |
| IndexGenerator.FallbackEntriesStep | scripts/generate_index.py:121-129 | One more file adds its entry exactly when its metadata can be read. |
| IndexGenerator.FallbackScan | scripts/generate_index.py:111-131 | At most one entry per globbed file, and no path has a `\`. |
| IndexGenerator.FallbackEntrySources | scripts/generate_index.py:121-129 | Every entry comes from one of the files and is that file's metadata entry. |
| IndexGenerator.FallbackSkipsQuarantine | scripts/generate_index.py:118-129 | Every fallback entry comes from a globbed path without `.cleanup`, with `\` rewritten to `/`, and has zero stats. |
| IndexGenerator.ScanFilesystemFallback | scripts/generate_index.py:111-131 | The method, including its append loop, equals `FallbackScan`. |
| IndexGenerator.FetchFromDatabase | scripts/generate_index.py:90-109 | Records are returned if and only if credentials are set and the response is a 200 with a body. |
| IndexGenerator.ProjectRecord | scripts/generate_index.py:145-173 | A record is skipped exactly when its path does not exist. Projection raises exactly when the path is not a string, or when the path exists and a required key is missing. |
| IndexGenerator.ProjectedEntry | scripts/generate_index.py:148-173 | An emitted entry takes its fields from the record. Missing stats default to 0. Mods come from the XML, or are `[]` when parsing fails. |
| IndexGenerator.RecordPathsSnoc | scripts/generate_index.py:144-173 | The record paths of an extended list extend by one. |
| IndexGenerator.EntryPathsSnoc | scripts/generate_index.py:173 | The entry paths of an extended list extend by one. |
| IndexGenerator.DatabaseEntries | scripts/generate_index.py:144-173 | The loop fails exactly when some record raises. Otherwise every entry's path exists. |
| IndexGenerator.DatabaseEntryOrder | scripts/generate_index.py:144-173 | There is one entry per record whose path exists, in record order: the i-th entry is the projection (`ProjectRecord`) of the i-th such record. |
| IndexGenerator.ProjectedSnoc | scripts/generate_index.py:144-173 | Appending one listed record and its entry keeps the i-th entry the projection of the i-th listed record. |
| IndexGenerator.DatabaseEntriesPrefix | scripts/generate_index.py:144-181 | A record that raises makes the whole loop fail, whatever follows it. |
| IndexGenerator.ModeName | scripts/generate_index.py:136-181 | The mode is "database" if and only if the database branch completed. |
| IndexGenerator.Index | scripts/generate_index.py:133-190 | The version is "1.2" and `count` equals the number of entries. The mode is "database" if and only if the fetch succeeds and the loop completes, and then the entries are the database entries. Otherwise the mode is "filesystem_fallback" and the list is replaced wholesale by the scan. |
| IndexGenerator.FetchFailureFallsBack | scripts/generate_index.py:92-107 | Missing credentials, no response or a non-200 status give `filesystem_fallback`. |
| IndexGenerator.RaisingRecordFallsBack | scripts/generate_index.py:144-181 | An error on any record replaces the list with the filesystem scan. |
| IndexGenerator.GenerateIndex | scripts/generate_index.py:133-190 | The method equals `Index`. |
| IndexGenerator.RecordLoop | scripts/generate_index.py:144-173 | The loop appending to `final_list`, which stops at the first error, equals `DatabaseEntries`. |
| IndexGenerator.RecordLoopPass | scripts/generate_index.py:145-173 | One pass of the loop equals `ProjectRecord`. |
| BlueprintUtils.DropPrefix | web/utils/blueprintUtils.ts:6 | A leading `blueprints/` is removed if present, and the text is otherwise unchanged. |
| BlueprintUtils.DropSuffix | web/utils/blueprintUtils.ts:6 | A trailing `.xml` is removed if present, and the text is otherwise unchanged. |
| BlueprintUtils.CleanPath | web/utils/blueprintUtils.ts:6 | At most one prefix and one suffix are removed: the length drops by at most their total. |
| BlueprintUtils.CleanPathOfDefinition | web/utils/blueprintUtils.ts:6 | `blueprints/x.xml` becomes `x`. |
| BlueprintUtils.CleanPathUnchanged | web/utils/blueprintUtils.ts:6 | A path without either affix is unchanged. |
| BlueprintUtils.Rating | web/utils/blueprintUtils.ts:12-16 | The rating is null if and only if there are at most 5 votes. With non-negative counts it lies in [0, 100]. |
| BlueprintUtils.Score | web/utils/blueprintUtils.ts:20 | With non-negative counts the score is at least the downloads and at least five times the likes. |
| BlueprintUtils.ParseBlueprintData | web/utils/blueprintUtils.ts:3-29 | Every raw field is carried over unchanged. The rating is null if and only if there are at most 5 votes, and otherwise, with non-negative counts, lies in [0, 100]. The image paths are `basePath + "images/"` plus the cleaned path plus `.png` or `_minimap.png`. The score is as above. |
| BlueprintUtils.PieceFacts | web/utils/blueprintUtils.ts:6-9 | Facts about the fixed affixes: no `/`, and one leading `.` in `.xml`. |
| BlueprintUtils.DefinitionStem | web/utils/blueprintUtils.ts:6 | For a flat definition `blueprints/x.xml`, the Python stem of the basename is `x`. |
| BlueprintUtils.ImageConventionsAgree | web/utils/blueprintUtils.ts:6-9 | For a flat definition, the client's image paths are the cleanup script's `images/<stem>.png` and `images/<stem>_minimap.png` under `basePath`. |
| BlueprintUtils.SortKey | web/utils/blueprintUtils.ts:33-45 | An unrecognised option sorts by score. For `rating`, a null counts as 0. |
| BlueprintUtils.OrderOf | web/utils/blueprintUtils.ts:33-45 | Any option other than the four named ones sorts by score, and only `rating` sorts by rating. |
| BlueprintUtils.Insert | web/utils/blueprintUtils.ts:32-46 | Inserting into a sorted list keeps it sorted and adds exactly that element. |
| BlueprintUtils.SortBlueprints | web/utils/blueprintUtils.ts:31-47 | The result is a fresh sequence sorted non-increasingly by the chosen key, and a permutation of the input. |
| BlueprintUtils.SortWith | web/utils/blueprintUtils.ts:32-46 | The insertion sort returns a sequence non-increasing in the key of the order, and a permutation of the input. |
| BlueprintUtils.SortKeepsElements | web/utils/blueprintUtils.ts:31-47 | The sort neither adds nor drops a blueprint. |
| BlueprintUtils.SortSortedIsIdentity | web/utils/blueprintUtils.ts:32-46 | For every order, a list already in that order is returned unchanged, as JavaScript's stable sort returns it. |
| BlueprintUtils.InsertStable | web/utils/blueprintUtils.ts:32-46 | For every key value, inserting an element keeps the elements with that key in the order they have in the list followed by the new element. |
| BlueprintUtils.SortStable | web/utils/blueprintUtils.ts:32-46 | The sort is stable, as `Array.prototype.sort` is: for every key value, the elements with that key appear in the result in exactly their input order. |
| BlueprintUtils.OrderedInit | web/utils/blueprintUtils.ts:32-46 | Dropping the last element keeps a list in order, and that element's key is at most its predecessor's. |
| BlueprintUtils.AboveLast | web/utils/blueprintUtils.ts:32-46 | Every key of a list in order is at least its last key. |
| BlueprintUtils.OrderedSnoc | web/utils/blueprintUtils.ts:32-46 | Appending an element whose key is at most every key keeps the list in order. |
| BlueprintUtils.SortIdempotent | web/utils/blueprintUtils.ts:31-47 | Sorting twice is sorting once. |
| AppView.DetectLanguage | web/App.tsx:22-29 | The initial language is Chinese if and only if the lower-cased browser language starts with "zh". |
| AppView.DetectLanguageExamples | web/App.tsx:22-29 | `zh…` and `ZH…` give Chinese, and `en-US` gives English. |
| AppView.ToggleLanguage | web/App.tsx:31-33 | Toggling always changes the language. |
| AppView.ToggleTwice | web/App.tsx:31-33 | Toggling twice is the identity. |
| AppView.CategoryOf | web/App.tsx:40 | A blueprint's category is never empty: an empty `c` becomes "Uncategorized". |
| AppView.InsertUnique | web/App.tsx:40-41 | Adding to an ascending, duplicate-free list keeps it so and adds exactly that name. |
| AppView.SortedUnique | web/App.tsx:40-41 | The distinct names in strictly ascending JavaScript string order, and exactly the names given. |
| AppView.CategoryNames | web/App.tsx:40 | Exactly the categories of the blueprints. |
| AppView.Categories | web/App.tsx:39-42 | The list starts with "All", and the rest is strictly ascending (so distinct). It holds exactly the categories in use. |
| AppView.SearchFiltered | web/App.tsx:47-55 | An empty term keeps everything. Otherwise an item is kept if and only if its lower-cased name, author or category contains the lower-cased term. Items come only from the input. |
| AppView.CategoryFiltered | web/App.tsx:58-60 | "All" keeps everything. Otherwise an item is kept if and only if its category equals the selection. |
| AppView.FilteredAndSorted | web/App.tsx:44-65 | The displayed list is `sortBlueprints` of the subsequence of blueprints that pass both filters. So it is sorted by the chosen key, holds every copy of each shown blueprint and nothing else. |
| AppView.FilteredAreShown | web/App.tsx:47-60 | The search filter followed by the category filter is the single filter by both conditions. |
| AppView.NoFilterOnlySorts | web/App.tsx:44-65 | With no search term and "All" selected, the list is only sorted. |
| AppView.OfferedCategoriesSelectSomething | web/App.tsx:39-60 | Every offered category other than "All" selects at least one blueprint. |

## Left out

- The HTTP requests to Supabase. Their results are the `HttpResponse` parameter, and a timeout or any
  other exception is `NoResponse`. A body is given as the records that iterating over it yields. An empty
  object or string iterates as none, just like `[]`: the cleanup script then finds no valid id and
  orphans every group (`EmptyBodyOrphansAll`), and the index generator uses `database` mode with no
  entries. A body whose use as records raises has no body in the model, which both scripts treat as the
  raise they catch.
- JSON values are `null`, booleans, integers and strings. Floats, arrays and nested objects in a record
  are not modelled.
- The `input()` prompts of `cleanup_orphaned_files` (lines 296 and 310) are outside any `try`. At end of
  input, `EOFError` ends the script with a traceback before any file is touched and before the report is
  written. The model takes both answers as strings, so it has no such outcome. `MainFlags` does model end
  of input at the prompt of `main`.
- Strings.ParseInt: it accepts ASCII digits only. Python's `int()` in `parse_size` also accepts other
  Unicode decimal digits, so a size written in, say, Arabic-Indic digits parses in the script and gives
  (0, 0) in the model.
- XML parsing with `xml.etree`. A parsed document is an element tree in the `docs` map, and a file that
  does not parse has no entry.
- Directories. `os.makedirs` is left out, and `os.path.exists` means "is a key of the file map".
- The regeneration subprocess and the writing of the report and the index JSON files. The model returns
  the report's content and whether regeneration starts. The report's timestamp and file name are not
  modelled.
- Console output (`print`), and any text `input()` shows.
- `datetime.utcnow()`. One timestamp parameter stands for every call within a run.
- `sys.exit`. `MainFlags` returns the exit code or the flags for the cleanup run.
- React state, rendering, the DOM, the clipboard, and the data-loading hook.
- Floating point. The rating is a `real`, and JavaScript numbers are integers. `NaN` is not modelled.
  Date parsing in the `newest` sort is replaced by an integer `dt`.
- Cleanup.ScanImageFiles: the image scan (`scan_all_files`) is modelled, but nothing in the script uses its
  result.
- Strings.Lower: it lower-cases ASCII only. `LexLess` compares characters, while JavaScript compares UTF-16
  code units.
- AppView.SearchFiltered: it follows `web/types.ts`, where `n`, `a` and `c` of a blueprint are strings. The
  index builder writes `null` for a `name`, `author` or `category` child without text (`OptionalText` in
  `IndexGenerator.FallbackEntry`), and on such an entry `toLowerCase()` in `App.tsx` lines 51-53 throws for
  any non-empty search term. The model has no such outcome.
- BlueprintUtils.Score: it follows `fe: number` in `web/types.ts`. `generate_index.py` never writes
  `fe`, so in practice the client computes `NaN`. The model does not capture that.
- BlueprintUtils.ImageConventionsAgree: it covers flat definition names only. For a file in a subdirectory
  of `blueprints/` (the glob is recursive), the client keeps the subdirectory and the cleanup script uses
  the basename. A dot-only name is also excluded: there Python's `splitext` keeps the extension.
- IndexGenerator.RecordPath: a `github_path` that is not a string is modelled as raising. Python's
  `os.path.exists` would instead treat an integer as a file descriptor.
- Cleanup.MoveLanding: it assumes distinct move sources and destinations. Within one group this holds
  (`RelatedMovesDistinct`, `PartitionGroupLanding`). Across groups it need not: two orphans with the
  same basename both land on one quarantine path, and the second overwrites the first.
- Cleanup.CleanupRun: it states the script as written. With `auto_delete` the move branch always calls
  `move_blueprint_group(dry_run=False)`, so a direct call with `dry_run=True, auto_delete=True` moves files.
  `main` never makes that call.
- Cleanup.DeleteFile: it states the script as written. The image candidates are siblings of the XML
  (`blueprints/<stem>.png`). The group's images in `images/` are never deleted
  (`DeleteStaysBesideDefinition`).
- Groups that share an image stem, such as two XMLs with the same basename in different directories, can
  share image files. The model does not deduplicate them, and neither does the script.
- A retention sweep of `.cleanup`, other index modes, and a true backup copy. The scripts do
  none of these.
