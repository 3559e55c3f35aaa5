# EPHI tooling: a verified model

This project models the parts of the EPHI repository that decide whether
something may be trusted, stored or published, and proves what those decisions
guarantee.

- **Source archive gate and staging** (`Archive`, `Extraction`, `Preflight` over
  the disk of `FileTree`). The gate is the two-pass check of a zip directory. The
  central result joins it to the extraction: whatever the gate accepts unpacks
  into an empty directory without a collision, to exactly the entries of the zip
  with their bytes and permission bits, each file created once, unless a member's
  data cannot be read.
  Staging unpacks beside the stage and renames; a fault may strike at any disk
  operation, a member may be damaged, and the inventory may fail on what was
  unpacked; the stage is afterwards absent or complete. The separate consumer of
  the staged record (`tools/w0_baseline.py`) trusts a record exactly when it says
  SOURCE_STAGED.
- **Package manifest** (`Inventory`, `NameOrder`, `JsonFile`, `Manifest`,
  `ManifestWitness`, `Tamper`). Two walks list the package, one writer refreshes the
  manifest, two checkers read it, down to the bytes of the JSON file. Each pair is
  compared, the exact condition under which they agree is proved, and concrete
  packages show each disagreement. What a checker accepts is said on the JSON
  values themselves, and a changed file never passes under the same manifest.
- **Markdown fences** (`Fences`). The scanner is proved against a grammar of
  fenced documents; every text has exactly one reading in it.
- **Strict JSON and checkpoints** (`Utf8`, `Json`, `JsonText`, `JsonGrammar`,
  `StrictJson`, `Checkpoint`). Strict UTF-8, Python's compact and indented printer
  and its strict scanner at the level of code points: their round trips, the text
  that is written, and the grammar of RFC 8259, of which the scanner reads exactly
  the sentences. On top of them the duplicate-name hook at every depth and the
  checkpoint of an advisory episode.
- **Tree fingerprint** (`Fingerprint`). The digest tells apart everything it
  looks at.
- **Revision heads** (`Heads`). Any number of publishers, their SQL statements
  interleaved in any way.
- **Release inputs** (`Release`). The lock merge and the wheel selections.
- **Worker queue and its health** (`Worker`, `JobRows`, `Health`). Leases with
  fencing epochs, local and delivery effects committed at most once, aggregates
  that are what their writes made of them, the row a step leaves and why a job has
  ended, and the worker axis of the status report.

`Ordering` and `Text` hold what the others share: stable sorting, lexicographic
orders, code points, and slash-separated names.

## Assumptions

- Text is a sequence of code points, lone surrogates included. `str.casefold`, the
  zip reader and SHA-256 are function parameters. SHA-256 is assumed injective in
  `Fingerprint` and in `Tamper.SameManifestSameBytes` alone, and to give 64
  hexadecimal digits in `Manifest` and `ManifestWitness` alone.
- A float is known by the text `repr` gives it, which is a float literal that is
  written back as itself, or an infinity (`SoundFloats`), and by the integer it
  equals, if any.
- The file system is a finite map from component sequences to nodes, with
  case-sensitive names of any length. Paths are resolved lexically; no symbolic
  link is followed. Every disk operation consults an oracle that may make it fail.
- The system takes as a path any text without a NUL whose surrogates are those
  Python gives undecodable bytes (U+DC80 to U+DCFF).
- How reading a zip directory or a member fails, if it does, is a result of the zip
  reader: BadZipFile or another exception. Whether the inventory of an unpacked
  source root goes through is a predicate on the tree.
- `tempfile.mkdtemp` settles on a name that is free.
- Each SQL statement of a publisher is atomic. `read_revision.revision_id`, the
  entity key of `read_head` and the key of an aggregate are unique, and an entity
  with a head has its aggregate.
- Each transaction of the job queue that locks the job row is atomic and reads its
  clock once; a delivery, which does not lock it, is a check and a write, with
  anything in between. Rows locked by others are a parameter of a claim.
- Directory listings come in any order, but complete and without repeats.
- Names Python decodes from the file system hold no high surrogate directly
  followed by a low one (`NamesOfTree`).

## What the proofs found

- `refresh_manifest` sorts `Path` objects, component by component, while both
  checkers demand the order of the joined names. `a/x` sorts before `a.b` in the
  first order and behind it in the second (`ClashRejected`).
- `refresh_manifest` opens the manifest for writing before it knows that the text
  can be encoded. A package file whose name is not UTF-8, or a surrogate elsewhere
  in the manifest, makes it raise with the manifest emptied (`EmptiedExactly`,
  `UndecodableEmpties`). A number elsewhere in the manifest that overflows to an
  infinity is written as `Infinity`, which no reader accepts (`OverflowUnreadable`).
- All in all the package checker accepts the result of a refresh exactly when the
  manifest could be read and no link was met, no name and nothing else in the
  manifest holds a surrogate, nothing in it is infinite, no two package files
  clash and no name holds a backslash (`Rewritable`); the baseline checker
  exactly when, besides, the two walks match (`WalksMatch`).
- The two manifest checkers differ only on a size written as a float that equals
  an integer, which the package checker takes (`FloatSizeAccepted`), and on an
  empty string or object in place of an empty list.
- The gate's SOURCE_ROOT_MISSING can never be reported (`RootAlwaysSeen`), and
  neither can the escape of `_safe_destination` (`DestinationIsSafe`).
- `_seed_episode` ignores how many rows its last UPDATE changed: a publisher that
  saw a head and was overtaken inserts its revision, moves nothing and returns
  normally (`SilentLoss`, `SilentLossWitness`). One that saw no head fails at the
  seeding exactly if another has seeded the entity, with no row of its own
  (`NoHeadLoser`); the one that seeded wins with any fresh revision (`SeederWins`),
  and if it stops half-way the entity never gets a head (`SeededWithoutHead`).
- `commit_delivery_effect` reads the job row without a lock, checks the lease, and
  does not look at how many rows its last UPDATE changed. On PostgreSQL a job that
  was taken over or canceled gets the receipt of its former owner exactly when a
  claim or a cancellation commits between the check and the write
  (`DeliveryOutcome`, `LateWritesExplained`): an owner whose lease runs out after
  the check leaves a canceled job with a receipt and returns normally
  (`LateReceiptWitness`). `BEGIN IMMEDIATE` on SQLite rules this out
  (`SerializedDelivery`), and so would a lock on the row.
- Without the assumption on names, two different directories share a fingerprint.

## Model

| member | source | states |
|---|---|---|
| Archive.NameAcceptance | tools/source_preflight.py:78-91 | a member name is accepted as a component sequence exactly when it spells that sequence: real components, no NUL, backslash or colon, at most a closing slash |
| Archive.SafeNames | tools/source_preflight.py:78-91 | a name is accepted exactly when it holds no NUL, backslash or colon and no component of it, but for one closing slash, is empty, `.` or `..` |
| Archive.EntryFaultMeaning | tools/source_preflight.py:105-119 | the chain of checks on one member passes exactly the lawful ones: canonical, under the root, a plain file or directory, the root itself a directory, not encrypted |
| Archive.MemberReason | tools/source_preflight.py:94-119 | what the gate says of one member, by the bits of its attributes: only the upper half counts, 0xA is a symlink, 0, 4 and 8 pass, 4 or a closing slash is a directory |
| Archive.InRootMeaning | tools/source_preflight.py:103-108 | a name is in the root exactly when the root is an ancestor of it, or the name itself unless the root is given with slashes behind it |
| Archive.CleanMeaning | tools/source_preflight.py:105-128 | the first pass is clean exactly when every member is lawful and the case-folded names are distinct |
| Archive.FirstPass | tools/source_preflight.py:99-128 | the loop reports what is wrong with the first entry that fails, or records exactly the names and kinds seen |
| Archive.HasFileParent | tools/source_preflight.py:136-140 | the walk over the parents finds a file exactly when some proper ancestor, the dot included, is recorded as one |
| Archive.SecondPass | tools/source_preflight.py:135-142 | the second pass objects exactly when a file member is a proper ancestor of another member |
| Archive.ValidateMembers | tools/source_preflight.py:98-143 | the gate accepts exactly the acceptable archives, yields their sorted members, and otherwise gives the reason the first failing entry or the missing condition calls for |
| Archive.RootAlwaysSeen | tools/source_preflight.py:132-133 | after a clean first pass of a non-empty archive the root is there, so SOURCE_ROOT_MISSING cannot be reported |
| Archive.AcceptedIncreasing | tools/source_preflight.py:143 | the accepted list is strictly sorted by joined name: the sort key never ties |
| Archive.ArchiveOrderIrrelevant | tools/source_preflight.py:105-143 | reordering the archive changes neither the verdict nor the accepted list |
| Extraction.DestinationIsSafe | tools/source_preflight.py:146-150 | a canonical relative path below a real target never escapes it |
| Extraction.AcceptedIsSeparable | tools/source_preflight.py:98-143 | an accepted list has non-empty, real, distinct paths and no file above another member |
| Extraction.SeparableUnpacks | tools/source_preflight.py:153-171 | into an empty directory, every prefix of such a list unpacks exactly if its members can be read, and then to exactly its members and the directories above them, with everything else unchanged |
| Extraction.AcceptedArchivesExtract | tools/source_preflight.py:98-171 | what the gate accepts extracts into an empty directory exactly if every file member can be read, and then to exactly the described tree |
| Extraction.UnpackedUnique | tools/source_preflight.py:153-171 | the member list determines the extracted tree |
| Extraction.ExtractMember | tools/source_preflight.py:154-171 | one member is unpacked with its parents, bytes and permission bits; a fault leaves everything outside the target alone; on a sound disk it fails only on a collision or because the member cannot be read, and then for that reason |
| Extraction.Extract | tools/source_preflight.py:153-171 | success is the whole list unpacked in order, each file created exclusively; nothing outside the target changes; on a sound disk it stops at the first member whose place is taken or that cannot be read |
| Extraction.FilesCreatedOnce | tools/source_preflight.py:160-168 | the exclusive creates of an accepted list hit each file member's destination exactly once |
| FileTree.Disk.MakeDirs | tools/source_preflight.py:157-159 | mkdir with parents and existing directories allowed either makes the whole chain or stops part-way along it, and fails without a disk fault exactly when something on the way is not a directory |
| FileTree.Disk.OpenExclusive | tools/source_preflight.py:160-166 | an exclusive create makes an empty owner-only file where nothing stood, or changes nothing |
| FileTree.Disk.WriteNewFile | tools/source_preflight.py:160-171 | a written file is new and has the given bytes and mode; a broken write disturbs no other path; on a sound disk only a taken place or a damaged source stops it |
| Preflight.PathRoundTrip | tools/w0_baseline.py:96-99 | a path written into the record is read back as the same path |
| Preflight.AcceptedIsRooted | tools/source_preflight.py:105-117 | under a one-component source root every accepted member starts with that component, and the root itself can only be a directory |
| Preflight.RootIsDirectory | tools/w0_baseline.py:143-144 | a staged tree has its source root as a directory, even if the archive never lists it |
| Preflight.RenamedIsStaged | tools/source_preflight.py:326-332 | unpacking into the hidden sibling and renaming it gives exactly the tree of unpacking into the stage |
| Preflight.DamageStops | tools/source_preflight.py:153-171 | on a sound disk the extraction of an accepted list stops only at the first member that cannot be read, for that member's reason |
| Preflight.StageMembers | tools/source_preflight.py:326-337 | whatever step fails, nothing outside the temporary directory has changed, and after a successful cleanup nothing has changed at all; success is the complete tree, moved; on a sound disk it fails exactly if a member cannot be read or the inventory fails, and says which |
| Preflight.StageArchive | tools/source_preflight.py:321-353 | the stage holds the complete accepted tree or is absent; on a sound disk it is staged exactly when the parents can be made, the zip directory can be read, the gate accepts, every member can be read and the inventory goes through, and the reason is that of the first of these that fails, INVALID_ZIP for BadZipFile alone |
| Preflight.StageHoldsArchive | tools/source_preflight.py:153-171 | under the stage stands, for every entry of the zip, a directory or a file with exactly its bytes and the nine permission bits of its attributes (0600 if there are none), and nothing that is not from an entry or on the way to one |
| Preflight.RequestReasons | tools/source_preflight.py:301-316 | what is wrong with the request itself, in the order of the checks |
| Preflight.Preflight | tools/source_preflight.py:286-353 | SOURCE_STAGED is reported exactly with the full record and a stage that holds the archive entry by entry; any other record claims nothing, gives the first reason, and leaves at most new parent directories; with the shipped request the consumer trusts exactly the staged records |
| Preflight.ConsumerVerdict | tools/w0_baseline.py:102-151 | for any staged record, the consumer's verdict is decided by the three identities and the protected root alone |
| Preflight.TrustedMeaning | tools/w0_baseline.py:102-151 | any record is trusted exactly when all it claims holds, the shipped name, digest and root included |
| Preflight.ProducerConsumerAgree | tools/w0_baseline.py:102-151 | with the shipped constants every staged record passes every check of the consumer and yields the staged root |
| Inventory.Walk | tools/check_package.py:46-59 | the recursive walk yields every file it reaches exactly once, or stops exactly when it reaches a symbolic link |
| Inventory.PackageFiles | tools/check_package.py:45-61 | returns the strictly sorted list of exactly the files with no skipped component, or refuses exactly when there is such a link |
| Inventory.SkippedSpelled | tools/check_package.py:48-53 | the names the recursive walk leaves out, one by one: five directories, two files, environment files but the example, and whatever ends in `.pyc` or `.pyo` behind another character |
| Inventory.FlatPackageFiles | tools/w0_repo_baseline.py:77-89 | the same for the flat walk and its own filter on path parts |
| Inventory.KeptSpelled | tools/w0_repo_baseline.py:79-84 | the paths the flat walk keeps, by the names of their components |
| Inventory.NotSkippedMeaning | tools/check_package.py:48-53 | the recursive walk keeps a path exactly when the flat walk does and it is not exceptional: an environment file, the design pack, or inside a directory pruned for its name |
| Inventory.WalksAgree | tools/w0_repo_baseline.py:77-89 | the two walks return the same result exactly when no exceptional path gets in the way |
| NameOrder.PrefixComponent | tools/check_package.py:61 | when one first component is a proper prefix of the other, joining reverses the order exactly on a clash |
| NameOrder.OrdersDiffer | tools/check_package.py:61 | component order and joined-name order disagree on two paths exactly when they clash |
| NameOrder.ClashWitness | tools/check_package.py:188 | `a/x` and `a.b` are such a pair |
| JsonFile.RewriteOutcome | tools/check_package.py:74-97 | writing back a JSON file that was read: it can be encoded exactly if it holds no surrogate, and is then read as it was exactly if it holds no infinite float, and not at all otherwise |
| JsonFile.ReadIsCanonical | tools/check_package.py:74-87 | what the strict reader returns repeats no name and holds only floats that are written as themselves |
| JsonFile.WrittenText | tools/check_package.py:96-97 | what is written is the text indented by two, one line break, and nothing else, in UTF-8 |
| Manifest.RefreshManifest | tools/check_package.py:90-97 | the manifest is rewritten with the sorted inventory, sizes and digests, or emptied when the text cannot be encoded, or nothing changes when it cannot be read or a link is met; everything else stays |
| Manifest.UpdatedSpelled | tools/check_package.py:90-97 | the value written has one object per package file but the manifest, in path order, with its path, size and digest in this order, in place of the old list; every other member stays |
| Manifest.EmptiedExactly | tools/check_package.py:92-97 | the refresh raises with the manifest emptied exactly when a file name or something else in the manifest holds a surrogate |
| Manifest.UpdatedShape | tools/check_package.py:91-97 | the value written repeats no name, and can be encoded and read back exactly under conditions on the file names and the rest of the manifest |
| Manifest.RewrittenManifest | tools/check_package.py:90-97 | after a refresh the manifest can be read exactly under these conditions, and is then what was written |
| Manifest.RefreshIdempotent | tools/check_package.py:90-97 | refreshing twice is refreshing once, whatever came of the first refresh |
| Manifest.ListEntries | tools/w0_repo_baseline.py:112-122 | the entry loop lists the paths exactly when every entry is well formed and no path repeats, and lets a ValueError through exactly when a path that cannot be resolved comes before any other bad entry |
| Manifest.AllDescribed | tools/w0_repo_baseline.py:129-132 | the last loop passes exactly when every entry names a file with that size and digest |
| Manifest.SortedMeansIncreasing | tools/w0_repo_baseline.py:123-124 | for distinct paths, being equal to their sorted list means strictly increasing |
| Manifest.ValidateManifest | tools/w0_repo_baseline.py:104-133 | passes exactly the strictly increasing lists that describe all and only the package files, and otherwise names which condition failed first, a path that cannot be resolved included |
| Manifest.CheckEntries | tools/check_package.py:192-197 | the loop raises exactly when an entry does; otherwise the errors collected are exactly those some entry causes, and there is none exactly when every entry describes its file |
| Manifest.SortedSetMeansIncreasing | tools/check_package.py:188-189 | `declared == sorted(set(declared))` means strictly increasing |
| Manifest.CheckManifest | tools/check_package.py:180-197 | no error is found exactly when the manifest is exact; it raises exactly when the manifest or the walk does or an entry does; otherwise each error is reported exactly when its cause is there |
| Manifest.ExactMeansBijection | tools/w0_repo_baseline.py:126-132 | acceptance means the declared names are the one ascending list of the package's names, each with its file's size and digest |
| Manifest.CheckersAgree | tools/w0_repo_baseline.py:104-133 | on one inventory the two checkers reach the same verdict, except that only the package checker takes a float for a size, or something empty that is not a list |
| Manifest.DeclaredPathFound | tools/check_package.py:64-71 | a real path is found again under its joined name exactly when that holds no backslash and can be resolved |
| Manifest.NamesAscend | tools/check_package.py:92-95 | the names a refresh writes ascend exactly when no two package files clash |
| Manifest.RefreshThenValidate | tools/check_package.py:90-97 | for every tree, the package checker accepts the result of a refresh exactly when the manifest was readable, no link was met, the names and the rest of the manifest can be written and read back, and the names are orderly |
| Manifest.RefreshThenBaseline | tools/w0_repo_baseline.py:104-133 | the baseline checker accepts it exactly when, besides, the two walks match |
| Tamper.PackageMeaning | tools/check_package.py:180-197 | the package checker finds nothing wrong exactly when no link is met and the JSON list states every package file but the manifest once, in name order, with its size and SHA-256 |
| Tamper.BaselineMeaning | tools/w0_repo_baseline.py:104-133 | the baseline checker passes exactly such a list of its own walk, with integer sizes and lower-case digests |
| Tamper.EntryFormMeaning | tools/w0_repo_baseline.py:92-120 | what the baseline checker demands of one JSON value before it looks at the files |
| Tamper.EntryError | tools/check_package.py:192-197 | what the package checker does with one JSON value that declares a real name: missing file, missing key, mismatch, or nothing |
| Tamper.TamperEvidence | tools/check_package.py:180-197 | two accepted packages with the same manifest bytes have the same files, with the same sizes and digests |
| Tamper.SameManifestSameBytes | tools/check_package.py:180-197 | and, if SHA-256 is injective, with the same bytes |
| Tamper.PackageReportsChange | tools/check_package.py:192-197 | change the bytes of one file of an accepted package: unless size and digest stay the same, the package checker reports the mismatch of this file and nothing else |
| Tamper.BaselineReportsChange | tools/w0_repo_baseline.py:129-132 | and the baseline checker says MANIFEST_MISMATCH |
| ManifestWitness.ClashRejected | tools/check_package.py:187-189 | the package of `a/x` and `a.b`: its refresh returns normally and both checkers reject the result |
| ManifestWitness.UndecodableEmpties | tools/check_package.py:96-97 | a package with a file name that is not UTF-8, though its names are orderly: its refresh empties the manifest and both checkers reject |
| ManifestWitness.OverflowUnreadable | tools/check_package.py:83-97 | a manifest that holds `1e999`: its refresh returns normally and leaves a manifest that cannot be read |
| ManifestWitness.FloatSizeAccepted | tools/check_package.py:196 | a manifest that gives the size 1 as `1.0`: the package checker accepts it, the baseline checker calls it invalid |
| Fences.ScanConcat | tools/check_package.py:104-114 | scanning a concatenation is scanning the second part from where the first part ended |
| Fences.ScanReadsGrammar | tools/check_package.py:104-116 | on any reading as plain lines and fenced blocks the plain lines are visible, and the fence is left open exactly if the last one never closes |
| Fences.MarkerMeaning | tools/check_package.py:105-107 | a marker is a run of three or more backticks or tildes behind at most three white-space code points |
| Fences.ClosesMeaning | tools/check_package.py:110-111 | a fence is closed exactly by a run of its character, at least as long, with nothing but white space behind it |
| Fences.ScanLines | tools/check_package.py:102-116 | the loop computes the visible lines and the final fence of every such reading |
| Fences.EveryTextIsADocument | tools/check_package.py:104-114 | every text has a reading |
| Fences.OneReading | tools/check_package.py:104-114 | and only one |
| Utf8.RoundTrip | tools/check_package.py:96-97 | exactly the texts without surrogates can be encoded, and they are decoded again |
| Utf8.OneSpelling | tools/check_package.py:86 | bytes that can be decoded are the encoding of what they decode to: no overlong form is read |
| Utf8.EncodingForm | tools/check_package.py:96-97 | the bytes of a code point: the marks, the shortest form and the bits of RFC 3629, section 3 |
| Json.IntRoundTrip | src/ephi/advisory/checkpoint.py:76-100 | a written integer of any size and sign is read back |
| Json.FloatRoundTrip | src/ephi/advisory/checkpoint.py:76-80 | a float literal is read back before any delimiter |
| Json.StringRoundTrip | src/ephi/advisory/checkpoint.py:76-100 | a written string is scanned back, escapes and surrogates included |
| Json.ValueRoundTrip | src/ephi/advisory/checkpoint.py:76-100 | a printed value, compact or indented, is parsed back in front of any delimiter |
| Json.TextRoundTrip | src/ephi/advisory/checkpoint.py:76-100 | loading a dumped value gives the value, whatever the layout |
| Json.InfinityUnreadable | tools/check_package.py:83-87 | a written text with an infinite float anywhere is refused |
| Json.PrintFits | tools/w0_integrity_regressions.py:372 | with the default escapes every text is ASCII; without them it holds a surrogate exactly if the value does |
| JsonText.TextMeaning | tools/check_package.py:96-97 | the text written for a value, compact or indented, as brackets, separators, line breaks and spaces around its parts |
| JsonText.EscapeMeaning | src/ephi/advisory/checkpoint.py:100 | how a code point is written inside a string, with and without ASCII escapes |
| JsonGrammar.LoadsMeaning | src/ephi/advisory/checkpoint.py:70-82 | the strict reader accepts exactly the sentences of the RFC 8259 grammar, whoever wrote them, and reads their meaning: white space, escapes, surrogate pairs, number forms |
| StrictJson.UniquePairs | src/ephi/advisory/checkpoint.py:57-63 | the hook succeeds exactly when no name repeats, and then holds exactly the pairs |
| StrictJson.DuplicatesRejected | tools/check_package.py:74-87 | decoding succeeds exactly when no object at any depth repeats a name, and then keeps everything that was read |
| Checkpoint.AcceptedFields | src/ephi/advisory/checkpoint.py:109-160 | a dictionary restores to an episode exactly when it is the map of seven literal names to the literal schema, version and state names and to the identifiers and number of the episode, the identifier is not blank, the revision is the one of both, and the episode is the expected one |
| Checkpoint.FirstObjection | src/ephi/advisory/checkpoint.py:122-160 | with all seven fields there, what a payload is rejected for first |
| Checkpoint.SavedText | src/ephi/advisory/checkpoint.py:90-100 | the saved text of every episode, literal but for the quoted identifiers and the number |
| Checkpoint.TextDecodes | src/ephi/advisory/checkpoint.py:57-87 | a text decodes exactly when it is a JSON sentence that means an object and repeats no name at any depth, and then to what it means |
| Checkpoint.AnyOrderDecodes | src/ephi/advisory/checkpoint.py:70-100 | the payload printed with its fields in any order decodes to the same fields |
| Checkpoint.CheckpointRoundTrip | src/ephi/advisory/checkpoint.py:90-160 | restoring a saved coherent episode gives it back, whatever its identifiers hold |
| Checkpoint.FieldOrderIrrelevant | src/ephi/advisory/checkpoint.py:109-160 | the fields of an accepted text may come in any order |
| Checkpoint.SerializationInjective | src/ephi/advisory/checkpoint.py:90-100 | different episodes have different texts |
| Checkpoint.NormalForm | src/ephi/advisory/checkpoint.py:90-160 | two accepted payloads have the same canonical text exactly when they restore to equal episodes, and that text restores to them |
| Checkpoint.SavedFieldsAscend | src/ephi/advisory/checkpoint.py:100 | the saved text lists all fields in ascending name order |
| Checkpoint.MissingFieldsReported | src/ephi/advisory/checkpoint.py:119-121 | a payload that lacks fields is rejected with exactly the sorted missing ones |
| Checkpoint.RepeatedNameRejected | src/ephi/advisory/checkpoint.py:57-82 | a text with a repeated name at any depth is rejected as malformed |
| Fingerprint.TreeSnapshot | tools/w0_integrity_regressions.py:361-372 | the digest is a function of the observed paths, kinds and bytes, whatever the listing order |
| Fingerprint.SnapshotText | tools/w0_integrity_regressions.py:361-372 | the hashed text, literal but for names, digests and sizes: one triple per path in path order, special files left out |
| Fingerprint.EntryInjective | tools/w0_integrity_regressions.py:365-371 | equal entries come from the same path, kind and bytes |
| Fingerprint.EntriesDetermine | tools/w0_integrity_regressions.py:362-371 | equal entry lists mean equal observations |
| Fingerprint.FingerprintInjective | tools/w0_integrity_regressions.py:361-372 | two observations have the same fingerprint exactly when they are equal |
| Fingerprint.TreesToldApart | tools/w0_integrity_regressions.py:361-372 | two trees have the same fingerprint exactly when below their roots the same files with the same bytes, directories and links stand |
| Fingerprint.SplitPairCollides | tools/w0_integrity_regressions.py:372 | for names no decoder yields, two different directories share a fingerprint |
| Heads.StepKeeps | examples/synthetic_downstream/assets.py:117-183 | one statement of any publisher keeps the heads sound, every inserted revision as it is, at most one publisher seeding an entity, and no head goes back |
| Heads.RunKeeps | examples/synthetic_downstream/assets.py:117-183 | so does every interleaved run: a head always names a revision inserted for its entity |
| Heads.StepMoves | examples/synthetic_downstream/assets.py:173-183 | a statement moves a head to its publisher's revision and the next version, or leaves it alone |
| Heads.HeadIsALog | examples/synthetic_downstream/assets.py:173-183 | over any run the moves of a head start from consecutive versions, and the head shows the last |
| Heads.OneWinnerPerVersion | examples/synthetic_downstream/assets.py:179-182 | at most one publisher wins from any version |
| Heads.EveryRunIsALog | examples/synthetic_downstream/assets.py:117-183 | from any database with sound heads, under any schedule: sound heads, unchanged revisions, a version that counts the moves, one winner per version |
| Heads.SilentLoss | examples/synthetic_downstream/assets.py:117-184 | a publisher that saw a head wins exactly when nobody moves it before its last statement; a loser returns normally all the same, and its revision is in the table either way |
| Heads.NoHeadLoser | src/ephi/infrastructure/postgresql.py:786-798 | a publisher that saw no head fails at the seeding exactly when another has seeded the entity by then; it has then changed no table and does nothing more |
| Heads.SeederWins | examples/synthetic_downstream/assets.py:121-177 | a publisher that has seeded and inserts a fresh revision always sets the first head: its head INSERT never conflicts |
| Heads.SeededWithoutHead | examples/synthetic_downstream/assets.py:121-177 | if the one that seeded stops before its head INSERT, no run of the others gives the entity a head |
| Heads.SilentLossWitness | examples/synthetic_downstream/assets.py:178-184 | two publishers of one entity of which one returns normally with its revision inserted and no head moved |
| Release.MergeAsset | tools/prepare_release_inputs.py:134-147 | one asset merges exactly when its items for this platform, told by the text of their markers, are well formed and no name gets two versions |
| Release.ExpectedDownloads | tools/prepare_release_inputs.py:130-148 | the merge succeeds exactly when the assets are well formed and agree on this platform, and then holds exactly their pins |
| Release.AssetOrderIrrelevant | tools/prepare_release_inputs.py:127-148 | the order of the assets decides neither verdict nor merge |
| Release.SelectWheels | tools/prepare_release_inputs.py:380-388 | selection succeeds exactly when each expected name has one candidate with the expected version, and selects it |
| Release.PrepareSelections | tools/prepare_release_inputs.py:380-434 | both selections succeed exactly when both are exact covers of disjoint name sets |
| Release.CandidateOrderIrrelevant | tools/prepare_release_inputs.py:379-388 | the order of the candidates does not decide what is selected |
| Health.DisjointCounts | src/ephi/operations_status.py:26-41 | for every job table and clock, expired running <= running and failed + dead-letter + running <= all |
| Health.CountsMeaning | src/ephi/operations_status.py:26-41 | each count is the number of the rows it is named after, at one clock reading |
| Health.WorkerVerdict | src/ephi/operations_status.py:156-172 | the axis is ERROR, STALE or READY exactly by the rows: a terminal failure first, then an expired lease |
| Health.ClockOnlyStales | src/ephi/operations_status.py:35-38 | with the rows fixed, a later clock can only turn READY into STALE |
| Worker.StepRows | src/ephi/infrastructure/postgresql_worker.py:258-503 | any step leaves a row within its lease epoch, or starts the next epoch with one more attempt; terminal rows are frozen |
| Worker.RunRows | src/ephi/infrastructure/postgresql_worker.py:258-503 | over any run no job disappears, terminal jobs stay, epochs advance with attempts and attempts stay within budget |
| Worker.StepGrants | src/ephi/infrastructure/postgresql_worker.py:309-318 | a transaction grants a lease exactly when it raises the job's epoch, and grants that epoch |
| Worker.EpochsAreFresh | src/ephi/infrastructure/postgresql_worker.py:309-318 | the leases ever granted on a job carry consecutive epochs and number at most its attempts |
| Worker.FencedForever | src/ephi/infrastructure/postgresql_worker.py:695-740 | once a job has been taken over, everything its former owner begins is refused and changes nothing |
| Worker.ClaimTakesFirst | src/ephi/infrastructure/postgresql_worker.py:295-308 | a claim is granted exactly when an unlocked eligible job exists, and on the first in claim order |
| Worker.StepCommits | src/ephi/infrastructure/postgresql_worker.py:601-693 | a transaction keeps every receipt and adds exactly the one of the effect it commits |
| Worker.EffectApplies | src/ephi/infrastructure/postgresql_worker.py:601-693 | a local effect is committed exactly under a held lease, without a receipt, on an aggregate that is there and with a mutation that takes its state; then the mutated state is stored one version up, the receipt records both, and nothing else changes |
| Worker.StepWrites | src/ephi/infrastructure/postgresql_worker.py:632-693 | a transaction changes an aggregate exactly when it writes it: to the version and state of the write, one version up and what its change makes of the state before; an effect's write is new and leaves a receipt of both |
| Worker.ReceiptsStay | src/ephi/infrastructure/postgresql_worker.py:622-630 | a receipt never changes or disappears |
| Worker.AggregateIsItsHistory | src/ephi/application/transactions.py:203-249 | over any run an aggregate is created at most once, at any version; every later write raises its version by one and changes the state the one before left; the last one is stored |
| Worker.EffectsCommittedOnce | src/ephi/infrastructure/handoff.py:340-398 | over any run with crashes, takeovers, retries and interleaved deliveries each effect, local or delivery, is committed at most once, never if it was before, and its receipt stays |
| Worker.EffectsAppliedOnce | src/ephi/application/worker.py:3-6 | over any such run each local effect writes at most one aggregate, at most once, and its receipt for ever gives the version and the state it left |
| Worker.ReplayReturnsReceipt | src/ephi/infrastructure/postgresql_worker.py:622-630 | repeating a committed effect, local or delivery, returns the first receipt and changes nothing; other inputs are refused |
| Worker.StepCancels | src/ephi/infrastructure/postgresql_worker.py:457-503 | a job becomes canceled exactly by a successful cancellation, which finds no receipt |
| Worker.StepKeeps | src/ephi/infrastructure/postgresql_worker.py:151-503 | every step keeps rows sound, one job per unit of work, and every receipt and delivery in progress with a job |
| Worker.RunKeeps | src/ephi/infrastructure/postgresql_worker.py:151-693 | so does every run |
| Worker.StepStaysClean | src/ephi/infrastructure/postgresql_worker.py:457-503 | a step gives a canceled job a receipt exactly when it is the write of a delivery whose job was canceled after its check |
| Worker.RunStaysClean | src/ephi/infrastructure/handoff.py:340-398 | a run keeps canceled jobs free of receipts exactly when no delivery in it writes so late |
| Worker.LockedRunsStayClean | src/ephi/infrastructure/postgresql_worker.py:622-693 | the operations that lock the job row never give a canceled job a receipt |
| Worker.RunLoses | src/ephi/infrastructure/postgresql_worker.py:295-318 | a lease's job is lost over a run exactly when it was lost before or some step grants it anew or cancels it |
| Worker.DeliveryOutcome | src/ephi/infrastructure/handoff.py:340-398 | a checked delivery that writes its receipt does so on a lost job exactly when a claim or cancellation of the job came between; the write takes effect all the same and leaves the job row alone |
| Worker.SerializedDelivery | src/ephi/infrastructure/handoff.py:80-97 | with nothing between check and write, as under BEGIN IMMEDIATE, a delivery never writes on a lost job |
| Worker.LateWritesExplained | src/ephi/infrastructure/handoff.py:340-398 | in any run every delivery write goes back to a check that held the lease, and is on a lost job exactly when the job was granted anew or canceled since |
| Worker.LateReceiptWitness | src/ephi/application/handoff.py:723-732 | the run in which A passes the check, B takes over and cancels, and A writes: a canceled job with a receipt |
| JobRows.RowSpelled | src/ephi/infrastructure/postgresql_worker.py:258-503 | the whole row a step leaves of a job, told by its new status: only a claim leases, everything else that gives a status takes the lease away; delays double up to an hour |
| JobRows.OutcomeSpelled | src/ephi/infrastructure/postgresql_worker.py:295-503 | which owner operations, cancellations and claims succeed, by the row and the clock |
| JobRows.EnqueueSpelled | src/ephi/infrastructure/postgresql_worker.py:151-256 | which requests add a job, with which row, and which are done already |
| JobRows.CheckSpelled | src/ephi/infrastructure/handoff.py:343-357 | when a delivery begins and what it remembers |
| JobRows.WriteSpelled | src/ephi/infrastructure/handoff.py:358-398 | when it writes its receipt, with which contents |
| JobRows.EndHasCause | src/ephi/infrastructure/postgresql_worker.py:258-503 | a job that ended in a run was ended by one step, in the way its status says, and its row stays as that step left it |

## Left out

- Preflight.Preflight: absolute paths without `..`, no `expanduser`; a symbolic link is never followed, so STAGE_PARENT_SYMLINK reads as an I/O error; interrupts that are not ordinary exceptions are not modelled, and neither is a name race in `mkdtemp`.
- Preflight.StageMembers: of `discover_baseline` only whether it goes through on the unpacked tree and that it reports the staged root; its file counts and runner discovery are not part of this model.
- Preflight.ConsumerVerdict: a record whose sections are not objects (PREFLIGHT_SCHEMA_INVALID) is not representable.
- Archive.SecondPass: the check of lines 141-142, which compares a dictionary's item with itself, has no counterpart.
- Extraction.ExtractMember: permissions ignore the umask, and case-insensitive file systems are not covered: ancestors are compared case-sensitively by the gate.
- FileTree.Disk.WriteNewFile: a broken write leaves any bytes at its own path.
- Manifest.RefreshManifest: a disk that fails while the manifest is written is not modelled; a manifest that is not an object is one that cannot be read.
- Manifest.CheckManifest: the rest of `validate` (required files, status, Python syntax, links, secrets, historical evidence) is not part of this model; a raised error is one outcome, whatever its message.
- Manifest.ValidateManifest: a missing and an unreadable manifest are one outcome, SPEC_INVALID.
- Fences.ScanLines: CommonMark is not the yardstick; the scanner is proved against its own rules. The link check after the loop is left out.
- Json.TextRoundTrip: a float stands for its `repr`, whose digits are not computed; nesting depth and integer digit limits are left out, and so is `json.loads` on bytes.
- Checkpoint.CheckpointRoundTrip: a mapping payload holds decoded JSON values, not enum members or subclasses of str.
- Fingerprint.FingerprintInjective: neither symbolic-link targets, permission bits nor special files are in the fingerprint, so it says nothing about them.
- Heads.RunKeeps: of the workflow aggregate only that it is seeded once; the decision loop that `_seed_episode` initialises between seeding and revision INSERT, and the columns of a revision other than entity and payload, are left out; a publisher whose insert fails stops.
- Release.ExpectedDownloads: the interpreter lookup before the merge, and the two locally built distributions added after it, are left to the caller.
- Health.WorkerVerdict: of the status report only this axis is a result here; the branch table of the PostgreSQL and artifact axes is modelled as a helper, the process, source and evidence axes, reasons and facts are left out.
- Worker.StepRows: modelled on table values, one step at a time, rather than as a class around a connection; identity validation, failure codes and messages, payload bytes and the reconciliation after a lost insert race are left out. A retry after such a race finds the winner's row.
- Worker.EffectsCommittedOnce: of a delivery only the job row and the receipt; its status and attempt rows are a parameter (the recorded attempt count), and the outbound call itself is not covered.
- Worker.AggregateIsItsHistory: of a command only its write to the aggregate; authorization, command receipts, audit and outbox are left out.
- Worker.ReplayReturnsReceipt: the result identity digest and the commit time are not in the receipt.
- The command executor, read and snapshot stores, value ledger, planner, family qualification, web pages, proxies and process control are not part of this model.
