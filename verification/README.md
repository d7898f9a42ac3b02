# kakt: a verified model of its protocols and transformations

This project models the parts of kakt whose correctness is hardest to see by reading: the at-rest
key rotation protocol, the boundary sequence of a bootstrap and its activation windows, the delivery
of Secrets under concurrency, the packaging of manifests into Helm charts, inventory matching before
a recovered cluster is released, the signing-key cache, two search loops, key fingerprints, and the
bounded collection of support evidence. `dafny verify dfyconfig.toml` checks all of it.

Everything outside the repository's own logic -- kubectl, the escrow, HTTP, clocks, randomness, the
Kubernetes API server -- is state that may change or fail at any step. Sealing is an uninterpreted
function of its key, a digest stands for what it was taken from, and a freshly generated key is one
that was never generated before.

| component | modules |
|---|---|
| key rotation | `KeyNames`, `ProviderConfig`, `Rotation`, `RotationCompletes`, `RotateCommand` |
| boundary contracts, graph and run | `CycleSearch`, `Boundaries`, `BoundaryRun` |
| activation windows | `Activation` |
| Secret delivery | `Delivery`, `DeliveryCommands` |
| Helm templating | `Escaping`, `Marking`, `Dumping`, `Templating`, `Operations`, `Drafts`, `Literals`, `Meanings`, `Declarations` |
| distribution packing and folding | `Packing`, `PackedFiles`, `Folding` |
| inventory matching | `Inventory` |
| signing keys | `Jwks`, `KeyCache` |
| reference closure and paged releases | `Kustomize`, `Releases` |
| fingerprints | `Encodings`, `Fingerprint` |
| evidence collection | `Allowlists`, `Collection` |
| shared | `Options`, `Text`, `Digits`, `Sorting` |

## Where the code falls short of what it says

The model follows the code. Where the code does not give what its comments or help text promise,
there is a lemma or method that shows it on concrete input, and one that says exactly when it holds.

- The help text of `kakt encryption rotate` says nothing is unreadable at any point. That holds of a
  control plane with one API server (`Rotation.SoleServerAlwaysReads`); with two, the server not yet
  rolled cannot read what the rolled one wrote (`Rotation.RollingTwoServersHasAReadGap`), and
  `Rotation.ServerReadsExactly` says precisely when a server reads everything.
- Stage 2 checks only that a retained key is live. Whether it does harm depends on the roll as much as
  on the zero count (`Rotation.FinalizeBeforeRollLosesAnObject`, `Rotation.FinalizeKeepsInvExactly`).
- `kakt encryption enable` always names generation 1. It keeps one name for one key exactly on first
  adoption (`Rotation.EnableIsSafeExactlyOnAdoption`), and leaves everything readable exactly when no
  object carries the name of another live key (`Rotation.EnableReadsExactly`); run after a stage 1 that
  failed between its escrow and its apply, it does not (`Rotation.EnableAfterFailedStageLosesAnObject`).
- Both stages of a rotation render the plaintext fallback again, also where `enable` had left it out
  (`Rotation.RotationRestoresPlaintext`): the live configuration lacks it exactly when the last command
  to apply one was `enable` without it (`Rotation.PlaintextIsRefusedExactly`).
- `protect` escapes every string except those in which an odd run of `{` meets `}}`
  (`Escaping.EscapeRoundTrip`, `Escaping.OddRunDoesNotParse`), and never looks at keys: one that holds
  `{{` does not come back (`Templating.OpenKeyDoesNotComeBack`). The dumper then strips the end of every
  line and all leading newlines of a multi-line string that holds `{{`, so such a string comes back
  exactly when there was nothing to strip (`Dumping.LeadingNewlineIsLost`, `Dumping.WrittenRoundTrip`;
  `Templating.DocumentRoundTrip` has the condition for whole documents). The same happens to documents
  that are meant to be written verbatim (`Templating.VerbatimLosesANewline`,
  `Templating.WrittenAsItIsExactly`).
- A `value:` may be a mapping with a live key. Where that renders to the same as a key behind it, the
  rendered mapping has the key twice, and a later path through it no longer means what it says
  (`Meanings.LiveKeyHidesAPath`); `Meanings.ValuesMeanTheirValuesExactly` has the exact condition.
- The packager drops the earlier of two documents that share a declared identity
  (`Declarations.SharedIdentityIsLost`), and ships a template twice when a declaration changes its kind
  or name (`Declarations.RenamedIsDoubled`); `Declarations.EmittedExactlyOnce` has the exact condition,
  over documents and declarations.
- A variant whose documents are all shared has no directory, so a cluster that means it may get a less
  specific variant's documents instead (`Folding.SharedVariantFallsThrough`,
  `Folding.MeantVariantIsEmittedExactly`).
- File names have three digits, so more than a thousand parts are read back out of order
  (`PackedFiles.ThousandAndOneAreMisread`); and files are read in text mode, so a document with a
  carriage return does not come back (`PackedFiles.ReturnIsLost`). `PackedFiles.RoundTripExactly` says
  when documents without repeats do.
- With two machine objects of one name, zero unresolved is no bijection
  (`Inventory.DuplicateNamesHideAMissingServer`,
  `Inventory.ResolvedIsBijectionExactlyForDistinctNames`).
- The refresh limit on signing keys counts from the last success, so failed attempts delay nothing
  (`Jwks.FailedAttemptsAreNotLimited`; `Jwks.Validator.GetKey` says exactly when one is made).
- The first look-up and the deletion of an expired key are outside the mutex and act in the middle of
  another call's refill. So a kid published twice in one set may be answered with the first of its keys
  (`KeyCache.OvertakenKeyIsAnswered`): exactly while the other is still to be stored
  (`KeyCache.FoundIsLatestExactly`). A key the set publishes may be refused
  (`KeyCache.PublishedKeyIsRefused`), and one that has expired and is no longer published answered
  (`KeyCache.ExpiredKeyIsAnswered`); `KeyCache.LastLookExactly` says exactly when.
- A conditional replace sends back labels and annotations but not ownerReferences or finalizers, which
  are dropped (`Delivery.OwnersAreDropped`): it keeps the rest of the Secret exactly when there were none
  (`Delivery.ReplaceKeepsTheRestExactly`).
- A deployment that fails may leave its own boundary open (`Activation.FailureLeavesLastBoundaryOpen`),
  exactly when its last patch is the first to fail and had landed behind a connection fault
  (`Activation.Cluster.DeployBoundary`). An apply of the AppProjects that fails half-way may close a
  boundary below one that stays open (`Activation.FailedApplyLeavesAGap`), exactly when what it closed is
  no end of what was open (`Activation.FailedApplyKeepsAPrefixExactly`); without a failed apply, what is
  open is always a prefix (`Activation.OpenIsAPrefix`).
- A denied field still shows whether it was there: an artefact is observed by its schema, and whether
  anything was observed is in the payload (`Collection.DeniedFieldShowsItsPresence`,
  `Collection.DeniedFieldsShowOnlyPresence`). And a payload's `Skipped` map carries a reader's error
  text as it came, which no allowlist bounds (`Collection.AnyErrorTextLeaves`): exactly when the
  collector fails with it (`Collection.SkippedCarriesErrorsExactly`).

## Model

| member | source | states |
|---|---|---|
| `Digits.DecimalRoundTrip` | internal/assets/embed.go:59-61 | a generation printed in decimal is read back as itself |
| `KeyNames.GenerationOfKeyName` | cmd/kakt/encryption_rotate.go:153-167 | the generation read from a live key name is the one the name was made from |
| `KeyNames.KeyNameInjective` | internal/assets/embed.go:59-61 | two generations never share a name |
| `KeyNames.GenerationExactly` | cmd/kakt/encryption_rotate.go:118-118 | a name carries a generation if and only if it is `key` and digits, and then the number they denote |
| `Rotation.StepKeepsInv` | cmd/kakt/encryption_rotate.go:205-350 | every single write, roll, rewrite, deletion or abandonment keeps the protocol's invariant |
| `Rotation.RunKeepsInv` | cmd/kakt/encryption_rotate.go:205-350 | so does every run of any length |
| `Rotation.RotationNeverLosesData` | cmd/kakt/encryption_rotate.go:205-350 | after any run, wherever interrupted, the live configuration reads every stored object and the two escrow slots hold every key that is live or seals anything |
| `Rotation.StepTouchesOnly` | cmd/kakt/encryption_rotate.go:205-350 | whether or not the operator met his obligations, each step changes only the object, the server, the slot or the configuration it is about |
| `Rotation.StepDoesItsWork` | internal/assets/manifests/secrets/secret-encryption-config.yaml:66-71 | a server reads back what it has just written, a rolled one has what is live |
| `Rotation.ObjectsStay` | cmd/kakt/encryption_rotate.go:205-350 | over every run an object goes only by being deleted, and keeps its seal until it is written again |
| `Rotation.EscrowIsNeverEmptied` | cmd/kakt/encryption_rotate.go:337-342 | over every run a filled escrow slot stays filled |
| `Rotation.NamesIdentifyKeysForEver` | cmd/kakt/encryption_rotate.go:206-216 | over all configurations ever applied, equal names mean equal keys, and the live primary has the highest generation |
| `Rotation.OldNameCountIsExact` | cmd/kakt/encryption_rotate.go:293-301 | no object carries the old name exactly when none is sealed under the old key |
| `Rotation.FinalizeIsSafeExactlyWhenCountIsZero` | cmd/kakt/encryption_rotate.go:307-335 | removing the retained key keeps everything readable if and only if that count is zero |
| `Rotation.FinalizeKeepsInvExactly` | cmd/kakt/encryption_rotate.go:293-335 | stage 2 keeps the whole invariant, future writes included, if and only if no object carries the old name and no server still writes under the old key |
| `Rotation.FinalizeBeforeRollLosesAnObject` | cmd/kakt/encryption_rotate.go:297-300 | the count alone is not enough: before the roll, the next write is sealed under the removed key |
| `Rotation.EnableIsSafeExactlyOnAdoption` | cmd/kakt/encryption.go:240-250 | `enable` keeps one name for one key and the newest generation first if and only if it is the first adoption or repeats it |
| `Rotation.EnableReadsExactly` | cmd/kakt/encryption.go:240-250 | `enable` leaves every stored object readable if and only if none carries the name of another live key and, without the fallback, none is plain |
| `Rotation.PlaintextIsRefusedExactly` | internal/assets/manifests/secrets/secret-encryption-config.yaml:84-87 | over every run, the live configuration lacks the plaintext fallback if and only if the last apply was an `enable` without it |
| `Rotation.RotationRestoresPlaintext` | cmd/kakt/encryption_rotate.go:363-384 | a run in which stage 1 puts the fallback back that `enable` had left out |
| `Rotation.EnableAfterFailedStageLosesAnObject` | cmd/kakt/encryption.go:240-250 | a run in which `enable` after a failed stage 1 makes an object unreadable under its own name |
| `Rotation.ServerReadsExactly` | internal/assets/manifests/secrets/secret-encryption-config.yaml:57-87 | a server reads everything stored if and only if it holds, or no object carries, each live key |
| `Rotation.SoleServerAlwaysReads` | cmd/kakt/encryption_rotate.go:59-65 | with one API server nothing is unreadable to it at any point of any run |
| `Rotation.RollingTwoServersHasAReadGap` | cmd/kakt/encryption_rotate.go:59-65 | with two, a run in which one cannot read what the other wrote |
| `RotationCompletes.RotationCanAlwaysFinish` | cmd/kakt/encryption_rotate.go:293-301 | from every reachable state with a rotation staged, however it was interrupted, some roll, rewrite and finalize completes it with every object kept and sealed under the new key |
| `RotationCompletes.RewriteAll` | cmd/kakt/encryption_rotate.go:297-300 | a rolled server can rewrite everything, so the count the operator owes can always be brought to zero |
| `ProviderConfig.CapturesArePicked` | cmd/kakt/encryption_rotate.go:116-117 | a multi-line pattern captures, of any lines, exactly the words behind its label, in order |
| `ProviderConfig.CrowdedLine` | cmd/kakt/encryption_rotate.go:116-117 | a line with a second word behind the first does not match |
| `ProviderConfig.RenderedIsRead` | internal/assets/manifests/secrets/secret-encryption-config.yaml:57-87 | of everything the template renders, with any comments and with or without the plaintext provider, the two patterns capture exactly the names and values of the primary and the fallback key |
| `RotateCommand.ReadLiveKeys` | cmd/kakt/encryption_rotate.go:127-170 | the list is built exactly when the patterns find paired, well-named entries and at least one, in order, each with its name's generation |
| `RotateCommand.RenderedConfigParses` | internal/assets/manifests/secrets/secret-encryption-config.yaml:57-87 | every rendered configuration parses, gives back its primary and its fallback, each with its generation and, decoded, its key, and has the plaintext provider exactly when it is meant to |
| `RotateCommand.Box.Stage` | cmd/kakt/encryption_rotate.go:205-304 | read off the rendered text: which write is reached under which answers and what each leaves, refusal exactly when no single key is live, nothing written when the live key is not 32 bytes; every way it can end keeps a run of the protocol one |
| `RotateCommand.Box.Finalize` | cmd/kakt/encryption_rotate.go:307-350 | refuses exactly without a retained key, applies the primary alone, leaves both escrow slots; once landed, the invariant holds if and only if the printed obligation was met |
| `RotateCommand.Box.Enable` | cmd/kakt/encryption.go:163-389 | an escrowed value that is not 32 bytes is refused, a dry run changes nothing, nothing is applied that was not escrowed, an escrowed key is reused, never replaced, and the previous slot is never touched, also in the middle of a rotation; on first adoption a run of the protocol stays one |
| `RotateCommand.Box.KeysAreWhole` | cmd/kakt/encryption.go:203-207 | in a run of the protocol neither refusal for length is ever met |
| `RotateCommand.Box.Meanwhile` | cmd/kakt/encryption_rotate.go:268-288 | between two writes the cluster may roll, write, rewrite and delete at will and still be in a run of the protocol |
| `RotateCommand.Box.SafeAtEveryMoment` | cmd/kakt/encryption_rotate.go:205-350 | the safety theorem holds of the box between any two writes of any command |
| `CycleSearch.Search.Visit` | internal/kakt-cli/bootstrap/boundary_graph.go:114-137 | the recursive visit terminates, and either leaves a cycle in `found` or everything reachable finished and ranked |
| `CycleSearch.RankedIsAcyclic` | internal/kakt-cli/bootstrap/boundary_graph.go:97-151 | a rank falling along every edge rules out every closed walk |
| `CycleSearch.FindCycle` | internal/kakt-cli/bootstrap/boundary_graph.go:97-151 | empty if and only if the edge list has no closed walk of any length; otherwise distinct nodes forming one, self-loops included |
| `Boundaries.ValidateContracts` | internal/kakt-cli/bootstrap/boundaries.go:346-380 | accepts exactly the well-declared tables with unique numbers covering 1..N |
| `Boundaries.AcceptedNumbersArePermutation` | internal/kakt-cli/bootstrap/boundaries.go:346-380 | an accepted table's numbers are exactly 1..N |
| `Boundaries.Producers` | internal/kakt-cli/bootstrap/boundary_graph.go:41-48 | the map holds, for each capability, the last-listed boundary that offers it |
| `Boundaries.ProducerOffers` | internal/kakt-cli/bootstrap/boundary_graph.go:41-48 | a recorded producer offers the capability and no contract listed later does; there is none only if nobody does |
| `Boundaries.DependencyEdges` | internal/kakt-cli/bootstrap/boundary_graph.go:40-69 | exactly the edges from recorded producers to boundaries naming their capability, one for each requirement, sorted |
| `Boundaries.AllEdgesAreDependencies` | internal/kakt-cli/bootstrap/boundary_graph.go:50-61 | the collected edges are those dependencies, none missing and none invented |
| `Boundaries.ValidateGraph` | internal/kakt-cli/bootstrap/boundary_graph.go:77-93 | accepts if and only if every dependency points forwards; reports a cycle exactly when dependencies have one, otherwise a backward dependency |
| `BoundaryRun.ReadyBelowSupplies` | internal/kakt-cli/bootstrap/boundary_graph.go:71-93 | once every boundary below k is ready, an accepted graph leaves nothing k names unproduced |
| `BoundaryRun.Orchestrator.RunBoundary` | internal/kakt-cli/bootstrap/boundaries.go:255-330 | what happens is the contract's own list of events from its beginning -- its needs, activation, refresh, inventory, repair and offers, as far as it declares them -- all of it exactly on success, and nothing after an undeclared part; a well-declared boundary fails only on a failed call, and one that starts with its producers proved ready has them so throughout |
| `BoundaryRun.ScriptIsSafe` | internal/kakt-cli/bootstrap/boundaries.go:255-330 | however much of that list is done, every event is declared and comes after what it has to wait for |
| `BoundaryRun.Orchestrator.RunAll` | internal/kakt-cli/bootstrap/boundaries.go:333-340 | the lists of 1..N one after the other, all of them exactly on success and otherwise up to the one failed call |
| `BoundaryRun.FollowingIsSafe` | internal/kakt-cli/bootstrap/boundary_graph.go:71-93 | over an accepted table, wherever such a run stops, every event came after everything it depends on |
| `BoundaryRun.Bootstrap` | internal/kakt-cli/bootstrap/boundaries.go:382-393 | for every table: a refused one runs nothing; an accepted one runs its lists in order and never reaches a boundary before its requirements passed and its producers, all lower, were proved ready in this run |
| `Activation.Cluster.ApplyProjects` | internal/kakt-cli/bootstrap/seed.go:298-311 | what is restated is created, and closed in sequenced mode only, also by an apply that failed half-way |
| `Activation.Cluster.PatchWithRetry` | internal/kakt-cli/bootstrap/seed.go:665-700 | succeeds exactly when, within five attempts, the first one that is not a connection fault does; the boundary, and no other, is opened then or when an attempt landed unseen |
| `Activation.SucceedsExactly` | internal/kakt-cli/bootstrap/seed.go:665-700 | a patch succeeds if and only if the first answer that is no connection fault is a success |
| `Activation.LandsExactly` | internal/kakt-cli/bootstrap/seed.go:665-700 | it lands unheard if and only if an attempt landed before anything was answered |
| `Activation.Cluster.Activate` | internal/kakt-cli/bootstrap/seed.go:612-642 | succeeds exactly when every patch does; what is open is the prefix the answers determine |
| `Activation.ReachIsFullExactly` | internal/kakt-cli/bootstrap/seed.go:634-640 | that prefix is all of 1..n if and only if every patch succeeds, or all but the last do and the last hides that it landed |
| `Activation.ReachExactly` | internal/kakt-cli/bootstrap/seed.go:634-640 | everything is open up to the first failed patch, and that boundary too if and only if it exists and landed unheard |
| `Activation.Cluster.DeployBoundary` | internal/kakt-cli/bootstrap/seed.go:740-745 | each outcome exactly when it occurs; success leaves exactly 1..n open, failed projects what was open less what was restated, a failed seed nothing, a failed patch a prefix, which is 1..n if and only if the n-th patch is the first to fail and hides that it landed |
| `Activation.OpenIsAPrefix` | internal/kakt-cli/bootstrap/seed.go:740-745 | after any sequence of operations in which no apply of the projects failed, what is open is a prefix |
| `Activation.OpenOnlyWhatWasAsked` | internal/kakt-cli/bootstrap/seed.go:740-745 | whatever fails, nothing is open that no deployment asked for |
| `Activation.FailedApplyKeepsAPrefixExactly` | internal/kakt-cli/bootstrap/seed.go:298-311 | a failed apply leaves a prefix of an open 1..m if and only if it closed an end of it |
| `Activation.FailedApplyLeavesAGap` | internal/kakt-cli/bootstrap/seed.go:298-311 | a failed apply that closes the second of three open boundaries only |
| `Activation.FailureLeavesLastBoundaryOpen` | internal/kakt-cli/bootstrap/seed.go:665-700 | a failed deployment that leaves its own boundary open |
| `Activation.Cluster.ReapplySeed` | internal/kakt-cli/bootstrap/seed.go:560-562 | the open set is untouched |
| `Activation.Cluster.Replay` | internal/kakt-cli/bootstrap/seed.go:740-745 | after any sequence of deployments and re-seeds, in either mode and whatever failed, exactly what is open; after a last deployment that worked, that deployment's prefix; converged mode never closes anything |
| `Delivery.SameVersionMeansUntouched` | cmd/kakt/escrow_deliver_backup_credentials.go:408-418 | a Secret found under a version taken before it was read has not changed since, however long others acted |
| `Delivery.ApiServer.Create` | cmd/kakt/spoke_restore_pki.go:359-390 | never touches a taken name; an error may hide a create that landed |
| `Delivery.ApiServer.Replace` | cmd/kakt/escrow_deliver_backup_credentials.go:405-459 | writes only over exactly the Secret that was read, keeping labels and annotations; refuses without a version |
| `Delivery.ReplaceKeepsTheRestExactly` | cmd/kakt/escrow_deliver_backup_credentials.go:418-440 | a replacement keeps everything but the data if and only if the Secret had no owners |
| `Delivery.OwnersAreDropped` | cmd/kakt/escrow_deliver_backup_credentials.go:418-440 | a Secret with an owner that has none afterwards |
| `DeliveryCommands.RestoreOne` | cmd/kakt/spoke_restore_pki.go:175-272 | at most one write, filling an empty name with the escrowed data; success means the name held that data at some moment, and in a dry run that it did or was free; failure has a failed call, nothing escrowed, a differing Secret or contention |
| `DeliveryCommands.RestorePKI` | cmd/kakt/spoke_restore_pki.go:150-287 | no existing Secret is ever modified, nothing is written unless paused or absent, the counters add up and restored ones were written, success means every trust root was in place -- or, in a dry run, in place or free -- and a failure is accounted for |
| `DeliveryCommands.DeliverTo` | cmd/kakt/escrow_deliver_backup_credentials.go:237-300 | changes a Secret only if rotatable and unchanged since its read; success means it held the data, and in a dry run that it did, was free or may be replaced; refusal has a failed call, a differing Secret or contention |
| `DeliveryCommands.DeliverBackupCredentials` | cmd/kakt/escrow_deliver_backup_credentials.go:122-225 | the encryption key is never replaced, the others only on request, and each of the three verdicts is explained |
| `Escaping.RenderAction` | scripts/package/templated-fields.py:62-75 | an action emits its value and rendering goes on behind it |
| `Escaping.KindFollowsFirstWord` | scripts/package/templated-fields.py:62-75 | which actions open, continue and end a block |
| `Escaping.RenderEscape` | scripts/package/templated-fields.py:62-75 | an escape renders to the delimiter it stands for |
| `Escaping.RenderProtect` | scripts/package/templated-fields.py:62-75 | escaped text renders to the text, or not at all where pairing leaves a brace before `}}` |
| `Escaping.LeavesBraceIsOddRun` | scripts/package/templated-fields.py:62-75 | that happens exactly where an odd run of `{` is followed by `}}` |
| `Escaping.EscapeRoundTrip` | scripts/package/templated-fields.py:62-75 | for every string, rendering the escaped text gives it back if and only if no odd run of `{` is followed by `}}` |
| `Escaping.OddRunDoesNotParse` | scripts/package/templated-fields.py:62-75 | the shortest string that cannot be shipped |
| `Escaping.RenderFragment` | scripts/package/templated-fields.py:86-89 | a text that renders, control blocks included, and does not end in a brace renders to the same in front of any other |
| `Marking.EmitMark` | scripts/package/templated-fields.py:62-75 | a string nothing was put into is written as `protect` writes it |
| `Marking.ReplaceWithout` | scripts/package/templated-fields.py:155-156 | a replacement leaves text that does not hold the literal |
| `Marking.ReplaceFirst` | scripts/package/templated-fields.py:155-156 | and otherwise replaces its first occurrence and goes on behind it |
| `Marking.ReplaceNothing` | scripts/package/templated-fields.py:155-156 | the empty literal is found around every character |
| `Marking.RenderEmitted` | scripts/package/templated-fields.py:62-75 | original text with texts put in renders to the original with their values, if and only if no single brace is left before an action |
| `Marking.ReplaceEmitted` | scripts/package/templated-fields.py:135-156 | replacing a literal in the emitted text is replacing it in the original, where that is the only place it occurs in |
| `Marking.ContainsEmitted` | scripts/package/templated-fields.py:150-155 | and it is found there exactly when the original holds it |
| `Marking.ClearOfOthers` | scripts/package/templated-fields.py:135-156 | which is so for every literal that overlaps none of the texts put in and neither escape |
| `Marking.ActionsAreApart` | scripts/package/templated-fields.py:135-156 | a text that is actions from end to end overlaps no literal it does not hold |
| `Marking.MeaningOfReplaced` | scripts/package/templated-fields.py:135-156 | one substitution in an untouched string means Python's own replacement by the value |
| `Dumping.DumpedAsItIsExactly` | scripts/package/templated-fields.py:175-203 | the dumper leaves a string as it is if and only if it does not hold `{{` on several lines, or no line ends in white space and it does not begin with a newline |
| `Dumping.OnlyBlocksAreStripped` | scripts/package/templated-fields.py:194-203 | only a string that holds `{{` and spans lines is stripped at all |
| `Dumping.StripsLineByLine` | scripts/package/templated-fields.py:195-203 | what it strips is the white space at the end of every line and the newlines in front |
| `Dumping.TidyEmitted` | scripts/package/templated-fields.py:195-203 | what it strips from escaped text it strips from the original text in it |
| `Dumping.WrittenRoundTrip` | scripts/package/templated-fields.py:62-203 | a string survives being escaped, written and rendered if and only if no odd run of `{` is followed by `}}` and there was nothing to strip |
| `Dumping.LeadingNewlineIsLost` | scripts/package/templated-fields.py:195-203 | a newline in front of `{{` does not come back |
| `Templating.WrittenAsItIsExactly` | scripts/package/templated-fields.py:231-232 | a document is written verbatim if and only if there is nothing to strip from any string or key |
| `Templating.VerbatimLosesANewline` | scripts/package/templated-fields.py:231-232 | a document that is not |
| `Templating.DocumentRoundTrip` | scripts/package/templated-fields.py:62-203 | a document survives escaping, writing and rendering under all values if and only if each string does and no key holds `{{` |
| `Templating.IntegerFieldIsItsNumber` | scripts/package/templated-fields.py:208-228 | an integer field renders to the number its expression prints |
| `Templating.OpenKeyDoesNotComeBack` | scripts/package/templated-fields.py:62-75 | a document with such a key, whatever stands under it |
| `Templating.AssignSucceedsExactly` | scripts/package/templated-fields.py:78-89 | assigning works exactly when everything before the last step exists and that step fits |
| `Templating.IndexMeansItsPlace` | scripts/package/templated-fields.py:78-89 | a list index means the element at that place, a negative one counts from the end, and any other is refused |
| `Templating.KeyMeansItsField` | scripts/package/templated-fields.py:78-89 | a key means the field of that name; a missing one is added at the end |
| `Templating.StepByStep` | scripts/package/templated-fields.py:78-89 | a longer path is its first step and the rest in what that leads to |
| `Templating.AssignSetsThePath` | scripts/package/templated-fields.py:86-89 | what was assigned stands at the path |
| `Templating.AssignKeepsTheRest` | scripts/package/templated-fields.py:86-89 | nothing off the path changes |
| `Templating.AssignBelow` | scripts/package/templated-fields.py:86-89 | setting something below a place is setting it in what stands there |
| `Operations.ChangeAllKeepsIdentity` | scripts/package/templated-fields.py:92-132 | replacing a literal throughout an object never changes its type or name |
| `Operations.ChangedAtPath` | scripts/package/templated-fields.py:92-132 | and changes every string at every other path |
| `Operations.SubstituteExactly` | scripts/package/templated-fields.py:135-156 | a `replace` is refused unless its path leads to a string holding the literal; it replaces it there and changes nothing off the path |
| `Operations.SubstituteAllExactly` | scripts/package/templated-fields.py:320-332 | a `replaceAll` is refused unless a string it reaches holds the literal, and replaces it in all of them |
| `Operations.AssignIdentity` | scripts/package/templated-fields.py:86-89 | what setting a value of any shape at any path makes of kind and name: on them, inside them, or in place of the metadata |
| `Operations.ApplyAllIdentity` | scripts/package/templated-fields.py:320-337 | what a list of operations makes of a document's identity follows from the identity and the operations alone |
| `Declarations.EscapedOnceThenDeclared` | scripts/package/templated-fields.py:302-343 | however many declarations name a document, it is escaped once and then carries all their fields in order |
| `Declarations.Declare` | scripts/package/templated-fields.py:302-354 | the loop refuses exactly when some declaration matches nothing, and collects each named document once |
| `Declarations.Guards` | scripts/package/templated-fields.py:344-350 | a conflict is reported exactly when two declarations put different conditions on one object; otherwise each keeps its own |
| `Declarations.Package` | scripts/package/templated-fields.py:261-403 | ships exactly when everything matches without conflict, what it then writes in which half under which guard, what it left alone unchanged exactly when there was nothing to strip, and each document in exactly one half if and only if the two conditions of the next row hold |
| `Declarations.EmittedExactlyOnce` | scripts/package/templated-fields.py:374-381 | every document is emitted exactly once if and only if no declared identity is shared by two documents and no declaration renames its document out of the declared identities |
| `Declarations.SteadyIsEmittedExactlyOnce` | scripts/package/templated-fields.py:302-381 | where declarations leave kind, metadata and name alone, if and only if no declared identity is shared |
| `Declarations.ShippedIdentityIsRight` | scripts/package/templated-fields.py:302-343 | the identity of what ships, told from documents and declarations |
| `Declarations.SharedIdentityIsLost` | scripts/package/templated-fields.py:374-381 | two objects of one declared name: the first is in neither half |
| `Declarations.RenamedIsDoubled` | scripts/package/templated-fields.py:374-381 | an object renamed by its declaration: it is in both |
| `Declarations.PackagedDocumentMeans` | scripts/package/templated-fields.py:302-403 | the template written for a document means what all declarations naming it say, in any mixture of `value` of any shape, `replace` and `replaceAll` |
| `Drafts.ApplyEmitted` | scripts/package/templated-fields.py:320-337 | an operation on the escaped document is that operation on the original text, escaped; refused exactly together |
| `Drafts.DraftRenders` | scripts/package/templated-fields.py:175-354 | a document with texts and whole values put in, live keys included, renders as it is written if and only if it leaves no stray brace, and then to what it means |
| `Drafts.DrawnMeans` | scripts/package/templated-fields.py:334-337 | a value of any shape means what it renders to by itself |
| `Drafts.OperationsPreserveMeaning` | scripts/package/templated-fields.py:302-354 | for every document and every list of operations, with values of any shape, whose literals occur in original text only: refused together, rendering exactly without stray braces, to what was meant |
| `Literals.CompatibleOperationsPreserveMeaning` | scripts/package/templated-fields.py:302-354 | the same, with that condition read off the declarations: no literal overlaps a text an earlier operation put in |
| `Literals.ActionsAreCompatible` | scripts/package/templated-fields.py:320-337 | where only actions are put in among other text, it is enough that none holds a later literal |
| `Literals.ActionsAreInsertable` | scripts/package/templated-fields.py:135-156 | actions, and any text without a brace at its ends, may be put in among other text |
| `Literals.InlineIsShippable` | scripts/package/templated-fields.py:195-203 | where what is put in stays within a line, nothing the dumper strips spoils the meaning |
| `Meanings.ValueMeansItsValue` | scripts/package/templated-fields.py:86-89 | a `value` of any shape means setting its value at the rendered path, whatever was done to the document before, where the path agrees |
| `Meanings.ValuesMeanTheirValuesExactly` | scripts/package/templated-fields.py:86-89 | and every value does so if and only if no step of the path follows a key behind one that renders to the same |
| `Meanings.LiveKeyHidesAPath` | manifests/spoke/spoke-catalog/templated-fields.yaml:275-289 | a mapping with a live key in which a later path does not agree |
| `Meanings.UndisturbedPathsAgree` | scripts/package/templated-fields.py:319-343 | all paths agree where none runs into an earlier value with live keys |
| `Meanings.TemplatingPreservesMeaning` | scripts/package/templated-fields.py:302-354 | the written template renders, under any values, to the original document with each rendered value set at its rendered path, or is refused where that is |
| `Meanings.RenderedDocumentByPath` | scripts/package/templated-fields.py:302-354 | path by path, for paths that part: each declared path holds its own value, of any shape, every path off them what the original held |
| `Meanings.ReplaceAllMeansReplacing` | scripts/package/templated-fields.py:92-132 | a `replaceAll` on an untouched document means replacing the literal by the value everywhere but in its identity |
| `Packing.ReadsBackPart` | scripts/package/distribution.py:68-81 | one file gives back the clean documents it was written from |
| `Packing.TextModeExactly` | scripts/package/distribution.py:75-76 | every line end in any of its three spellings is read as one newline, and nothing else is touched |
| `Packing.ReadsAreClean` | scripts/package/distribution.py:68-81 | whatever is read, in text mode, is clean, so nothing unclean can come back |
| `PackedFiles.PackingIsUnique` | scripts/package/distribution.py:92-107 | the packing specification leaves no choice: one list and one limit have one packing |
| `PackedFiles.SameFiles` | scripts/package/split-rendered.py:33-56 | so both packing loops write the very same texts |
| `PackedFiles.WriteDocs` | scripts/package/distribution.py:92-112 | the same documents in order, none divided, over the limit only alone, a new part only when needed |
| `PackedFiles.SplitRendered` | scripts/package/split-rendered.py:28-56 | the non-blank documents of the text, packed to the same specification; fails exactly on none |
| `PackedFiles.NamesSortByIndexExactly` | scripts/package/distribution.py:110-112 | name order is part order if and only if there are at most a thousand parts |
| `PackedFiles.NameReadsItsIndex` | scripts/package/distribution.py:110-112 | a name is its index in decimal, filled up to three digits |
| `Text.LessExactly` | scripts/package/distribution.py:74-74 | one name sorts before another if it is a beginning of it, or is below it where they first differ |
| `PackedFiles.SortedListingIsUnique` | scripts/package/distribution.py:74-74 | a directory has one sorted listing |
| `PackedFiles.PackReadRoundTrip` | scripts/package/distribution.py:68-112 | reading back a packing into at most a thousand parts returns the documents if and only if all are clean, carriage returns included |
| `PackedFiles.RoundTripExactly` | scripts/package/distribution.py:68-112 | documents without repeats, in any number of parts, come back if and only if all are clean and there are at most a thousand parts |
| `PackedFiles.ThousandAndOneAreMisread` | scripts/package/distribution.py:68-112 | a directory of a thousand and one parts that does not give its documents back |
| `PackedFiles.ReturnIsLost` | scripts/package/distribution.py:68-81 | a document whose carriage return comes back as a newline |
| `PackedFiles.SharedFilesFitTheLimit` | scripts/package/distribution.py:92-112 | a file of several documents is within the limit |
| `Folding.Counts` | scripts/package/distribution.py:258-261 | each digest is counted once per variant carrying it |
| `Folding.FoldVariants` | scripts/package/distribution.py:258-270 | shared holds what every variant carries, each directory the rest of its variant, and no directory is empty |
| `Folding.CandidatesExactly` | scripts/package/distribution.py:328-331 | environment with provider, then environment, then provider, as far as they are known |
| `Folding.FoldingLosesNothing` | scripts/package/distribution.py:322-345 | a topology with one packaged candidate gets exactly that variant's documents; the same multiset if and only if shared documents occur as often in it as in the first variant |
| `Folding.FoldingIsAPermutation` | scripts/package/distribution.py:322-345 | hence the same multiset where no variant repeats a document |
| `Folding.MeantVariantIsEmittedExactly` | scripts/package/distribution.py:327-341 | the variant meant is the first candidate packaged at all; its documents come out if and only if it has some of its own or no later candidate has |
| `Folding.SharedVariantFallsThrough` | scripts/package/distribution.py:327-341 | a cluster that gets another variant's document |
| `Inventory.ByMachineName` | cmd/kakt/spoke_match_inventory.go:178-186 | the index holds each name's servers in listing order and no empty name |
| `Inventory.MachineRowIsRight` | cmd/kakt/spoke_match_inventory.go:188-227 | each of the four states of a machine's row, exactly when it applies |
| `Inventory.MachineRowListsItsServers` | cmd/kakt/spoke_match_inventory.go:188-227 | the row lists exactly the servers that carry the machine's name |
| `Inventory.UnclaimedRowsAreRight` | cmd/kakt/spoke_match_inventory.go:229-245 | each server no machine answers for has a row of its own: unattributable without a name, otherwise without object |
| `Inventory.ParsesWhatIsPrinted` | cmd/kakt/spoke_match_inventory.go:257-267 | a number that 64 bits hold is read back from its decimal form, and no other is |
| `Inventory.ParsedIsSigned` | cmd/kakt/spoke_match_inventory.go:257-267 | only signed digits are a number |
| `Inventory.AgreesExactly` | cmd/kakt/spoke_match_inventory.go:211-217 | a machine that names a server agrees with that one alone, and one that names none with any |
| `Inventory.ClassifyInventory` | cmd/kakt/spoke_match_inventory.go:177-254 | both counts and all rows, sorted by state and object; rows number matched + unresolved = machines + unclaimed servers |
| `Inventory.CountsIgnoreOrder` | cmd/kakt/spoke_match_inventory.go:177-254 | neither count depends on the order of either inventory |
| `Inventory.ZeroUnresolvedIsBijection` | cmd/kakt/spoke_match_inventory.go:177-254 | with distinct names, zero unresolved if and only if machines and servers pair one to one by name with no id against it |
| `Inventory.ResolvedIsBijectionExactlyForDistinctNames` | cmd/kakt/spoke_match_inventory.go:188-192 | given zero unresolved, there is such a pairing if and only if names are distinct |
| `Inventory.DuplicateNamesHideAMissingServer` | cmd/kakt/spoke_match_inventory.go:188-192 | two objects of one name and one server: nothing unresolved, no pairing |
| `Inventory.MayRelease` | cmd/kakt/spoke_match_inventory.go:139-150 | release is permitted exactly for a non-empty comparison with nothing unresolved |
| `Jwks.Refill` | internal/auth-proxy/jwt.go:161-173 | every kid maps to the last convertible key published under it, others are left |
| `Jwks.FoldIsBigEndian` | internal/auth-proxy/jwt.go:235-238 | the exponent is the big-endian value of its bytes, as far as 64 bits hold it |
| `Jwks.ConvertExactly` | internal/auth-proxy/jwt.go:215-245 | exactly an RSA key whose numbers decode converts, to its modulus and its exponent as a signed 64-bit number |
| `Jwks.PublishedIsLast` | internal/auth-proxy/jwt.go:161-173 | the key published under a kid is the last of its set that converts |
| `Jwks.Validator.GetKey` | internal/auth-proxy/jwt.go:128-183 | asks for the set if and only if nothing fresh is cached and a refresh is due; answers the latest key of its kid, unexpired or just fetched; none only when limited, unanswered or unpublished |
| `Jwks.Validator.Locked` | internal/auth-proxy/jwt.go:139-183 | the part under the mutex when no other call acts in between: when it asks, what it leaves, and that it answers with an expired key if and only if one was cached and the fetched set no longer holds its kid |
| `Jwks.Serve` | internal/auth-proxy/jwt.go:128-183 | over every sequential run each answer is the latest key published by then and fresh, and no attempt, answered or not, starts within the interval of the previous success |
| `KeyCache.StepKeepsInv` | internal/auth-proxy/jwt.go:128-183 | every single Load, Delete, Store, lock, request and answer of any call keeps the invariant of the cache, the mutex and the limit |
| `KeyCache.RateIsLimitedOverEveryRun` | internal/auth-proxy/jwt.go:139-158 | over every interleaving of any number of calls, no attempt, answered or not, starts within the interval of the last success before it, and no two are under way at once |
| `KeyCache.LoadIsExactly` | internal/auth-proxy/jwt.go:130-180 | a Load finds exactly the latest key among those stored so far, unless it was deleted since |
| `KeyCache.AnswersAreKnownKeys` | internal/auth-proxy/jwt.go:128-183 | every answer of any call in any run is such a key, and unexpired when read unless it comes from the look-up after a refill |
| `KeyCache.FoundIsLatestExactly` | internal/auth-proxy/jwt.go:161-173 | it is the latest key published in the sets fetched by then if and only if no set being stored holds another under its kid |
| `KeyCache.LastLookExactly` | internal/auth-proxy/jwt.go:175-183 | the look-up after a refill refuses a published key if and only if another call's deletion came last, and answers an unpublished one if and only if an entry is there, which had then expired |
| `KeyCache.NeverStuck` | internal/auth-proxy/jwt.go:128-183 | as long as some call has not answered, some call can take a step |
| `KeyCache.OvertakenKeyIsAnswered` | internal/auth-proxy/jwt.go:161-173 | a run in which a look-up between two Stores answers the first key of a kid published twice |
| `KeyCache.PublishedKeyIsRefused` | internal/auth-proxy/jwt.go:130-136 | a run in which a late deletion makes another call refuse a key its set publishes |
| `KeyCache.ExpiredKeyIsAnswered` | internal/auth-proxy/jwt.go:175-180 | a run of two calls that answers with an expired key |
| `Jwks.FailedAttemptsAreNotLimited` | internal/auth-proxy/jwt.go:149-158 | two failed attempts at one moment |
| `Jwks.LimitedIsSpaced` | internal/auth-proxy/jwt.go:149-152 | a limit on attempts is a limit between successes |
| `Jwks.FetchesAreSpread` | internal/auth-proxy/jwt.go:149-152 | j - i successful fetches take at least that many intervals |
| `Jwks.LatestPublishes` | internal/auth-proxy/jwt.go:161-173 | the backing fetch of an entry is the most recent one that published its kid |
| `Kustomize.ExpandKustomize` | scripts/validate/architecture-consistency.py:138-187 | terminates with exactly the paths some chain of local references leads to, the least closed set holding the seeds, in any listing order |
| `Kustomize.CollectSeeds` | scripts/validate/architecture-consistency.py:152-159 | the seeds are the declared paths and every kustomization below a declared directory that holds none itself |
| `Kustomize.ListsExactly` | scripts/validate/architecture-consistency.py:176-183 | a kustomization leads to the directories it names and those of the files it names, and nowhere else |
| `Kustomize.BelowExactly` | scripts/validate/architecture-consistency.py:152-159 | below a directory is itself and whatever continues its path |
| `Kustomize.ClosedAndReachedIsLeast` | scripts/validate/architecture-consistency.py:160-187 | a closed set of reached paths holding the seeds is the least one |
| `Kustomize.Follow` | scripts/validate/architecture-consistency.py:172-186 | one kustomization adds exactly what it lists locally and queues exactly what is new |
| `Releases.Newest` | scripts/release/release-data.py:118-129 | the highest matching version published by then, or none exactly when nothing matches |
| `Releases.LexExactly` | scripts/release/release-data.py:128-128 | one version is not above another if and only if it is how that begins, or is below it where they first differ |
| `Releases.NewestIsHighest` | scripts/release/release-data.py:118-129 | no release that counts has a version above the newest in that sense, nor an equal version with a later tag |
| `Releases.AnswerIsHighestOfWindow` | scripts/release/release-data.py:131-144 | nor has any of the window one above the answer |
| `Releases.ReadPages` | scripts/release/release-data.py:131-144 | the paging loop terminates, reads consistently, covers the window, and reads no page once what it has is enough |
| `Releases.Upstream.Releases` | scripts/release/release-data.py:131-144 | whatever the cache held, the answer is published by then and at least as high as every stable match of the window |
| `Releases.StoppingCovers` | scripts/release/release-data.py:135-138 | stopping early leaves nothing of the window unread |
| `Releases.WindowIsEnough` | scripts/release/release-data.py:131-144 | the answer equals that of reading everything if and only if no older release is higher |
| `Encodings.HexRoundTrip` | cmd/kakt/escrow_recovery.go:121-123 | base16 (section 8 of RFC 4648) decodes what it encodes |
| `Encodings.B64RoundTrip` | cmd/kakt/escrow_recovery.go:118-120 | base64 with padding (section 4 of RFC 4648) decodes what it encodes |
| `Encodings.KnownTexts` | cmd/kakt/escrow_recovery.go:118-123 | both give test vectors of section 10 of RFC 4648 |
| `Encodings.EitherCase` | cmd/kakt/escrow_recovery.go:121-123 | base16 is read in either case |
| `Fingerprint.OneKeyOneDigest` | cmd/kakt/escrow_recovery.go:95-125 | every 32-byte key has one fingerprint raw, in base16 and in base64, with any white space around the encoded forms |
| `Fingerprint.WideSpaceIsSpace` | cmd/kakt/escrow_recovery.go:117-121 | the white space trimmed off bytes is, in UTF-8, the white space of text |
| `Fingerprint.HexIsNotBase64OfAKey` | cmd/kakt/escrow_recovery.go:117-125 | 64 base16 digits can only be base64 of 48 bytes, so the first branch never takes them |
| `Fingerprint.ComparisonIsMeaningful` | cmd/kakt/escrow_recovery.go:100-125 | fingerprints of two keys in any spellings of any forms agree exactly when their digests do |
| `Fingerprint.DecodeKeyToHex` | cmd/kakt/encryption_rotate.go:352-361 | succeeds exactly on base64 of 32 bytes, and gives base16 of the same bytes |
| `Fingerprint.EscrowedKeyKeepsItsFingerprint` | cmd/kakt/encryption_rotate.go:262-272 | what is escrowed has the fingerprint of what is live |
| `Fingerprint.RenderedKeyComesBack` | cmd/kakt/encryption_rotate.go:352-361 | a key rendered in base64 always decodes, and only keys do |
| `Allowlists.Parse` | internal/support/allowlist.go:79-132 | accepts, unchanged, exactly the non-empty lists of well-formed, uniquely named collectors; a refusal names the first at fault and a true fault |
| `Allowlists.Effective` | internal/support/allowlist.go:140-167 | computes the scope the other lemmas are about |
| `Allowlists.SubtractionComposes` | internal/support/allowlist.go:140-167 | subtracting twice is subtracting the joined denylist once |
| `Allowlists.TrimExactly` | internal/support/allowlist.go:141-144 | a denied entry is taken without the space around it |
| `Allowlists.TrimmedHasNoSpaceAround` | internal/support/allowlist.go:141-144 | and has none at either end |
| `Allowlists.SpacedEntryDenies` | internal/support/allowlist.go:141-144 | so a name is denied however it is spaced |
| `Allowlists.ScopeIsSubtraction` | internal/support/allowlist.go:134-167 | a field may leave if and only if it was allowed and neither its collector, its name nor its qualified name is denied |
| `Allowlists.ScopeStaysReviewed` | internal/support/allowlist.go:140-167 | what is left would still be accepted, and every collector left emits something |
| `Allowlists.Fields` | internal/support/allowlist.go:187-200 | exactly the qualified names of what may leave, each once, in order |
| `Collection.Project` | internal/support/allowlist.go:175-183 | exactly the emitted fields that were observed |
| `Collection.CollectMetrics` | internal/support/collect.go:105-135 | the observations of a metrics collector; a scan that ended in an error is a skip |
| `Collection.MatchingIsExact` | internal/support/collect.go:113-133 | one observation per sample of exactly the query's name, in its place |
| `Collection.MatchingComesFrom` | internal/support/collect.go:113-133 | and none of any other |
| `Collection.SampleFieldsReport` | internal/support/collect.go:122-131 | its number under two names, otherwise the last label of each |
| `Collection.CollectArtefact` | internal/support/collect.go:151-177 | at most one observation, from the schema's fields |
| `Collection.ArtefactIsBoundedBySchema` | internal/support/collect.go:156-172 | it holds exactly the schema's fields that occur |
| `Collection.FirstOccurrenceWins` | internal/support/collect.go:162-171 | each with the value of its first line |
| `Collection.Collect` | internal/support/collect.go:51-88 | records and skip reasons of the whole run |
| `Collection.RecordsAreReviewedAndNotDenied` | internal/support/collect.go:80-84 | every field of every record was reviewed for its collector and is denied in no form |
| `Collection.PayloadRevealsExactlyTheScope` | internal/support/collect.go:51-88 | two readers give one payload if and only if they agree, per collector, on the skip reason, the number of observations and their emitted fields |
| `Collection.DeniedFieldsShowOnlyPresence` | internal/support/collect.go:51-177 | for every reviewed allowlist and denylist, readers whose samples of the query and first lines are the same as far as emitted fields go give one payload if and only if, of every artefact, both or neither holds a field of the schema |
| `Collection.MetricsDoNotInterfere` | internal/support/collect.go:105-135 | metrics collectors show nothing that is not emitted |
| `Collection.DeniedFieldShowsItsPresence` | internal/support/collect.go:156-177 | two readers that differ in a denied field only and give different payloads |
| `Collection.NothingIsSilentlyOmitted` | internal/support/collect.go:28-31 | every collector has records or a skip reason, never both |
| `Collection.SkippedCarriesErrorsExactly` | internal/support/collect.go:72-79 | a collector is skipped with its reader's error text exactly when that failed, and otherwise only with a text of the program's own |
| `Collection.AnyErrorTextLeaves` | internal/support/collect.go:72-76 | any text leaves that way, with the collector's fields denied |

## Left out

- kubectl, helm, HTTP, git and file access: reads and writes of abstract state that may fail.
- Cryptography and randomness: sealing is uninterpreted, digests are arbitrary functions, new keys are new.
- `escrow verify-recovery`: fixed to the generation-1 prefix, so it does not compose with a rotation.
- Two operators running a rotation at once: commands are modelled one at a time, with the cluster acting freely in between.
- Generations are unbounded; the failure of `strconv.Atoi` on absurd names is not modelled.
- RotateCommand.Box.Enable: the ClusterClass that `--apply-class` applies afterwards is not part of the protocol's state; the escrow holds bytes, so a text there that is not base16 at all does not occur.
- BoundaryRun.Bootstrap: what a check inspects is an external call; the shipped table is not restated, every table is covered.
- Activation: the inventory gate, the tenant seed and bundle version retention; a cancelled retry counts as a rejected attempt.
- Delivery: the parsing of the store credential and of the SSE-C key are inputs, as are the contents of escrow payloads; the Secret's type is not modelled.
- Escaping.Render: an `if`, `with` or `range` block is rendered as one, to a given value; Helm's trim markers, comments, raw strings and definitions are refused rather than rendered.
- Marking.ReplaceEmitted: literals that hold a delimiter or begin or end with a brace, which an escape could split, and the empty literal, which `Operations.Apply` does model.
- Marking.ContainsEmitted: the same literals.
- Marking.ClearOfOthers: literals that occur in an escape, such as a single quote or a blank, of which nothing is promised.
- Drafts.ApplyEmitted: the same literals.
- Drafts.OperationsPreserveMeaning: a multi-line string from which the dumper strips white space and into which a text with a line break, or ending in white space, was put among others.
- Declarations.PackagedDocumentMeans: nothing is promised of a literal that overlaps a text put in before it, where the packager would edit a live expression.
- YAML parsing and quoting, and what a reader makes of a key that is there twice (the first is taken); non-string keys, literals that occur in the placeholder of an integer field, and `values.yaml` defaults.
- Packing: sizes are in characters, as the code counts them, not bytes.
- Folding: a variant named `_shared`, and a component mixing a nameless variant with named ones.
- Inventory.ClassifyInventory: the detail text of the rows, and the order of rows equal in state and object, which the library sort leaves open.
- Jwks: token validation, and reading the set over HTTP.
- Releases: releases without a publication date, and the other sources of versions.
- Kustomize: `reachable` and `declared_paths`, which are plain prefix tests and text scans.
- Collection.Collect: the regular expressions that cut samples and lines out of text are the reader's.
