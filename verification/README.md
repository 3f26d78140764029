# Verified model of the image builder's core

This project models six parts of the builder and proves what they promise.

- **Boot configuration** (`BootText`, `BootArena`, `BootSyntax`, `BootGrammar`,
  `BootParser`, `BootConfig`, `BootOverlay`). A specification of the Linux
  bootconfig language on the text still to be read, a concrete syntax whose
  written forms are exactly the accepted texts, the cursor parser as a class
  proved against the specification, the canonical printer, and overlays and
  root binding carried through the compressed text.
- **Committed context and COPY selection** (`Paths`, `Resolver`, `Trees`, `Scan`,
  `Context`, `Capture`, `Selection`, `ExplicitPaths`, `Sources`, `Stability`,
  `Preparation`). Git trees are finite inductive values, paths are component
  sequences, an ordered map is a map with its ascending key sequence. The three
  resolvers, the worklist scan, on-demand expansion of submodules, the wildcard
  walk, what further expansion leaves as it is, and the preparation loops.
- **Glob patterns** (`Utf8`, `Glob`, `GlobParser`). The pattern parser and the
  state-vector matcher against the recursive meaning of a pattern over bytes.
- **GUID partition tables** (`Crc`, `Fields`, `Gpt`, `Devices`, `GptReader`,
  `GptSound`, `GptLayout`, `GptRoundTrip`). Wire records, a seekable device, the
  reader, the layout and the writer, following sections 5.2.3 and 5.3 of the
  UEFI Specification.
- **Plans** (`Plans`, `Planner`, `Availability`, `Outputs`, `Pipeline`). The
  ordering of stages, the two-bit availability analysis, stage outputs, image
  composition with its rebinding rule, and the stage loop.
- **Start gate and references** (`Completion`, `Gate`, `References`). The gate as
  one state machine over all interleavings of both parties, and the image
  reference canonicaliser.

`Wrappers`, `Strings`, `Orders` and `Bytes` are shared vocabulary. Methods take the
form of the source's loops and mutable objects and are proved against functions;
the lemmas about those functions are the results.

`dafny verify dfyconfig.toml` checks everything.

## Reading notes

- Two statements one might expect are false of the code, and the exact condition
  is proved instead. Parsing can accept a text that cannot be printed again
  (`BootConfig.AcceptsExactly`, with the text in `BootConfig.AwkwardRejected`).
  And a selected image with a root need not have `corium.root` equal to that
  root's hash (`Outputs.RootKeyMatchesExactly`, read off the plan in
  `Outputs.SelectedRootKey`, with the family in `Outputs.AuthoredRootSurvives` and a
  concrete plan in `Outputs.AuthoredRootWitness`).
- The tests of the matcher describe names as character sequences; the code
  advances a star by byte, and the model follows the code
  (`Glob.StarSplitsRunes`).
- Explicit components of a COPY pattern are resolved one after the other, each with
  a fresh budget of 40 links: exactly what they select is
  `ExplicitPaths.ExplicitExactly`, and whatever one resolution of the whole path
  finds is selected (`ExplicitPaths.ExplicitFindsResolved`).
- The size limit of a backing device is a parameter of type `Devices.Limit`: whole
  4096-byte blocks, at most 2^62 bytes. Its value lives in a crate that is not
  part of this model. The size in sectors is that size divided by 512.
- Integers are unbounded; where the source's 64-bit sums matter they are bounded
  by `U64` explicitly (`GptReader.ValidateHeaders`, `GptReader.Extent`,
  `Devices.BlockAt`, `GptSound.SoundExtents`).
- In the gate, a stray packet from the child's side may be anything but a
  well-formed status report; deadlines, cancellation and peer loss are steps that
  may happen at any time. A receiver acts on the oldest packet.

## Model

| member | source | states |
|---|---|---|
| BootParser.Parser.Spaces | src/boot_config/parser.rs:44-51 | consumes exactly the longest run of white space, with or without line ends |
| BootParser.Parser.Comment | src/boot_config/parser.rs:53-57 | consumes exactly up to the next line end or the end of the text |
| BootParser.Parser.QuotedValue | src/boot_config/parser.rs:172-190 | a quoted value is the text up to the same quote, and only a delimiter or the end may follow |
| BootParser.Parser.PlainValue | src/boot_config/parser.rs:191-206 | an unquoted value runs to a delimiter and loses trailing white space, except at the end of the text |
| BootParser.Parser.Value | src/boot_config/parser.rs:170-209 | one value as the grammar has it: both spellings, and the printable-character check |
| BootParser.Parser.Gap | src/boot_config/parser.rs:155-161 | white space and comments after a comma are skipped, whatever their order |
| BootParser.Parser.Array | src/boot_config/parser.rs:151-168 | a comma-separated list, refused beyond 8192 items |
| BootParser.Parser.Register | src/boot_config/parser.rs:95-100 | a valid key adds itself and all dotted ancestors to the node set, or the node limit refuses it |
| BootParser.Parser.Word | src/boot_config/parser.rs:79-89 | the longest run of key characters |
| BootParser.Parser.Store | src/boot_config/parser.rs:119-133 | the effect of `=`, `:=` and `+=` on values and on the allocation counter, which never underflows |
| BootParser.Parser.Assignment | src/boot_config/parser.rs:111-134 | operator, list and effect together |
| BootParser.Parser.Statement | src/boot_config/parser.rs:101-139 | everything after a key: group, assignment, or a delimiter |
| BootParser.Parser.Scope | src/boot_config/parser.rs:59-141 | one scope parses as the grammar has it; recursion ends because nesting never exceeds the 16 segments of a key, and every pass consumes text |
| BootParser.Parse | src/boot_config/parser.rs:18-34 | the cursor parser computes the specification of the language, on every text |
| BootGrammar.LiteralParses | src/boot_config/parser.rs:170-209 | every written form of a value parses to that value |
| BootGrammar.ListParses | src/boot_config/parser.rs:151-168 | every written form of a list parses to its items |
| BootGrammar.ScriptParses | src/boot_config/parser.rs:59-141 | a written tree parses to the fold of its dotted statements, from any state and before any rest |
| BootGrammar.ScopeRead | src/boot_config/parser.rs:59-141 | whatever a scope accepts is the written form of a tree |
| BootGrammar.Flattens | src/boot_config/parser.rs:18-34 | groups flatten: the parse of any written form of a tree is the fold of the override semantics over its fully dotted statements, failures included |
| BootGrammar.ParsesExactly | src/boot_config/parser.rs:18-210 | a text parses to a state if and only if it is the written form of some tree with that meaning |
| BootArena.ApplyAccounted | src/boot_config/parser.rs:95-149 | one declaration or write keeps the accounting: the key set covers all tree nodes, the counter covers all live values, the sum stays within 8192 |
| BootArena.FoldAccounted | src/boot_config/parser.rs:95-149 | so every accepted file satisfies the accounting |
| BootConfig.PushItems | src/boot_config/mod.rs:112-117 | printing a list succeeds exactly when every item can be quoted, and gives its canonical text |
| BootConfig.PushEntries | src/boot_config/mod.rs:107-120 | printing a map in key order gives its canonical text, or fails exactly on an unquotable value |
| BootConfig.TryFrom | src/boot_config/mod.rs:87-123 | the constructor accepts exactly the representable maps, drops bare parents of other keys and prints the rest |
| BootConfig.FromStr | src/boot_config/mod.rs:125-130 | parse, then canonicalise |
| BootConfig.PrintParses | src/boot_config/mod.rs:107-121 | the text of any representable map, bare parents included, parses to exactly that map, whichever quoting each value needed |
| BootConfig.RoundTrip | src/boot_config/mod.rs:57-130 | for every map the constructor accepts, parsing its text gives the normalised map and prints the same text again |
| BootConfig.AcceptedRoundTrip | src/boot_config/mod.rs:125-141 | every accepted text is a fixed point: what it reads as is what its canonical text reads as |
| BootConfig.NormalisedRepresentable | src/boot_config/mod.rs:103-106 | dropping bare parents keeps a map representable |
| BootConfig.ParsedWithinLimit | src/boot_config/mod.rs:91-105 | the node limit of the constructor never refuses what the parser produced |
| BootConfig.AcceptsExactly | src/boot_config/mod.rs:57-130 | a text is accepted exactly when its tree has a meaning and its last value is not an unquoted one ending the text in white space with both quotes in it |
| BootConfig.ParsedIsAccepted | src/boot_config/mod.rs:125-130 | so any text that parses and does not end in white space is accepted |
| BootConfig.AwkwardRejected | src/boot_config/parser.rs:200-205 | the concrete text that parses and yet cannot be printed again |
| BootOverlay.DecodeBytes | src/pipeline/boot_config.rs:13-25 | decoding a component: empty bytes are the empty configuration |
| BootOverlay.Overlay | src/pipeline/boot_config.rs:47-75 | the edit loop computes the overlay of the base map |
| BootOverlay.Component.Bind | src/pipeline/boot_config.rs:76-85 | the in-place binding computes its specification, and changes nothing on failure |
| BootOverlay.EncodeDecode | src/pipeline/boot_config.rs:13-35 | the encoded form of a canonical configuration decodes to exactly it |
| BootOverlay.OverlayIsMapUpdate | src/pipeline/boot_config.rs:47-75 | an overlay decodes to the base map with the given keys replaced or deleted, then normalised; it fails exactly when the base does not decode or the edited map is not representable |
| BootOverlay.BindIsRootUpdate | src/pipeline/boot_config.rs:76-85 | binding changes only an existing `corium.root`, to the hex root; it fails only where a bare key would exceed the node limit by gaining a value |
| BootOverlay.BindIdempotent | src/pipeline/boot_config.rs:76-85 | binding twice to one root gives the same bytes |
| BootOverlay.BindKeepsDeletion | src/pipeline/boot_config.rs:47-85 | a key an overlay deleted is not brought back by binding |
| Utf8.DecodeRune | src/copy/pattern.rs:159-174 | the shortest valid prefix of at most four bytes, or one replacement character |
| Utf8.FirstOfEncode | src/copy/pattern.rs:159-168 | a well-formed character at the front is decoded with its full width |
| Glob.Step | src/copy/pattern.rs:66-97 | one token marks exactly the offsets it can reach from marked ones, the in-place star propagation included, with every index in bounds |
| Glob.Matches | src/copy/pattern.rs:61-100 | the state-vector simulation accepts exactly the names the recursive meaning of the pattern accepts |
| Glob.MatchSplit | src/copy/pattern.rs:61-100 | after any number of tokens, the pattern matches exactly when some offset is reached from which the rest matches |
| Glob.MatchReaches | src/copy/pattern.rs:61-100 | forward reachability and the recursive meaning agree |
| Glob.StarSplitsRunes | src/copy/pattern.rs:69-72 | a star advances by byte, so it can split a three-byte character: a meaning over characters would be false |
| GlobParser.PatternParser.ClassCharacter | src/copy/pattern.rs:145-151 | one class character, escapes included |
| GlobParser.PatternParser.CharacterClass | src/copy/pattern.rs:128-144 | a character class with its negation and ranges |
| GlobParser.PatternParser.Parse | src/copy/pattern.rs:108-127 | the parser computes the tokens of the grammar, on every text |
| GlobParser.SpelledTokens | src/copy/pattern.rs:103-152 | every sequence of literals, wildcards and nonempty classes has a spelling that parses to it |
| GlobParser.TokensExactly | src/copy/pattern.rs:103-152 | patterns mean exactly those token sequences |
| GlobParser.EscapedMatchesItself | src/copy/pattern.rs:61-127 | a name with its wildcards escaped is a pattern that matches exactly that name |
| Paths.RangeIsFilter | src/copy/source.rs:53-63 | in component order, the paths at or below one path are one contiguous run, which the range scan yields |
| Resolver.Resolve | src/copy/source.rs:195-237 | the worklist resolver computes its specification and ends: links left, then pending components, decrease |
| Resolver.WalkSplit | src/copy/source.rs:195-237 | resolving a concatenation is resolving its first half physically and going on from there |
| Resolver.ResolvesPhysically | src/copy/source.rs:195-237 | resolution succeeds exactly when nested physical resolution (POSIX.1-2017 XBD section 4.13, relative links, at most 40) does, with the same path, every proper prefix of which is a captured directory |
| Resolver.NeedsLiveModule | src/copy/source.rs:215-215 | a module error names a module entry that is there |
| Trees.ListedIsLookup | src/context/mod.rs:232-277 | the listing of a sound tree holds exactly the paths that look up in it, with the right entries |
| Context.CapturedContext.ScanLevel | src/context/mod.rs:242-274 | one level is inserted and its directories stacked, or the duplicate or soundness check fails for cause |
| Context.CapturedContext.Scan | src/context/mod.rs:232-277 | the worklist inserts exactly the listing of the tree, and fails only for an unsound tree or a path already there |
| Context.CapturedContext.OpenModule | src/context/modules.rs:12-22 | a store is added one level deeper, within the depth cap of 8 |
| Context.CapturedContext.Expand | src/context/mod.rs:279-298 | expansion replaces exactly the selected module by its tree and touches nothing else; it fails only where no such expansion exists |
| Context.ExpandedConsistent | src/context/mod.rs:279-298 | expansion keeps the entries rooted and their stores known |
| Context.ExpandedFrame | src/context/mod.rs:279-298 | expansion adds only paths below the expanded one and changes no other entry |
| Context.ExpandedCensus | src/context/mod.rs:279-298 | expansion lowers the number of unexpanded modules at one depth and leaves all smaller depths unchanged |
| Context.ExpansionsConcat | src/context/mod.rs:279-298 | a chain of expansions can be cut anywhere and continued from there |
| Context.CapturedContext.Read | src/context/read.rs:31-91 | the expanding resolver reaches a file exactly when resolution in the final entries does, the same file; those entries are reached by a chain of expansions, it fails only at a module that resolution needs in a context so reached and that has no expansion, and without modules it changes nothing |
| Context.Turn | src/context/read.rs:39-82 | one component of a resolution under way: the next position keeps every further context in agreement, or no further context resolves to a file |
| Capture.CaptureDirectory | src/context/mod.rs:133-230 | capture follows the specification of the descent and lists exactly the directory it ends at |
| Capture.Locate | src/context/mod.rs:158-223 | the descent loop with its stack of parents computes its specification |
| Capture.DescendBounds | src/context/mod.rs:158-223 | a descent keeps within the depth cap and in open stores |
| Capture.CapturedConsistent | src/context/mod.rs:228-229 | a captured directory is a consistent context: rooted entries in known stores |
| Capture.DescendIsWalk | src/context/mod.rs:158-223 | without modules, descending through tree objects and resolving in the root listing end at the same directory |
| Capture.SubtreeListing | src/context/mod.rs:232-277 | listing a directory is listing the root and keeping what is below it |
| Capture.CaptureCommutes | src/context/mod.rs:133-230 | capturing a directory and capturing the root commute: same success, and the entries below the resolved path |
| Selection.Children | src/copy/source.rs:137-148 | the range scan finds exactly the matching direct children, once each |
| Selection.StepPath | src/copy/source.rs:115-152 | one path and one component: links are followed before the first wildcard and are leaves after it |
| Selection.StepAll | src/copy/source.rs:114-153 | one component for all paths, without duplicates |
| Selection.MatchedNext | src/copy/source.rs:136-148 | one more component selects the matching children of the directories selected so far |
| ExplicitPaths.SoundListingPlain | src/context/mod.rs:243-271 | entries listed from sound trees lie below the root and are never called "." or ".." |
| ExplicitPaths.ReachesPlain | src/context/mod.rs:279-298 | and stay so, whatever chain of expansions follows |
| ExplicitPaths.ExplicitExactly | src/copy/source.rs:115-152 | an explicit pattern yields a path that resolves if and only if its components resolve one after the other, each with a fresh budget of 40 links, and then to the same place |
| ExplicitPaths.ExplicitFindsResolved | src/copy/source.rs:115-152 | so whatever plain resolution finds, an explicit pattern selects |
| Selection.SelectPaths | src/copy/source.rs:104-156 | a pattern selects, in ascending order, exactly the entries below its resolved base whose components match one by one through real directories; it fails exactly when the pattern cannot be walked |
| Sources.FindModule | src/copy/source.rs:165-169 | a module at or below a path is found if there is one |
| Sources.Finish | src/copy/source.rs:163-175 | a selected path is resolved and its subtree is free of modules, or neither |
| Sources.SelectPattern | src/copy/source.rs:103-176 | the sources of one pattern, or proof that it has none |
| Sources.SelectSources | src/copy/source.rs:101-181 | selection succeeds exactly when every pattern has sources, and returns them in order; a module error names a live module that stands in the way of one of the patterns |
| Sources.ChosenOnce | src/copy/source.rs:101-181 | entries and patterns determine the sources |
| Sources.DescendantsAreSubtree | src/copy/source.rs:53-63 | the descendants of a source are exactly the entries strictly below it, none of them a module, and none below a file |
| Stability.WalkToModule | src/copy/source.rs:195-237 | a path through a module, spelled without dots, resolves to needing that module |
| Stability.MatchedStays | src/copy/source.rs:136-148 | where no module obstructs them, the matches of wildcards are the same in every context that further expansion leads to |
| Stability.SelectedStays | src/copy/source.rs:101-181 | selection is stable: what was selected is selected, with the same sources, in every context that further expansion leads to |
| Stability.StuckForGood | src/copy/source.rs:71-81 | patterns that need a module without expansion are selectable in no further context |
| Preparation.Prepare | src/copy/source.rs:71-81 | preparation ends, by the counts of unexpanded modules per depth, in a context reached by a chain of expansions: selection then succeeds, or fails for another reason than a module; or it gives up at a module that the patterns need and that has no expansion; a context without modules is unchanged |
| Preparation.GivenUpForGood | src/copy/source.rs:71-81 | preparation gives up only where it has to: no further expansion would make the patterns selectable |
| Preparation.PrepareAll | src/input/mod.rs:78-86 | when all local COPY directives have been prepared, one after the other, all of them are selectable in the final context |
| Crc.Streams | src/disk/header.rs:55-60 | a digest fed in pieces equals the digest of the whole |
| Crc.KnownSum | src/disk/mod.rs:110-112 | polynomial, reflection, start value and inversion give the known sum of one byte |
| Fields.LittleRoundTrip | src/disk/record.rs:10-18 | integer fields read back as written |
| Fields.CutJoin | src/disk/record.rs:10-23 | cutting a packed record at its field widths gives its fields back |
| Gpt.HeaderRoundTrip | src/disk/header.rs:13-35 | a header reads back from its 92 bytes |
| Gpt.CoveredIsZeroed | src/disk/header.rs:55-61 | what the reader sums is the header with a zero checksum, which is what the writer sums |
| Gpt.ReadHeader | src/disk/header.rs:38-68 | the reader accepts exactly the supported geometries with the right checksum |
| Gpt.RecordRoundTrip | src/disk/record.rs:10-28 | a partition record reads back from its 128 bytes |
| Gpt.SwapSwap | src/disk/entry.rs:22-22 | identifiers survive the change of byte order |
| Gpt.MbrRoundTrip | src/disk/mbr_entry.rs:11-22 | a protective slot reads back from its 16 bytes |
| Devices.Device.Block | src/disk/mod.rs:176-191 | one block is read, or nothing outside the device |
| GptReader.ValidateHeaders | src/disk/mod.rs:199-231 | both headers agree and metadata and usable blocks follow each other; no sum of LBAs overflows |
| GptReader.CheckMbr | src/disk/mod.rs:233-263 | exactly one protective slot, the others empty, nothing after the signature |
| GptReader.BlockEntries | src/disk/mod.rs:135-150 | the occupied slots of one block, each in bounds |
| GptReader.SlotsConcat | src/disk/mod.rs:115-151 | slots decode piece by piece as they decode from the whole table |
| GptReader.Entries | src/disk/mod.rs:103-174 | the streaming check accepts and returns exactly what the check of both whole declared tables does, for every slot count and whatever the padding |
| GptReader.Read | src/disk/mod.rs:51-101 | the reader computes what the image holds, and moves nothing but its position |
| GptSound.SlotsExactly | src/disk/mod.rs:135-149 | the decoded entries are exactly the occupied slots with their numbers |
| GptSound.NeighboursDecide | src/disk/mod.rs:167-172 | checking sorted neighbours decides whether any two partitions overlap |
| GptSound.TableAcceptedExactly | src/disk/mod.rs:103-174 | the table check accepts exactly two equal tables with the right sums whose occupied slots are in bounds and pairwise disjoint |
| GptSound.AcceptedIsSound | src/disk/mod.rs:51-101 | an accepted disk: metadata and partitions apart and inside the capacity, equal checked tables, disjoint usable partitions, the one eligible root and the only ESP |
| GptSound.CapacityOnly | src/disk/mod.rs:51-101 | whether it accepts or refuses, the reader depends on nothing outside the logical disk: images that agree up to the capacity read alike |
| GptSound.SoundExtents | src/disk/partition.rs:13-35 | extents of accepted partitions convert to bytes without overflow, lie between the tables and do not overlap |
| GptLayout.ArrangesExactly | src/disk/layout.rs:24-47 | every layout is aligned, disjoint, fits and holds exactly the contents asked for; there is one whenever one can exist, and it is the smallest |
| GptLayout.Write | src/disk/layout.rs:56-126 | the write succeeds exactly when capacity and device allow, and leaves exactly the five metadata writes |
| GptLayout.WrittenFrame | src/disk/layout.rs:53-55 | only blocks 0 to 5 and the last five blocks of the logical disk change |
| GptLayout.ContentsSurvive | src/disk/layout.rs:53-55 | partition contents and the backing tail are untouched |
| GptRoundTrip.HeaderReads | src/disk/layout.rs:104-123 | a written header block is accepted and decodes to its header |
| GptRoundTrip.TableReads | src/disk/layout.rs:78-92 | a written table decodes to the root, then the optional ESP |
| GptRoundTrip.TableRecords | src/disk/layout.rs:78-92 | each record holds its type, its own fresh identifier and its extent; everything else in the table is zero |
| GptRoundTrip.WriteThenRead | src/disk/layout.rs:56-126 | over any previous contents, reading what was written gives exactly the root and ESP of the layout, for every capacity that holds the disk and either native root type |
| Planner.Walk | src/planner/mod.rs:199-242 | the iterative walk with exit markers computes the recursive depth-first visit, and ends: stages left to visit, then stack, decrease |
| Planner.Order | src/planner/mod.rs:245-281 | checking all declared stages and ordering those of the image computes the planned order |
| Planner.VisitOrders | src/planner/mod.rs:199-242 | a visit adds the given stages and what they depend on, none twice and dependencies first |
| Planner.VisitFails | src/planner/mod.rs:199-242 | a visit fails only at a reachable stage that is unknown, depends on itself, or is being visited |
| Planner.VisitExactly | src/planner/mod.rs:199-242 | a visit succeeds exactly when no reachable stage is unknown or depends on itself, and orders exactly the reachable stages |
| Planner.PlannedExactly | src/planner/mod.rs:245-281 | a plan is ordered exactly when its image selects something, everything named is declared and no declared stage depends on itself, needed or not; the order holds exactly what the image needs |
| Planner.PlannedInOrder | src/planner/mod.rs:224-239 | so inputs and COPY sources are built before the stages that use them |
| Availability.Validate | src/input/availability.rs:44-114 | the analysis loop accepts exactly the plans whose stages and selected components are provided |
| Outputs.BindRoot | src/pipeline/output.rs:64-71 | configuration is bound to the root in place |
| Outputs.SelectBoot | src/pipeline/output.rs:90-141 | firmware and configuration for each of the five forms |
| Outputs.Select | src/pipeline/output.rs:72-170 | the selected image: composed, checked, and bound when its root is new |
| Outputs.ComposedSound | src/pipeline/output.rs:79-148 | a composed image never has configuration without firmware, and its root has a commitment |
| Outputs.ComposedSettings | src/pipeline/output.rs:79-148 | definitions replace all inherited settings, extensions edit them, other forms keep them; root and firmware come from their own sources |
| Outputs.RebindingRule | src/pipeline/output.rs:157-169 | with a changed root an existing `corium.root` becomes its hash and nothing else changes; otherwise the configuration stays as composed |
| Outputs.RootKeyMatchesExactly | src/pipeline/output.rs:157-169 | `corium.root` ends up as the hash of the root exactly when the composition counts as changed or already pointed there |
| Outputs.SelectedRootKey | src/pipeline/output.rs:72-170 | read off the plan and its sources: the selected `corium.root` is right exactly when a stage produced the root, or firmware or configuration were built for another one, or the settings asked for leave the key out or have it right |
| Outputs.AuthoredRootSurvives | src/pipeline/output.rs:133-136 | the family where it does not: extending an image with an authored `corium.root` and selecting that image's own root |
| Outputs.AuthoredRootWitness | src/pipeline/output.rs:157-169 | one concrete image and plan for which `corium.root` is not the hash of the selected root |
| Pipeline.Execute | src/pipeline/mod.rs:67-138 | the stage loop computes the run of the plan |
| Pipeline.RunDirectives | src/step/directives.rs:52-78 | the directives of a stage run in order, and a COPY from a stage reads the root that this stage finished with, or fails |
| Pipeline.Run | src/pipeline/mod.rs:46-63 | skipping execution for plans without stages gives the same image |
| Pipeline.StageEffect | src/pipeline/mod.rs:79-135 | formatting starts afresh; extending keeps firmware, puts the new layer on top and points an existing `corium.root` at it |
| Pipeline.CopiesRead | src/pipeline/sources.rs:21-43 | in a finished stage every directive was performed in order, and every COPY from a stage read its finished root |
| Pipeline.FinishedHaveRoots | src/pipeline/mod.rs:78-135 | every finished stage has a root, and the finished stages are those of the order so far |
| Pipeline.UnbuiltSourceFails | src/pipeline/sources.rs:27-31 | a plan with a COPY source that is not built before its stage never finishes |
| Pipeline.StagesCover | src/input/availability.rs:48-66 | after every prefix of the stages, the two bits are exactly the presence of root and firmware in the concrete outputs |
| Pipeline.ImageCovers | src/input/availability.rs:67-111 | composition finds every component the analysis promised, and fails where it refused |
| Pipeline.AnalysisDecides | src/input/availability.rs:44-114 | an accepted plan whose COPY sources come first never fails for a missing stage, COPY source, root or firmware, an empty image or stray configuration; a refused plan never finishes |
| Pipeline.PlannedDecides | src/planner/mod.rs:245-281 | for every plan the planner orders: accepted builds finish or fail in their own work, refused ones never finish, and no stage is missing when another one or the image needs it |
| Completion.ValidExactly | src/isolation/gate.rs:120-130 | the bit test accepts exactly the encodings of an exit code or of a signal from 1 to 64 with or without core, each from one ending |
| Completion.StatusRoundTrip | src/isolation/gate.rs:113-142 | a reported status is read back exactly; nothing nonterminal is sent or read |
| Completion.StatusPacketOnly | src/isolation/gate.rs:131-142 | every accepted report is the packet of its status |
| Gate.StepKeeps | src/isolation/gate.rs:33-289 | every step of either party keeps typestates, packets under way and history consistent |
| Gate.GateIsSafe | src/isolation/gate.rs:33-289 | in every interleaving the child passes only after the parent received readiness and sent start, nothing happens twice, and a returned status is the one reported |
| Gate.FailedStartNeverReleases | src/isolation/gate.rs:33-37 | once the parent gave up without sending start, no continuation releases the child |
| Gate.GateOpens | src/isolation/gate.rs:65-71 | the protocol can complete with any terminal status |
| References.DigestRoundTrip | src/artifact/digest.rs:70-96 | a digest survives printing and parsing |
| References.SuffixParses | src/artifact/reference.rs:132-165 | tag and digest are split off exactly where they were written, and a missing tag is "latest" |
| References.ShorthandMeaning | src/artifact/reference.rs:118-208 | shorthand expands as documented: registry, "library" and "latest" are filled in, and only the repository check can refuse |
| References.CanonicalRoundTrip | src/artifact/reference.rs:118-219 | a canonical reference parses back from its printed form |
| References.ParsedIsCanonical | src/artifact/reference.rs:118-208 | whatever parses is canonical |
| References.PrintedReparses | src/artifact/reference.rs:118-219 | the printed form of any parsed reference parses to that same reference |
| References.CanonicalExactly | src/artifact/reference.rs:118-208 | parsing yields exactly the canonical references |

## Left out

- Error values and messages: a failure is `None`, or a small datatype where callers branch on it.
- Text encodings: configuration text, patterns and references are sequences of characters; length limits coincide because accepted keys, tags and digests are ASCII.
- zstd, CBOR, JSON and YAML codecs: compression is a pair of functions of which only `decompress(compress(x)) == x` and a nonempty result are assumed.
- Git object access and hashing: trees are values; a missing or corrupt object, alternates and blob loading are not modelled. Opening a submodule store is a partial function of the parent repository, its root tree, the path and the commit, which covers `.gitmodules` parsing and store path checks.
- Rejection of Git LFS pointers when a file is loaded: a single-branch check.
- Work of a stage (mounts, sandbox, commands, sealing): functions of everything performed so far, which say whether it goes on and what commitment its layer has; cleanup and output directories are not modelled. Failures inside a stage, of decoding or of node limits count as `Other`.
- Checks of single stages by the planner (mounts, formats, compiled patterns): only dependencies and their order are modelled. The loop that walks all declared stages takes them in ascending order, as the ordered map does.
- `Outputs.Select` and `Pipeline.Execute` move owned outputs that the source moves or clones; the outputs are values here, and only the configuration being bound is an object changed in place.
- `GptLayout.Write`: a device is of fixed size and a write past its end fails without effect; partial writes and flushing are not modelled. Fresh identifiers are parameters.
- Gate: polling, interrupted calls, short packets and descriptor passing reduce to a step that fails; two gates never share a channel.
- `copy/destination.rs`, kernel-facing code, the CLI, publishing, and the formatter: not modelled.
