# Verified models of Roteiro's self-contained algorithms

Roteiro builds a provenance-tagged knowledge graph over one or more
repositories. Around its files, databases and network it runs a number of
small algorithms whose documentation makes exact claims: which workspaces a
configuration resolves to, what a bounded neighbourhood contains, when a
managed section is up to date, when a log shows that everything ran. Each of
these is modelled here in Dafny and proved against an independent statement of
what it is for.

Loops and objects that update their fields keep that form: `IncludeFold.Fold`
and `Group`, `LinkWriting.Workspace`, `ManagedBlock.AgentsFile`,
`EventStream.TokenSink` and `CellReport.Target` are classes, and a PNG row is
reconstructed in an array. Such a method is proved equal to a function of its
inputs or old state, and what that function means is proved as lemmas.

| file | what it is about |
|---|---|
| `IncludeGraph.dfy`, `IncludeFold.dfy`, `UniqueNames.dfy`, `WorkspaceResolution.dfy` | flattening the user-written `includes` graph, naming workspaces, resolving a configuration |
| `PngRows.dfy`, `PngFile.dfy`, `PngReading.dfy` | decoding a PNG: chunks, the five row filters, palettes; what a decoded file holds |
| `Neighbourhood.dfy`, `Ordering.dfy` | the bounded breadth-first neighbourhood, and the key order it is returned in |
| `KeyMatching.dfy`, `CrossRepoLinks.dfy`, `ViewReading.dfy`, `HubChoice.dfy`, `LinkWriting.dfy`, `OverrideMatrix.dfy`, `MatrixReading.dfy` | matching a spoke's keys to a hub's, merging live and persisted links, choosing the hub, writing the links and writing them again, the override matrix |
| `ManagedBlock.dfy` | the managed section of an agents file |
| `EventStream.dfy`, `CellReport.dfy` | two state machines, over provider events and over test logs |
| `VarExpansion.dfy`, `FileUrl.dfy`, `RuntimeFiles.dfy` | `var()` expansion, `file://` URLs, the closed-world check of extracted runtime files |
| `ConfigLayers.dfy` | how two configuration layers combine, and how the result is explained |
| `Sequences.dfy`, `Text.dfy`, `Provenances.dfy`, `Wrappers.dfy` | shared vocabulary |

Parameters of the models: tilde expansion and the discovery of standalone
repositories, key normalisation and canonicalisation, zlib inflation, SHA-256
and the wording of findings. Every theorem holds for any such function; an
instance may ask that two names are told apart.

## Where the code and its documentation differ

The models follow the code. Each difference comes with when it shows and an
input that shows it.

- `neighbourhood_subgraph` promises the root first; nodes come back in key
  order. `RootIsFirstIff` says when the two agree, and `EdgesAreInducedIff`
  when the edges are those of the induced subgraph;
  `TriangleIsNeitherRootFirstNorInduced` is a store where neither holds.
- `write_links` does not skip a spoke key that an authored link already covers,
  while the live view does. `WritingKeepsPairsIff` says when writing leaves the
  linked pairs alone, `WriteLinksBesideAnAuthoredLink` gives an input where it
  does not. Both views come in their own order: live links by spoke key,
  persisted ones by target.
- `write_links` is documented as idempotent. A second run repeats the first
  exactly when the hub stays the one that would be chosen (`RerunRepeatsIff`,
  `HubStaysIff`), as it does where nothing was linked before
  (`FirstWriteSettles`); clearing stale links can move it
  (`SecondRunMovesTheHub`).
- `ensure_agents` is documented as replacing or appending. It is idempotent
  exactly when the file does not hold one stray marker (`IdempotentIff`); with
  one, the second run replaces the text after it (`StrayMarkerIsPaired`).
- Between a config key losing its hub counterpart and the next write, its stale
  link keeps it out of the drift (`StaleLinkHidesDrift`); `WritingKeepsOrphansIff`
  says when a write changes the drift.
- `resolve` reports a cycle for values that have none: calls side by side spend
  the same budget as nested ones. `MeaningIsAnsweredIff` and, on the written
  text alone, `CleanIsAnsweredIff` say exactly which values it answers
  (`ThirtyThreeCallsAreRefused`, `NestedLastCallIsRefused`). It also rereads what
  it has spliced in: `ResolvedIsStructuralIff` says when it answers with a
  value's meaning, `CleanIsStructural` gives a condition on the written text
  under which nothing is completed by a splice, and `SpliceSwallowsACycle` is an
  input where it answers a value that has no meaning.
- Confidence is not monotone in the matching tier
  (`ConfidenceFollowsTierUnless`, `RenamedKeyOutscoresOverride`).
- The override matrix is documented as deterministic. Its flags, files, columns
  and drift do not depend on the order of the input; which of several differing
  values a cell shows can, exactly as `CellIgnoresOrderIff` says
  (`TwoOverridesDependOnOrder`).
- A PNG filter type outside 0 to 4 is read as type 0, not refused
  (`UnknownFilterReadsAsNone`).
- An absent pinned file gets no line of its own when an earlier line already
  contains its name: exactly when is `HasOwnLine`, which `ReportMissing` is
  proved against, and `AbsentPinHidesBehindALongerName` is an instance. It is
  still named and the directory is still refused.

## Model

| member | source | states |
|---|---|---|
| IncludeGraph.KnownNamesAreExactlyTheDeclared | crates/roteiro/src/config.rs:2253-2285 | the names an error lists as known are exactly the names the lookup answers for |
| IncludeGraph.WalkAllErrorsAreReal | crates/roteiro/src/config.rs:2208-2226 | a cycle error names a path of include edges that closes on itself; an unknown-name error blames a workspace that really includes that undeclared name |
| IncludeGraph.WalkMeetsExactlyTheReachable | crates/roteiro/src/config.rs:2157-2175 | the names met below a workspace are exactly those some chain of includes reaches |
| IncludeGraph.WalkFollowsChains | crates/roteiro/src/config.rs:2198-2208 | a walk without error meets every name of every include chain and none of them is on its path |
| IncludeGraph.EveryWalkSucceedsIff | crates/roteiro/src/config.rs:2173-2193 | given distinct names, every workspace folds without error iff every included name is declared and no chain of one hop or more closes on itself |
| IncludeGraph.WalkIgnoresDeclarationOrder | crates/roteiro/src/config.rs:2166-2171 | two configurations that declare the same tables are walked alike |
| IncludeGraph.PermutedConfigDeclaresTheSame | crates/roteiro/src/config.rs:2253-2271 | with distinct names, permuting the entries changes no lookup |
| IncludeFold.WalkOfSettled | crates/roteiro/src/config.rs:2198-2206 | a finished name walked again from any disjoint path cannot fail and meets only finished names, so skipping it is sound |
| IncludeFold.Fold.StartingAt | crates/roteiro/src/config.rs:2355-2366 | a new fold is valid: path is the composed workspace alone, nothing expanded or finished |
| IncludeFold.Fold.PushRoot | crates/roteiro/src/config.rs:2368-2373 | a root joins the group's list exactly when it is new, and the seen-set stays the list's elements |
| IncludeFold.Fold.PushRepo | crates/roteiro/src/config.rs:2375-2380 | a repo joins the group's list exactly when it is new, and the seen-set stays the list's elements |
| IncludeFold.Fold.Enter | crates/roteiro/src/config.rs:2226-2235 | entering a name keeps the fold valid, with the name on the path and expanded, and its own members appended once each |
| IncludeFold.Fold.Leave | crates/roteiro/src/config.rs:2236-2240 | leaving a name whose includes are all finished keeps the fold valid: the name is finished and the path is as it was met |
| IncludeFold.FoldOne | crates/roteiro/src/config.rs:2195-2243 | the fold with its diamond-skipping set has the outcome, the error and the group of the walk without it; it terminates and its calls number one plus the include edges of the names it finishes |
| IncludeFold.ExpandNew | crates/roteiro/src/config.rs:2226-2242 | expanding a name met for the first time: same outcome, error and members as the walk, one call per include edge |
| IncludeFold.FoldEach | crates/roteiro/src/config.rs:2237-2239 | one `includes` list, in order: the first failing name's error is the list's, members accumulate |
| WorkspaceResolution.ComposeGroup | crates/roteiro/src/config.rs:2177-2191 | on success the group is its declared lists and then the reachable members, and the calls made equal the include edges of the workspace and of each name it reaches once: linear in edges, not in paths |
| WorkspaceResolution.FoldIncludes | crates/roteiro/src/config.rs:2176-2193 | fails with the first error in written order or leaves each composed group composed from declarations and every other group untouched |
| WorkspaceResolution.FoldOutcome | crates/roteiro/src/config.rs:2173-2193 | over all declared groups there is no failure iff all included names are declared and the graph is acyclic; any failure is real |
| WorkspaceResolution.LinkedGroups | crates/roteiro/src/config.rs:2098-2126 | succeeds iff linked names are distinct, and a refusal names a repeated one; on success one group per declaration in order |
| WorkspaceResolution.FoldedGroups | crates/roteiro/src/config.rs:2098-2131 | linked groups, folded, succeed iff names are distinct, includes declared and acyclic |
| WorkspaceResolution.ResolvedWorkspaces | crates/roteiro/src/config.rs:2090-2155 | a configuration resolves iff linked names are distinct, includes are declared and acyclic, and discovery succeeds; a refusal names a real defect |
| WorkspaceResolution.LinkedGroupIs | crates/roteiro/src/config.rs:2098-2131 | the k-th entry's resolved group has its name, is linked, takes its worktree flag (false when unset), begins with its own roots and repos expanded, each in its own list, and beyond them holds exactly what the entries and the legacy table it reaches list |
| WorkspaceResolution.DefaultGroupIs | crates/roteiro/src/config.rs:2098-2111 | the legacy table, when it names anything, is the first group, named `default`, linked and listed as written |
| WorkspaceResolution.StandaloneGroupIs | crates/roteiro/src/config.rs:2133-2152 | the i-th discovered repository's group holds its path alone, under its directory name or, where an earlier group has it, the first free of name-2, name-3 and so on, the numbers read as decimal numerals |
| WorkspaceResolution.MembersAsWritten | crates/roteiro/src/config.rs:2253-2271 | a name contributes to whatever includes it what the entry of that name lists, and `default` what the legacy table lists |
| WorkspaceResolution.EdgeIsWritten | crates/roteiro/src/config.rs:2253-2271 | an include edge is an entry of the written list of the workspace of that name |
| WorkspaceResolution.StandaloneGroups | crates/roteiro/src/config.rs:2133-2152 | each standalone repository gets its own unlinked group under the first name free of all earlier ones |
| WorkspaceResolution.ComposedMembership | crates/roteiro/src/config.rs:2160-2171 | declared lists stay an untouched prefix and the members are exactly own plus those of every reachable workspace |
| WorkspaceResolution.ComposedOrder | crates/roteiro/src/config.rs:2160-2164 | appended roots, and appended repos, are new to the group, distinct and in depth-first first-met order |
| WorkspaceResolution.ResolutionIgnoresEntryOrder | crates/roteiro/src/config.rs:2166-2171 | permuting the entries changes no composed group and no success |
| WorkspaceResolution.ResolvedNamesAreUnique | crates/roteiro/src/config.rs:2063-2069 | no two resolved groups, linked or standalone, share a name |
| UniqueNames.DedupeWorkspaceName | crates/roteiro/src/config.rs:2464-2476 | the name is the base when free and otherwise the first free numbered candidate; it is recorded; the search ends |
| UniqueNames.CandidateInjective | crates/roteiro/src/config.rs:2470 | different suffix numbers give different names |
| UniqueNames.DecimalReadsBack | crates/roteiro/src/config.rs:2470 | a suffix is a decimal numeral without leading zero that reads as its number |
| PngRows.PaethIsNearestInTieOrder | scripts/pdf-fixture-pixel-proof.py:113-121 | the predictor is the neighbour nearest the linear estimate, ties going to left, above, upper left, as section 6.6 of RFC 2083 words it |
| PngRows.ReconstructByte | scripts/pdf-fixture-pixel-proof.py:104-121 | the four branches compute the reconstructed byte that `ReconstructedByteIs` describes |
| PngRows.ReconstructedByteIs | scripts/pdf-fixture-pixel-proof.py:104-121 | byte by byte on a reconstructed row: type 1 adds the byte one pixel to the left (zero at the start), type 2 the byte above, type 3 half their sum, type 4 the nearest neighbour in tie order, other types nothing, all modulo 256 |
| PngRows.ReconstructLine | scripts/pdf-fixture-pixel-proof.py:101-121 | in-place reconstruction of a whole row equals the specification on its old bytes; a row cut short gets through exactly when it is unfiltered and lacks at most one pixel, and is then left as it was |
| PngRows.UnfilterInvertsFilter | scripts/pdf-fixture-pixel-proof.py:92-123 | for every geometry and per-row filter choice, reconstructing the filtered rows gives the rows back from a stream of height*(stride+1) bytes |
| PngRows.FilterInvertsUnfilter | scripts/pdf-fixture-pixel-proof.py:92-123 | filtering what was reconstructed, by the types read, gives back exactly the bytes consumed |
| PngRows.SizeIsProduct | scripts/pdf-fixture-pixel-proof.py:98-102 | the bytes consumed are height*(stride+1) |
| PngRows.UnknownFilterReadsAsNone | scripts/pdf-fixture-pixel-proof.py:103-121 | a row under type 0 or a type no section defines is taken as it stands, not refused |
| PngFile.ScanOne | scripts/pdf-fixture-pixel-proof.py:76-88 | one chunk is read as its length, kind and body say, with slices that stop at the end of the data |
| PngFile.ScanChunks | scripts/pdf-fixture-pixel-proof.py:75-88 | the loop is the chunk-by-chunk scan from offset 8 and always ends |
| PngFile.ScanReadsEveryChunk | scripts/pdf-fixture-pixel-proof.py:75-88 | scanning any encoded chunk sequence absorbs every chunk in order up to IEND, whatever follows |
| PngFile.AbsorbedIdatIsJoined | scripts/pdf-fixture-pixel-proof.py:83-84 | image data is the IDAT bodies joined, however they were split |
| PngFile.WriteRow | scripts/pdf-fixture-pixel-proof.py:99-123 | one row keeps the invariant that finished rows and the unread stream together make the image; a row cut short passes iff unfiltered and lacking at most one pixel, and is then written as it is |
| PngFile.ReconstructRows | scripts/pdf-fixture-pixel-proof.py:92-123 | the row loop gives what the stream reconstructs to: all its rows, or, when it ends in its last row and that row may pass, the rows before it and what there is of it; otherwise it fails |
| PngFile.WholeImageIff | scripts/pdf-fixture-pixel-proof.py:92-123 | the result is a whole image of height*stride bytes iff the stream holds height*(stride+1) |
| PngFile.ExpandPalette | scripts/pdf-fixture-pixel-proof.py:124-128 | the loop appends each index's palette entry in order |
| PngFile.ExpandAt | scripts/pdf-fixture-pixel-proof.py:124-128 | with indices inside the palette, byte 3k+c of the result is component c of pixel k's palette entry |
| PngFile.DecodePng | scripts/pdf-fixture-pixel-proof.py:70-129 | on every file the decoder returns the declared image or the declared error, streams cut short included |
| PngFile.DecodeInvertsEncode | scripts/pdf-fixture-pixel-proof.py:70-129 | a file built from any chunks, whose data inflates to rows filtered by any types, decodes to those rows |
| PngReading.ImageIs | scripts/pdf-fixture-pixel-proof.py:90-129 | on a file of chunks whose image data inflates to filtered rows: width and height are the header's first two big-endian words, channels follow the colour type, the bytes are the rows' and an indexed image has its palette's colours |
| PngReading.AbsorbedIs | scripts/pdf-fixture-pixel-proof.py:81-88 | the last header and the last palette count, and only a header of another length than 13 is refused |
| PngReading.HeaderlessIsRefused | scripts/pdf-fixture-pixel-proof.py:81-89 | a file without a header, or with one of the wrong length, is refused |
| PngReading.RefusedIff | scripts/pdf-fixture-pixel-proof.py:89-93 | a file with a header is refused before its rows iff its depth is not 8 or it is interlaced, its colour type is unknown, or its data does not inflate |
| PngReading.NotAPngIff | scripts/pdf-fixture-pixel-proof.py:72-74 | exactly the files that do not begin with the signature are no PNG |
| PngReading.UnendedFileIs | scripts/pdf-fixture-pixel-proof.py:76-80 | a file that ends without IEND is read all the same, one that ends within a chunk's length is refused |
| PngReading.ShortStreamIff | scripts/pdf-fixture-pixel-proof.py:98-122 | a stream short of its rows gets through iff it lacks no more than a pixel's bytes of its last row and that row is unfiltered |
| PngReading.ConcatAt | scripts/pdf-fixture-pixel-proof.py:122 | byte i of row r is byte r * stride + i of the image |
| Neighbourhood.BallIsDistance | crates/roteiro/src/graph_api.rs:1504-1506 | the specification's ball is undirected distance: exactly what a walk of at most that many hops reaches |
| Neighbourhood.VisitEdge | crates/roteiro/src/graph_api.rs:1528-1545 | one edge adds its key once, its other end to the nodes if stored, and that end to the next frontier iff not yet collected |
| Neighbourhood.VisitKey | crates/roteiro/src/graph_api.rs:1523-1546 | a key contributes exactly its neighbours in both directions and its incident edges |
| Neighbourhood.VisitFrontier | crates/roteiro/src/graph_api.rs:1521-1548 | one round contributes exactly the neighbours and incident edges of the frontier |
| Neighbourhood.NeighbourhoodSubgraph | crates/roteiro/src/graph_api.rs:1507-1554 | the nodes are the stored ones within `depth` hops, the edges one per key touching a node nearer than `depth`; without dangling edges every frontier is the sphere at its distance, without repeats |
| Neighbourhood.ReturnedEdgesAre | crates/roteiro/src/graph_api.rs:1523-1546 | the edges returned are exactly the stored edges that touch a node nearer than the depth and are the first stored of their source, target and kind |
| Neighbourhood.LinkedIff | crates/roteiro/src/graph_api.rs:1523-1546 | two nodes are neighbours iff a stored edge joins them either way |
| Neighbourhood.RootIsFirstIff | crates/roteiro/src/graph_api.rs:1504-1552 | the root comes first iff no stored node within reach sorts before it |
| Neighbourhood.EdgesAreInducedIff | crates/roteiro/src/graph_api.rs:1520-1549 | at any depth, 0 included, the edges are the induced subgraph's iff no stored edge joins two nodes both at full distance |
| Neighbourhood.TriangleIsNeitherRootFirstNorInduced | crates/roteiro/src/graph_api.rs:1504-1554 | three nodes on which the root is not first and an edge between two returned nodes is missing |
| Ordering.LessIff | crates/roteiro/src/graph_api.rs:1515-1552 | keys are ordered by the first character where two part, a proper prefix first |
| KeyMatching.LastToken | crates/roteiro/src/infer_links.rs:36-38 | the longest suffix without a dot, preceded by a dot if anything is |
| KeyMatching.IndexHub | crates/roteiro/src/infer_links.rs:81-92 | the three maps hold, for every key form, the first hub entry or all entries with that form in hub order |
| KeyMatching.MatchAgainstHub | crates/roteiro/src/infer_links.rs:71-130 | the loops return, for every spoke and hub, the matches and orphans that `ReturnedInOrder` describes |
| KeyMatching.VerdictIff | crates/roteiro/src/infer_links.rs:107-129 | over the hub: exact with the first entry of the same normal form; canonical iff there is none and all entries of the same canonical form share one key; leaf iff neither answers and exactly one entry has the last token; orphan iff none of these |
| KeyMatching.ReturnedInOrder | crates/roteiro/src/infer_links.rs:99-131 | what is returned for each spoke key: the next orphan when no tier answers, otherwise the next match, with the tier's entry and confidence 0.98 or 0.9, 0.95 or 0.85, or 0.55, the higher iff both values are known and equal |
| KeyMatching.PartitionInOrder | crates/roteiro/src/infer_links.rs:107-129 | every spoke key is the next match or the next orphan, in spoke order |
| KeyMatching.VerdictIsDeserved | crates/roteiro/src/infer_links.rs:50-66 | exact iff some hub key has the same normal form; a canonical match names the only key with its form, a leaf match the only entry with its token |
| KeyMatching.AppendingKeepsExact | crates/roteiro/src/infer_links.rs:86 | appending hub entries never changes an exact match |
| KeyMatching.PermutingKeepsVerdict | crates/roteiro/src/infer_links.rs:45-48 | permuting the hub changes no tier and no hub key a canonical or leaf match names |
| KeyMatching.RenamedKeyOutscoresOverride | crates/roteiro/src/infer_links.rs:109-119 | a key renamed across conventions with its value kept scores 0.95, one kept with its value changed 0.9 |
| CrossRepoLinks.SpokeCorrespondence | crates/roteiro/src/graph_api.rs:1451-1502 | the loops return the merged view and drift, persisted links first and in content order; with no hub, the persisted links alone |
| ViewReading.ViewIs | crates/roteiro/src/graph_api.rs:1451-1502 | entry by entry: first the links stored, in content order, each source and target's first alone; then, for every matched key no stored link starts at, in the keys' order, the inferred link of its match |
| ViewReading.DriftIs | crates/roteiro/src/graph_api.rs:1451-1502 | the drift is the orphans no stored link starts at, in the keys' order |
| CrossRepoLinks.ReadInContentOrder | crates/roteiro/src/graph_api.rs:1281-1297 | reading returns exactly the stored links, ordered by placeholder, source, kind and provenance, however they were stored |
| CrossRepoLinks.ContentOrderIs | crates/roteiro/src/graph_api.rs:1281-1297 | of two links read, the earlier has the smaller target, or under one target source, kind and provenance in turn |
| CrossRepoLinks.ViewPairs | crates/roteiro/src/graph_api.rs:1483-1491 | no two links of the view share source and target, and its pairs are persisted plus live |
| CrossRepoLinks.EveryKeyAccountedOnce | crates/roteiro/src/graph_api.rs:1462-1501 | each spoke key is covered by persisted links only, or by one live link, or is an orphan |
| CrossRepoLinks.FactsReadBackAsLive | crates/roteiro/src/infer_links.rs:140-156 | what is written for the matches reads back as exactly the links that were inferred live, with their confidences |
| CrossRepoLinks.FactIs | crates/roteiro/src/infer_links.rs:140-156 | a match is written, and shown, as an inferred reference from the spoke's key to the hub project's key, both spelled with file and key, with the match's confidence |
| CrossRepoLinks.WritingIsIdempotent | crates/rto-graph/src/store.rs:914-944 | re-importing the same layer into a store changes nothing, whatever the store held |
| CrossRepoLinks.ViewAfterWriting | crates/roteiro/src/graph_api.rs:1180-1189 | after writing, the view's pairs are the surviving links and every match |
| CrossRepoLinks.WritingKeepsPairsIff | crates/roteiro/src/graph_api.rs:1180-1186 | for every store: a write changes no linked pair iff no link of an earlier write is stale and no match adds a second target to a covered key |
| CrossRepoLinks.WritingKeepsLinksIff | crates/roteiro/src/graph_api.rs:1180-1194 | for every store: a write leaves the shown links, provenance and confidence included, as they were iff it leaves their pairs and each stored link shown is still the first of its pair |
| CrossRepoLinks.WriteLinksBesideAnAuthoredLink | crates/roteiro/src/graph_api.rs:1180-1186 | an authored link to one project and a match in the hub: the write adds the pair the live view left out |
| CrossRepoLinks.WritingKeepsOrphansIff | crates/roteiro/src/graph_api.rs:1493-1499 | for every store: a write leaves the drift as it was iff every orphan a stored link covers is covered by a link that survives |
| CrossRepoLinks.StaleLinkHidesDrift | crates/roteiro/src/graph_api.rs:1493-1499 | a key whose hub counterpart is gone is reported as drift only after the next write |
| CrossRepoLinks.PersistedViewIsLiveIff | crates/roteiro/src/graph_api.rs:1436-1446 | when only earlier writes show links, the links shown after a write are exactly the live ones; they equal those shown before, confidences included, iff each stored link shown would be inferred now, and then the drift is unchanged too |
| HubChoice.CountInbound | crates/rto-graph/src/topology.rs:192-228 | every hosted project links point into is counted once per link, and it is noted whether any link exists, hosted or not where it points |
| HubChoice.Busiest | crates/rto-graph/src/topology.rs:177-182 | among the projects with the most links, the last by name |
| HubChoice.ConfigKeyCountHub | crates/roteiro/src/graph_api.rs:1411-1424 | among the projects with the most config keys, the first by name; none unless two have any |
| HubChoice.ChooseHub | crates/roteiro/src/graph_api.rs:1381-1405 | the busiest project if a link points into a hosted one; none if links point elsewhere only; otherwise the one with the most keys |
| HubChoice.ChoiceIs | crates/roteiro/src/graph_api.rs:1390-1424 | with no link anywhere the hub is the first by name of those with the most keys, and there is one iff two projects have any; links that all point elsewhere leave none |
| HubChoice.IntoCounts | crates/rto-graph/src/topology.rs:198-216 | a project's count is the number of shown links whose target names it |
| HubChoice.ProjectIs | crates/rto-graph/src/workspace.rs:716-722 | a target names what stands before its first `::`, if anything stands on both sides |
| HubChoice.ChoiceIsUnique | crates/roteiro/src/graph_api.rs:1381-1424 | what is stored decides the hub |
| LinkWriting.Workspace.WriteLinks | crates/roteiro/src/graph_api.rs:1162-1204 | one run chooses the hub from what is stored, writes every other project against it, leaves the hub's store and all config keys alone, and reports counts that add up; without a hub nothing is written |
| LinkWriting.InboundAfter | crates/roteiro/src/graph_api.rs:1180-1194 | a run takes from each project's count the spokes' links of earlier writes and adds to the hub's the new ones |
| LinkWriting.HubStaysIff | crates/roteiro/src/graph_api.rs:1158-1165 | the hub would be chosen again after a run iff, read off the stores before it, it is still the busiest or no link is left and it has the most keys |
| LinkWriting.RerunRepeatsIff | crates/roteiro/src/graph_api.rs:1158-1161 | a second run reports what the first did and leaves what the first left iff there was no hub or the hub stays |
| LinkWriting.FirstWriteSettles | crates/roteiro/src/graph_api.rs:1370-1378 | where nothing was ever linked the hub stays |
| LinkWriting.HubThatLosesNothingStays | crates/roteiro/src/graph_api.rs:1370-1378 | a busiest hub that gains at least as many links as it loses stays |
| LinkWriting.SecondRunMovesTheHub | crates/roteiro/src/graph_api.rs:1158-1165 | two stale links into one project and an authored one into another: the second run has another hub |
| OverrideMatrix.AddFile | crates/roteiro/src/overview.rs:267-277 | one more report keeps the row file the sole non-empty file so far, and the ambiguity flag "more than one" |
| OverrideMatrix.AddMatch | crates/roteiro/src/overview.rs:248-301 | one more match turns the rows of the input so far into those of the input with it |
| OverrideMatrix.AddOrphans | crates/roteiro/src/overview.rs:302-318 | a spoke's orphans turn the drift table so far into the one with them |
| OverrideMatrix.Build | crates/roteiro/src/overview.rs:215-340 | the single pass builds the matrix the whole input declares |
| MatrixReading.CellIs | crates/roteiro/src/overview.rs:248-301 | on the rows returned: a row has a cell for exactly the spokes that match its key; a cell has one match's value, key, confidence and provenance, differs iff some match of that spoke and key has a known hub value, its own or else the hub's, other than its value, and names a known baseline other than the row's |
| MatrixReading.RowsAre | crates/roteiro/src/overview.rs:264-269 | one row for exactly the hub keys matched, in key order, with the hub's own value or none |
| MatrixReading.RowFileIs | crates/roteiro/src/overview.rs:238-277 | a returned row's file is the one file its matches name, blank names aside |
| MatrixReading.DriftIs | crates/roteiro/src/overview.rs:302-340 | one drift row for exactly the unmatched keys set, in key order, with a cell for exactly the spokes that set it, in conflict iff one sets two different non-empty values |
| MatrixReading.DriftValueIs | crates/roteiro/src/overview.rs:425-433 | a drift cell shows nothing, the lone value, or two in order with a bar between |
| MatrixReading.ColumnsAre | crates/roteiro/src/overview.rs:300-320 | the columns are exactly the spokes that report anything, in name order |
| MatrixReading.PinsAre | crates/roteiro/src/overview.rs:225-228 | the pins are those of the spokes that carry one, the last of a repeated name winning |
| OverrideMatrix.ShownIsFirstThatDiffers | crates/roteiro/src/overview.rs:287-299 | a cell differs iff some match of that spoke and key does, and shows the first such or else the first of all |
| OverrideMatrix.RowFileIff | crates/roteiro/src/overview.rs:238-277 | a row's file is f iff the non-empty files reported are exactly {f} |
| OverrideMatrix.DriftConflictIff | crates/roteiro/src/overview.rs:425-434 | a drift cell conflicts iff the deploy gave two different non-empty values; a lone value is shown as it is |
| OverrideMatrix.OrderDoesNotMatter | crates/roteiro/src/overview.rs:211-213 | rows, files, hub values, cells present, flags, columns and drift depend only on what is said, not on its order |
| OverrideMatrix.ReorderingSaysTheSame | crates/roteiro/src/overview.rs:247-302 | permuting the spokes, and each spoke's matches and orphans, leaves what is said unchanged |
| OverrideMatrix.CellIgnoresOrderIff | crates/roteiro/src/overview.rs:287-299 | a whole cell is the same under every reordering of spokes, matches and orphans iff all matches some order would show make the same cell |
| OverrideMatrix.TwoOverridesDependOnOrder | crates/roteiro/src/overview.rs:287-299 | one deploy with two differing values for a key shows whichever comes first |
| ManagedBlock.AgentsFile.Ensure | crates/roteiro/src/init.rs:250-283 | the file is rewritten to the updated text iff that differs, and reported changed iff it was |
| ManagedBlock.AppendedTextIs | crates/roteiro/src/init.rs:258-276 | with fewer than two markers the text becomes the section alone, or the file with its last line ended, a blank line and the section |
| ManagedBlock.IdempotentIff | crates/roteiro/src/init.rs:244-283 | a second run changes nothing iff the file did not hold exactly one marker |
| ManagedBlock.StrayMarkerIsPaired | crates/roteiro/src/init.rs:286-291 | with one stray marker the first run appends and the second replaces everything from the stray marker to the new block's first |
| ManagedBlock.SettlesAfterTwoRuns | crates/roteiro/src/init.rs:250-283 | whatever the file held, a third run changes nothing |
| ManagedBlock.KeepsUserText | crates/roteiro/src/init.rs:258-276 | all text before the first and after the second marker is kept, or the whole file when it has fewer than two |
| ManagedBlock.MarkersAfterRun | crates/roteiro/src/init.rs:258-276 | a run leaves two more markers when there was none or one, and as many as before otherwise |
| ManagedBlock.MarkerHasNoBorder | crates/roteiro/src/init.rs:286-291 | the marker cannot overlap itself |
| ManagedBlock.CountAroundMarker | crates/roteiro/src/init.rs:258-265 | no marker straddles a splice next to a marker: counts add |
| EventStream.EmitPiece | crates/roteiro/src/provider.rs:308-321 | handing on a piece keeps the tokens well bracketed with the piece on its own side, adding nothing but tags |
| EventStream.EmitPieces | crates/roteiro/src/provider.rs:301-321 | a choice's pieces extend the token stream by exactly them, reasoning first |
| EventStream.ReadStream | crates/roteiro/src/provider.rs:273-351 | on every stream: tokens are well bracketed; the texts outside the tags are exactly the non-empty contents of the lines read, those inside exactly their reasoning, all together in line order with reasoning first; success iff `[DONE]` stops it, or nothing does and a finish reason was seen; each failure has its error; counts are the last usage |
| EventStream.SaidOnTheirSide | crates/roteiro/src/provider.rs:301-321 | tokens that hand on the pieces of some lines carry their contents outside the tags and their reasoning inside, and all of it in order |
| EventStream.StatsAre | crates/roteiro/src/provider.rs:322-341 | counts are those of the last usage seen, zero when missing or beyond 32 bits; the finish reason is length iff some line said so |
| EventStream.TagsAlternate | crates/roteiro/src/provider.rs:308-321 | tags strictly alternate from an open one, and one is left open iff their number is odd |
| EventStream.PiecesAreOnTheirSide | crates/roteiro/src/provider.rs:308-321 | a piece is reasoning iff an odd number of tags precede it |
| EventStream.StopsAt | crates/roteiro/src/provider.rs:284-300 | reading stops at the first `[DONE]`, error, unreadable event or broken read, and nothing earlier |
| CellReport.ReadLine | scripts/ci-test-cell-report.py:213-238 | one line keeps each target's marks equal to what the lines so far say of its executable |
| CellReport.ParseLog | scripts/ci-test-cell-report.py:192-239 | every target is marked exactly as the log's headings and results say, and the doc-test runs and the saw-output flag are the log's |
| CellReport.ResultForIs | scripts/ci-test-cell-report.py:198-201 | a result is credited to the nearest heading before it and no other; the last credited one is shown |
| CellReport.Verdict | scripts/ci-test-cell-report.py:248-265 | complete iff there is a target and every target started and reported |
| CellReport.CompleteIff | scripts/ci-test-cell-report.py:248-265 | a cell is complete iff its targets are distinct, there is one, and each has a `Running` line with a result after it and no heading, of a target or of doc tests, between |
| CellReport.MarkIs | scripts/ci-test-cell-report.py:192-239 | a target is started iff the log runs it, and its verdict and counts are those of the last result that follows one of its headings with no heading between |
| CellReport.DocRunIs | scripts/ci-test-cell-report.py:209-238 | each doc-test heading is a run of its crate, with the last result before the next heading |
| CellReport.DocRunsAreCounted | scripts/ci-test-cell-report.py:209-238 | there are as many doc-test runs as doc-test headings |
| CellReport.ByExecutable | scripts/ci-test-cell-report.py:84-98 | targets by executable, the last of a repeated name winning |
| CellReport.ReportCell | scripts/ci-test-cell-report.py:192-337 | a cell is complete iff it has targets, no two share an executable, and each has a heading followed by a result with no heading between |
| CellReport.ExtendingKeepsComplete | scripts/ci-test-cell-report.py:337 | a longer log never turns complete into incomplete |
| CellReport.TruncationIsSeen | scripts/ci-test-cell-report.py:203-207 | a log cut before some target's first result is incomplete |
| VarExpansion.FindClose | scripts/resolve-explorer-theme.py:188-194 | the place found is the first at which everything opened since the start is closed, and none is found iff there is none |
| VarExpansion.CutAtVar | scripts/resolve-explorer-theme.py:185-195 | a value is cut at its first call without losing text, and is left whole iff it spells no `var(` |
| VarExpansion.SplitArgs | scripts/resolve-explorer-theme.py:169-179 | the loop returns the trimmed argument texts |
| VarExpansion.SplitLosesNothing | scripts/resolve-explorer-theme.py:169-179 | untrimmed and joined by commas the arguments are the text, and number one more than its depth-zero commas |
| VarExpansion.CutsAreAtDepthZero | scripts/resolve-explorer-theme.py:172-175 | every cut is at a comma outside all parentheses |
| VarExpansion.RawArgsAfter | scripts/resolve-explorer-theme.py:169-179 | the first argument ends at the first comma outside all parentheses, and the others are those of the rest |
| VarExpansion.StripIs | scripts/resolve-explorer-theme.py:175-178 | trimming takes blanks from both ends, and all of them |
| VarExpansion.DepthIs | scripts/resolve-explorer-theme.py:172 | the depth of a text is its opening parentheses less its closing ones |
| VarExpansion.BehindIs | scripts/resolve-explorer-theme.py:195-204 | a call stands for its variable's value if in scope, otherwise for all arguments after the first, or without any for the mark with its name |
| VarExpansion.Resolve | scripts/resolve-explorer-theme.py:182-205 | the recursion with its scanning loop computes the specification, and ends on every scope |
| VarExpansion.ResolvedSpellsNoVar | scripts/resolve-explorer-theme.py:185-187 | a returned text spells no `var(`, whatever the scope |
| VarExpansion.BudgetOnlyLimits | scripts/resolve-explorer-theme.py:183-184 | more budget never changes an answer |
| VarExpansion.CyclesNeverReturn | scripts/resolve-explorer-theme.py:183-184 | values whose first calls keep coming back are refused as too deep, whatever else they spell |
| VarExpansion.CyclesHaveNoMeaning | scripts/resolve-explorer-theme.py:183-199 | a cycle through any call of a value, or of a fallback that is used, leaves the value without a structural meaning |
| VarExpansion.CleanCyclesNeverReturn | scripts/resolve-explorer-theme.py:183-205 | and the code refuses it whenever no written text can complete a `var(` begun before it |
| VarExpansion.ResolvedIsStructuralIff | scripts/resolve-explorer-theme.py:182-205 | for every value with a meaning (section 3 of CSS Custom Properties for Cascading Variables Level 1, under no budget): the code answers with it iff it spells no `var(` and takes at most 33 rounds |
| VarExpansion.AnswerIsMeaningIff | scripts/resolve-explorer-theme.py:182-205 | whatever the code answers is a meaning of the value iff the value has one that spells no `var(` |
| VarExpansion.MeaningIsAnsweredIff | scripts/resolve-explorer-theme.py:183-205 | a value whose meaning spells no `var(` is answered with it iff 33 rounds suffice and otherwise refused as a cycle; a call takes one round more than the longer of its substitute and the text after it |
| VarExpansion.RoundsAreNeeded | scripts/resolve-explorer-theme.py:183-205 | the rounds counted are exactly what a meaning needs: from there on every bound gives the same meaning, below it none does |
| VarExpansion.MeantIffNotCyclic | scripts/resolve-explorer-theme.py:182-205 | among texts whose calls all close, exactly the cyclic ones have no meaning |
| VarExpansion.CleanIsStructural | scripts/resolve-explorer-theme.py:182-205 | a check of the written text alone: if nothing that follows a call, stands in scope or is a fallback begins with `(`, `r(` or `ar(`, and no unresolved name spells `var(`, the code's answer or error is the structural one |
| VarExpansion.CleanIsAnsweredIff | scripts/resolve-explorer-theme.py:182-205 | on such text every value with a meaning, nested calls, fallbacks and unresolved names included, is answered iff 33 rounds suffice and otherwise refused as a cycle |
| VarExpansion.SpliceSwallowsACycle | scripts/resolve-explorer-theme.py:197-205 | an input on which a splice completes a `var(` that swallows a cycle: the code returns where the value has no meaning under any bound |
| VarExpansion.SequentialCallsSpendBudget | scripts/resolve-explorer-theme.py:183-205 | a value calling only plain variables is refused as a cycle iff it makes more than 32 calls: a corollary, one round a call |
| VarExpansion.ThirtyThreeCallsAreRefused | scripts/resolve-explorer-theme.py:183-205 | thirty-three calls of one plain variable are refused, thirty-two answered |
| VarExpansion.NestedLastCallIsRefused | scripts/resolve-explorer-theme.py:183-205 | 32 calls side by side, the last of a variable that calls another, are refused; one call fewer is answered |
| FileUrl.RoundTripIff | crates/rto-exec/src/file_url.rs:66-95 | decoding the emitted URL gives the path back iff the path is absolute |
| FileUrl.UrlHasNoSpace | crates/rto-exec/src/file_url.rs:69-73 | an emitted URL has no space |
| FileUrl.UrlIsInjective | crates/rto-exec/src/file_url.rs:40-44 | different paths have different URLs |
| FileUrl.GeneralDecoderAgrees | crates/rto-exec/src/file_url.rs:28-41 | a general percent-decoder (section 2.1 of RFC 3986) reads the same path from every emitted URL |
| FileUrl.SwappedEncoderIff | crates/rto-exec/src/file_url.rs:67-72 | with the encoder's passes swapped the round trip holds iff the path has no space |
| FileUrl.SwappedDecoderIff | crates/rto-exec/src/file_url.rs:89-94 | with the decoder's passes swapped the round trip holds iff the path does not spell `%20` |
| FileUrl.LocalhostIsLiteral | crates/rto-exec/src/file_url.rs:83-88 | a URL takes the localhost form iff the path itself begins with `localhost`; it then names what follows if that begins with a slash, and nothing otherwise |
| RuntimeFiles.CheckEntryMeansAcceptable | crates/rto-exec/build.rs:401-474 | the branch-by-branch classification raises no problem iff the entry is acceptable, and verifies iff it is also embedded |
| RuntimeFiles.FindingIs | crates/rto-exec/build.rs:401-474 | what is found wrong with an entry, and exactly when, from the link or directory to the first pin of its name, its size and digest, and its mode |
| RuntimeFiles.WalkEntries | crates/rto-exec/build.rs:336-356 | names verified and problem lines are exactly those of the entries listed, in order; the first unreadable step aborts |
| RuntimeFiles.ReportMissing | crates/rto-exec/build.rs:358-367 | a pin gets a line of its own iff it is absent and neither a line about an entry nor an earlier pin's own line contains its name; every absent pin is named in some line |
| RuntimeFiles.VerifyExtracted | crates/rto-exec/build.rs:316-384 | accepts iff every embedded file is pinned with its size and digest and no setuid or setgid bit, every pin is there, and all else is the manifest or a link to a pinned sibling; a refusal's lines are exactly those of the bad entries and of the absent pins that get one, and name every absent pin |
| RuntimeFiles.ClosedWorldIff | crates/rto-exec/build.rs:306-371 | what is accepted, spelled out in names, sizes, digests, mode bits and link targets |
| RuntimeFiles.AcceptedIsExactlyThePinned | crates/rto-exec/build.rs:306-371 | an accepted directory embeds exactly the pinned names, so the number reported is the number of pins |
| RuntimeFiles.AcceptedBytesArePinned | crates/rto-exec/build.rs:443-473 | each embedded file of an accepted directory has its pin's size and digest and no privileged mode |
| RuntimeFiles.PrivilegedIff | crates/rto-exec/build.rs:481-486 | a mode is privileged iff it has the set-user-ID or the set-group-ID bit |
| RuntimeFiles.AbsentPinHidesBehindALongerName | crates/rto-exec/build.rs:358-361 | with `lib` absent and `lib.so` altered, the whole report is the one line about `lib.so` |
| ConfigLayers.MergePatterns | crates/roteiro/src/config.rs:1914-1930 | the loop merges as specified: inherited patterns, then each new one once |
| ConfigLayers.MergingIsAMonoid | crates/roteiro/src/config.rs:1914-1930 | merging is associative and an unset list is its identity |
| ConfigLayers.MergedIsUnion | crates/roteiro/src/config.rs:1914-1930 | the inherited list is an untouched prefix and the members are exactly the union |
| ConfigLayers.MergedOrder | crates/roteiro/src/config.rs:1918-1927 | what is appended is new, distinct, and in the order the nearer layer first names it |
| ConfigLayers.MergeIgnore | crates/roteiro/src/config.rs:1898-1903 | a pattern is in force iff the nearer layer names it, or an inherited one does and nothing was reset; without a reset the inherited list stays in front untouched |
| ConfigLayers.Load | crates/roteiro/src/config.rs:1970-1986 | a pattern is effective iff the project names it, or the user does and no reset is recorded; the record says reset iff the project reset |
| ConfigLayers.ProvenanceIsNeverUnknown | crates/roteiro/src/config.rs:48-76 | for any two layers every effective pattern is labelled, in order, with exactly the layers that name it, never "unknown"; under a reset never the user alone |
| ConfigLayers.UserPatternsAreAccountedFor | crates/roteiro/src/config.rs:134-159 | under a reset the user's patterns split, duplicates counted, into effective and discarded; otherwise none is discarded or lost |
| ConfigLayers.DiscardedIffLost | crates/roteiro/src/config.rs:134-159 | the discarded list is non-empty iff some user pattern is no longer effective |
| ConfigLayers.OverlayPaths | crates/roteiro/src/config.rs:2015-2024 | in both path lists no pattern of the user's is lost or moved, and exactly the project's are added |
| ConfigLayers.PathPatternsAreKeptAndTraced | crates/roteiro/src/config.rs:87-112 | no pattern of either layer is lost and each one in force is traced to exactly the layers that name it |
| ConfigLayers.NarrowedBy | crates/roteiro/src/config.rs:1729-1738 | the names both layers allow |
| ConfigLayers.ToolLayersFormAMeet | crates/roteiro/src/config.rs:1752-1761 | layering is associative, idempotent, unchanged by a silent layer, and order-independent in what it advertises |
| ConfigLayers.AdvertisedIffNoLayerDenies | crates/roteiro/src/config.rs:1688-1700 | however many layers, a tool is advertised iff no layer denies it |

## Left out

- ManagedBlock.AgentsFile.Ensure: reading and writing always succeed, and trailing white space is the ASCII kind; the section's body is any text without a marker that does not end in a blank line.
- PngFile.DecodePng: zlib is a parameter, and checksums are not verified, by the program either.
- LinkWriting.Workspace.WriteLinks: the withdrawal of placeholder nodes from a re-imported layer is not modelled; project names hold no `::`, as the registry demands, and do not end in a colon.
- OverrideMatrix.Build: the empty-matrix test and all rendering are left out.
- EventStream.ReadStream: starts at classified lines; JSON decoding and the literal spelling of the two tags are not modelled.
- CellReport.ParseLog: starts at recognised lines; escape stripping, the patterns and the text of the report are not modelled.
- VarExpansion.CleanIsStructural: one way; a splice may also complete a `var(` and still leave the right answer, and whether it does depends on the whole expansion.
- VarExpansion.Resolve: trimming removes the four ASCII blanks, not all Unicode white space.
- FileUrl.RoundTripIff: paths are text; bytes that are not UTF-8, which the program replaces, are not modelled.
- UniqueNames.DedupeWorkspaceName: the suffix is unbounded; the program's 32-bit counter cannot overflow before it has met that many used names.
- WorkspaceResolution.ResolvedWorkspaces: discovery of standalone repositories is a parameter, as is tilde expansion.
- RuntimeFiles.VerifyExtracted: names are already decoded text, and the final sorting of the problem lines is left out.
- Error wording everywhere: errors are datatypes carrying the names the message prints.
- `compare` and `on_white` of the pixel proof, `parse_embeddings`, `parse`, `build_scope`, `compute_hotspots` and `cfgkey_file`: would only add easier members.
- The scalar keys of the configuration overlay, the remote and lint grants and the whole-entry overlays: one-line choices.
- HTTP routes, rendering, hooks, provisioning scripts and every other use of files, network or the database.
