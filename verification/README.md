# Content pipelines: a verified model

The repository's scripts seed daily content, compile and publish Football Grid releases, import translations, run
worker pools and send a mail blast. This project models the parts of these scripts whose correctness depends on an
order of events, on a crash, or on an algorithm, and proves what the scripts promise about them. `dafny verify
dfyconfig.toml` checks everything.

Every SQL statement or transaction is one atomic step. The database clock never goes back, but it may stand still.
Clocks, random tokens and ids, the answers of foreign services, and what other transactions have done are parameters.
Scripts that change things step by step are classes and methods; each method is tied to a function of the old state,
and the promises are lemmas about that function and invariants of the class. Printers, relations and arithmetic are
functions and lemmas. What a method and its specification both compute with is stated once more in terms of neither: by
its own row, by counting places, by the steps of a run, or by a reader written apart from the printer.

## What is modelled

- **Daily grid days** (`GridDailyTable`, `GridDailyProtocol`). `GridDailyTable` holds the statements of the seeding
  script, its two transactions and its pass loop, for a run that is alone. `GridDailyProtocol` interleaves any number of
  seeding runs, each of which may crash at any step, with match starts. Published days are safe for ever. The wait for
  older transactions compares `xact_start < since` strictly: the safety rests on the clock having moved between the
  start of an older transaction and `since`, and `BarrierExact` shows that this is exactly what it rests on;
  `TieFromInit` runs into the tie from an empty table.
- **Grid releases.** `ReleaseContent`, `ReleasePublish` and `ReleaseProtocol`: the answer rows of a manifest, the
  resumable publish, and its interleaving with activations and retirements. `BoardGeneration`: the search for candidate
  boards and the selection. A board's key is a prefix of its checksum; where keys clash, the filter by key drops boards
  outside the quota with it, and the selection comes out shorter (`Select`). `CanonicalJson` and `ManifestMatch`: the
  canonical printer and the comparison built on it. `JsonReader` is a reader of JSON texts as RFC 8259 defines them,
  apart from the printer; it reads back what is printed (`StableIsJson`), and no shorter text reads as the same
  (`StableIsShortest`). Object keys that the collation cannot tell apart are printed in insertion order (`TieMatters`),
  so the printer is canonical exactly without such ties (`StableExact`). `EvidenceExport`, `BoardExport` and
  `ReleaseExport`: the two round trips of export, for one cell and for a whole release. A sample that is no player of
  its cell, or is repeated, gets no rank: in front of a sample that counts it makes the export fail, behind all of them
  it is lost without an error (`WriteThenExport`, `StraySamples`). `CorrectionRules` and `AnswerCorrections`,
  `CoverageRules` and `CatalogCoverage`, `CellCompletion`, `AdditiveManifest` and `PrescribedCorrection`: the two
  transforms, as rules and as the methods that follow them, the gate a rehearsal must pass, and the comparison with the
  recomputed correction. A release that a named batch made cannot be corrected by the default batch
  (`DefaultAfterNamed`). `QuarantineTransfer`: quarantines carried over to a new release.
- **Seeding of the other games.** `GapScan` and `ContentLedger`: the one-pass schedule check and the two-sided ledgers.
  A corrected day is written only when its 32-bit version changes; with two card lists of one version the schedule that
  was checked is not the one that is stored (`StoredIsChecked`, `CollisionBreaks`). `RoomPool`: switching the room pool
  between releases. Its rule that a hand-disabled row stays disabled has an exception: when every row of the live
  release is disabled by hand, the release counts as retired and the next seed enables all of it (`HandDisabledStays`).
- **Workers, mail, scores, labels, imports.** `WorkerPool`: the pool of translation workers under every order of its
  awaits. `MailBlast`: sequential runs of the announcement blast. A run can die between a mail and its record; the
  address then gets the mail once more, and only then (`RepeatMeansCrash`, `OneMailPerCrash`). `ScoreLedger`: idempotent
  crediting of score events. `LabelSlots` and `GermanLabels`: the two ways to assign fixture slots to labels.
  `LocaleTree` and `LocaleImport`: plan, apply and roll back of the translation importer. Rolling back restores the
  state before applying exactly when no planned scalar cell was edited, since scalar cells are not compared before they
  are written, and every number of the planned JSON cells survives JavaScript's reading (`RollbackExact`); an integer
  above 2^53 beside a translated text does not (`LargeNumberLost`).

## Model

| member | source | states |
|---|---|---|
| GridDailyTable.Candidates | scripts/grid-daily-seed-days.ts:91-121 | the pool query: only eligible boards, one per checksum, at most n, and fewer than n only when every eligible checksum is taken; the picks are the first of their checksum in the order of preference, and every free checksum left out comes after all of them |
| GridDailyTable.MissingDays | scripts/grid-daily-seed-days.ts:86-134 | exactly the wanted and replaced days without a row, each once |
| GridDailyTable.GridDailyDays.InsertRows | scripts/grid-daily-seed-days.ts:125-131 | inserts one row per missing day under the token; days that exist are left alone |
| GridDailyTable.GridDailyDays.ReserveMissing | scripts/grid-daily-seed-days.ts:86-134 | all missing days get an eligible board of a checksum of their own, or nothing changes; it fails if and only if fewer checksums are free than days are missing |
| GridDailyTable.PickedSize | scripts/grid-daily-seed-days.ts:91-121 | the query comes short of n if and only if fewer than n checksums are free |
| GridDailyTable.GridDailyDays.SettleReserved | scripts/grid-daily-seed-days.ts:157-183 | alone: each reserved day is judged by its own board: dropped, and reported, if and only if its own checksum is live, published otherwise; an error if and only if something was reserved and the wait did not end |
| GridDailyTable.ReservePass | scripts/grid-daily-seed-days.ts:185-196 | reserving again publishes nothing, and keeps every row |
| GridDailyTable.SettlePass | scripts/grid-daily-seed-days.ts:185-196 | a pass leaves nothing reserved; every day is published or given back |
| GridDailyTable.SeedDays | scripts/grid-daily-seed-days.ts:185-196 | a run that returns normally has published every wanted day in at most three passes, left nothing reserved and counted right; it fails if and only if a pass found too few boards, a wait did not end, or the last pass still dropped a day; on every outcome days published before are untouched, and a day a pass published had a board that was free when that very pass read the live matches again |
| GridDailyTable.SettledIs | scripts/grid-daily-seed-days.ts:160-181 | take over, drop and publish one after the other come to one decision per row, by its checksum |
| GridDailyTable.SettleKeeps | scripts/grid-daily-seed-days.ts:157-183 | settling counts what it publishes and drops, and keeps one day per checksum |
| GridDailyTable.InsertKeeps | scripts/grid-daily-seed-days.ts:86-134 | inserting eligible picks keeps one day per checksum |
| GridDailyTable.SettleProgress | scripts/grid-daily-seed-days.ts:157-183 | settling is one more pass of the run: it is judged by the live matches this very pass has read, and nothing was published between the passes |
| GridDailyTable.SettleStage | scripts/grid-daily-seed-days.ts:157-183 | settling keeps published days as they are, and publishes no day whose board is among the live ones it was given |
| GridDailyProtocol.InvStep | scripts/grid-daily-seed-days.ts:11-22 | every step of every run and every match start keeps the protocol's invariant |
| GridDailyProtocol.InvRun | scripts/grid-daily-seed-days.ts:86-183 | so does every interleaving in which no run notes `since` before the clock has passed the older open transactions |
| GridDailyProtocol.PublicationSafety | scripts/grid-daily-seed-days.ts:11-22 | from an empty table on, over every such interleaving, crashes included, no live match ever stands on a published day's board |
| GridDailyProtocol.PublishedForever | scripts/grid-daily-seed-days.ts:86-183 | a published day keeps its row in every later state, and no later live match is on its board |
| GridDailyProtocol.OwnershipStep | scripts/grid-daily-seed-days.ts:157-183 | no step changes or deletes a published day; a reserved one is dropped or published only by the run whose token it carries |
| GridDailyProtocol.TokenIsContinuous | scripts/grid-daily-seed-days.ts:157-183 | a row published by a run carried that run's token, unchanged, since the run's takeover |
| GridDailyProtocol.TieIsUnsafe | scripts/grid-daily-seed-days.ts:137-154 | if an older match start began at the very clock reading `since`, a continuation publishes a day under a live match |
| GridDailyProtocol.TieFromInit | scripts/grid-daily-seed-days.ts:137-154 | and such a tie is reached from an empty table: the steps of one run and one match start, with the clock standing still, end with a published day under a live match |
| GridDailyProtocol.BarrierExact | scripts/grid-daily-seed-days.ts:147 | noting `since` leads to safe states only if and only if the clock has moved past every open transaction older than a row the run holds |
| GridDailyProtocol.NoBoardTwice | scripts/grid-daily-seed-days.ts:86-134 | with reserving transactions that do not overlap no board is ever on two days, whatever else interleaves, match starts between query and insert included |
| GridDailyProtocol.ReadLiveJudges | scripts/grid-daily-seed-days.ts:157-169 | reading the live matches sorts every row of the run by its own checksum: among the clashing if and only if a live match has it, among the clean otherwise |
| GridDailyProtocol.FreeRowIsPublished | scripts/grid-daily-seed-days.ts:160-181 | a row whose board no live match had is not dropped by the run, and if it is still there when the run publishes, it is published then, whatever steps others take in between |
| GridDailyProtocol.LiveRowIsDropped | scripts/grid-daily-seed-days.ts:160-178 | a row whose board a live match had is gone once the run has dropped its clashing days |
| CanonicalJson.TokenUnique | scripts/football-grid-content.ts:132-140 | the escape of a code unit or surrogate pair can be read off a text in one way only |
| CanonicalJson.EscapeUnique | scripts/football-grid-content.ts:132-140 | so can an escaped string up to its closing quote |
| CanonicalJson.PrintUnique | scripts/football-grid-content.ts:132-140 | a printed value can be read off the front of any text in one way only |
| CanonicalJson.StableInjective | scripts/football-grid-content.ts:132-140 | two values with the same printed form are equal up to the order of object keys, whatever the collation |
| CanonicalJson.StableExact | scripts/football-grid-content.ts:132-140 | when the collation tells the keys apart, printed forms are equal if and only if the values are equal up to key order |
| CanonicalJson.TieMatters | scripts/football-grid-content.ts:132-140 | two keys the collation cannot tell apart: equal objects that print differently |
| CanonicalJson.CanonIsCanonical | scripts/football-grid-content.ts:132-140 | the keys of every object of the sorted value are in strictly ascending order, when the collation tells them apart |
| JsonReader.StableIsJson | scripts/football-grid-content.ts:132-140 | the printed form is a JSON text by RFC 8259, for every value and collation: a reader with literal code units reads it as the value with sorted keys, and so as what the value says |
| JsonReader.ReadsBack | scripts/football-grid-content.ts:132-140 | the same for one printed value in front of anything that may follow it |
| JsonReader.StableIsShortest | scripts/football-grid-content.ts:132-140 | no text that reads as the same is shorter: no white space, nothing escaped that need not be, and the short escape where there is one |
| JsonReader.SmallLetters | scripts/football-grid-content.ts:132-140 | escapes are written with small letters |
| ManifestMatch.SortTextsSorts | scripts/football-grid-content.ts:147-153 | the sort of the printed aliases is a sorted permutation |
| ManifestMatch.SortedUnique | scripts/football-grid-content.ts:147-153 | a multiset of texts has one sorted form |
| ManifestMatch.BagsAgree | scripts/football-grid-content.ts:147-153 | lists whose printed forms are permutations are permutations themselves |
| ManifestMatch.MatchExact | scripts/football-grid-content.ts:147-153 | the match holds if and only if everything but the aliases is equal and the alias lists are permutations, unless the checksum collides on the two texts |
| EvidenceExport.SameChecksum | scripts/football-grid-content.ts:517-544 | the order in which export assembles the fields does not matter to the checksum |
| EvidenceExport.EvidenceSays | scripts/football-grid-content.ts:41-53 | the text that is checksummed is a JSON object with the eight names of the schema, and says what the evidence does: a date is left out, null or a text, and the time is seconds, a dot before digits if there are any, and Z |
| EvidenceExport.CandidateDenotes | scripts/football-grid-content.ts:517-544 | every candidate that is tried stores as the same columns |
| EvidenceExport.CandidatesComplete | scripts/football-grid-content.ts:517-544 | every evidence object that could have been stored as the row is among the candidates |
| EvidenceExport.StoreInjective | scripts/football-grid-content.ts:1086-1114 | two evidence objects stored alike are one object, unless the checksum collides on these two, although null against omitted and the precision are lost |
| EvidenceExport.TryPrecision | scripts/football-grid-content.ts:524-540 | the inner loops find the candidate of one precision with the stored checksum if there is one |
| EvidenceExport.ProjectEvidence | scripts/football-grid-content.ts:511-544 | fails only on a row no object is stored as; otherwise every field is read off its column, the checksum is the stored one, and it is the very object the row was made of unless the checksum collides on the two |
| ReleaseContent.RowsExact | scripts/football-grid-content.ts:1244-1270 | the inserted rows are exactly the answers of the boards: player, cell, and the first rank among the samples |
| ReleaseContent.RankExact | scripts/football-grid-content.ts:1255-1266 | the rank is the place of the first mention among the samples, counted from one, and none for a player who is no sample |
| ReleaseContent.SlotDecides | scripts/football-grid-content.ts:1211-1243 | two rows of the manifest with one primary key are one row |
| ReleaseContent.InsertNewIsUnion | scripts/football-grid-content.ts:1211-1243 | for stored rows of the same manifest, ON CONFLICT DO NOTHING is set union |
| ReleaseContent.CountForcesEquality | scripts/football-grid-content.ts:1271-1277 | stored rows that are some of the manifest's and have its count are exactly the manifest's, and no cell repeats a player |
| ReleaseContent.BoardCountForcesEquality | scripts/football-grid-content.ts:1244-1254 | the same for one board |
| ReleasePublish.SkipIsSound | scripts/football-grid-content.ts:1244-1254 | a board skipped by its count has all its rows stored |
| ReleasePublish.Store.Flush | scripts/football-grid-content.ts:1211-1243 | a committed batch adds its rows and keeps stored answers within the manifest's |
| ReleasePublish.Store.FlushBoards | scripts/football-grid-content.ts:1244-1270 | the board loop ends with every row stored, or dead after a committed batch; a stored answer is never lost |
| ReleasePublish.Store.Complete | scripts/football-grid-content.ts:1172-1282 | resuming ends done with exactly the manifest's answers, refused on a repeated player, or dead |
| ReleasePublish.Store.Publish | scripts/football-grid-content.ts:952-1284 | whatever the crash point the store stays in order and other releases are untouched; done means exactly the manifest's answers are staged; refused, with nothing changed, when a checksum repeats or the version is taken by other content or past staging, and otherwise only when a cell repeats a player |
| ReleaseProtocol.InvStep | scripts/football-grid-content.ts:952-1284 | publishers, activations, retirements and crashes in any order keep the invariant |
| ReleaseProtocol.InvRun | scripts/football-grid-content.ts:952-1284 | so does every run of them, from a state without stored answers on |
| ReleaseProtocol.FlushKeeps | scripts/football-grid-content.ts:1211-1243 | a late batch of another publisher never changes a release that is complete |
| ReleaseProtocol.ForwardStep | scripts/football-grid-content.ts:1278-1282 | a step moves a release at most one status forward and never changes its content |
| ReleaseProtocol.ForwardRun | scripts/football-grid-content.ts:1483-1495 | over any run the status only moves draft, feasibility, published, retired, and rows are fixed once draft is left |
| ReleaseProtocol.ReachableExact | scripts/football-grid-content.ts:1271-1282 | in every state reached from one without stored answers, a staged, published or retired release holds exactly its manifest's answers |
| ReleaseProtocol.ActivationPinsSources | scripts/football-grid-content.ts:1408-1431 | when an activation commits, every source it pinned is published and unchanged |
| ReleaseProtocol.LockHolds | scripts/football-grid-content.ts:1408-1431 | nobody unpublishes a source between an activation's lock and its end |
| ReleaseProtocol.StepTells | scripts/football-grid-content.ts:952-1495 | what each step does to each release: only a first publisher creates it, empty; only finalizing, activating and retiring it move its status; only a flush of its publisher adds rows, of that batch, and leaves every slot of the batch filled |
| ReleaseProtocol.PublisherFinishes | scripts/football-grid-content.ts:1244-1282 | from every reachable state a publisher of a draft that repeats no player can finish: flushing, counting and finalizing stage exactly its manifest's answers |
| ReleaseProtocol.CanActivate | scripts/football-grid-content.ts:1408-1431 | a staged release whose sources are all published can be activated, and is published then |
| BoardExport.ProjectBoard | scripts/football-grid-content.ts:552-598 | nine cells with the listed players, and the samples in rank order; an error if and only if some cell's ranks are not 1 to n |
| BoardExport.CollectPlayers | scripts/football-grid-content.ts:552-598 | succeeds if and only if every row's sample flag agrees with its rank, its two names and its image are there, and the rows of a player agree; collects one record per player |
| BoardExport.ProjectExportedBoards | scripts/football-grid-content.ts:552-598 | succeeds if and only if every board and every display record does |
| BoardExport.SamplesAreFront | scripts/football-grid-content.ts:732-737 | in the query's order the samples come first, by rank |
| BoardExport.SamplesSorted | scripts/football-grid-content.ts:552-598 | the samples are exactly the rows with a rank, by rank, in whatever order the rows come |
| BoardExport.WriteThenExport | scripts/football-grid-content.ts:1255-1266 | a written cell reads back if and only if no sample that counts follows one that does not; players are the cell's, samples the ones that count; they are the cell's own samples if and only if those are distinct players of it |
| BoardExport.StraySamples | scripts/football-grid-content.ts:1255-1266 | the two failing cells: a stray sample in front makes the export fail, a stray sample behind is lost without an error |
| BoardExport.ExportIsFixedPoint | scripts/football-grid-content.ts:552-598 | publishing an exported cell stores the same rows, so a second listing of it is the first |
| ReleaseExport.ReleaseRoundTrip | scripts/football-grid-content.ts:552-598 | for a whole release: exporting what publish wrote succeeds if and only if in every cell the samples that count come first and every listed player's display record is complete; it gives one board per key with the same cells and samples, and the display records as they were |
| ReleaseExport.RanksFine | scripts/football-grid-content.ts:1255-1266 | the ranks of every cell of every board read 1 to n if and only if in every cell the samples that count come first |
| ReleaseExport.DisplaysFine | scripts/football-grid-content.ts:552-598 | the rows of a written release always agree about a player, and are complete if and only if every listed player's display record is |
| ReleaseExport.CellListed | scripts/football-grid-content.ts:728-739 | in the query's order the rows of one cell of one board are a listing of what publish wrote for it |
| ReleaseExport.ExportedIsWritten | scripts/football-grid-content.ts:1244-1270 | publishing the exported boards and display records stores the very rows that were exported |
| ReleaseExport.SecondExportIsSame | scripts/football-grid-content.ts:552-598 | so a second export succeeds and gives the same boards and display records as the first |
| BoardGeneration.ChoicesExact | scripts/football-grid-content.ts:263-278 | the choices are exactly the subsequences of the given length |
| BoardGeneration.ChoicesDistinct | scripts/football-grid-content.ts:263-278 | no choice comes twice when the values are distinct |
| BoardGeneration.Enumeration.Visit | scripts/football-grid-content.ts:263-278 | the recursion with push and pop appends exactly the completions of what is chosen, and leaves `chosen` as it was |
| BoardGeneration.Enumeration.VisitLoop | scripts/football-grid-content.ts:263-278 | the loop with its index bound misses no completion |
| BoardGeneration.Combinations | scripts/football-grid-content.ts:263-278 | returns all choices, in order |
| BoardGeneration.PrefilterExact | scripts/football-grid-content.ts:309-328 | the neighbor prefilter lets through exactly the column choices whose nine intersections are large enough |
| BoardGeneration.NinePairs | scripts/football-grid-content.ts:336-343 | the nine cells are the nine pairs of a row and a column |
| BoardGeneration.FairExact | scripts/football-grid-content.ts:280-343 | a choice is admissible if and only if it is, counting places: enough criteria of each kind, nine large enough intersections, and what the difficulty asks |
| BoardGeneration.BoardIsFair | scripts/football-grid-content.ts:280-358 | a generated board is hard if and only if at least two of its six criteria are, normal if and only if it is not hard and one is hard or three are normal; its cells are the intersections |
| BoardGeneration.GeneratedCellSound | scripts/football-grid-content.ts:280-343 | a generated cell is the intersection, each player once, with at most two samples that it lists |
| BoardGeneration.Generator.Consider | scripts/football-grid-content.ts:325-356 | an admissible choice is found, by its checksum; only admissible ones become boards, each checksum once |
| BoardGeneration.Generator.AddColumns | scripts/football-grid-content.ts:325-357 | below the cap every admissible column choice of the rows has been found |
| BoardGeneration.Generator.Generate | scripts/football-grid-content.ts:293-358 | sound, distinct checksums, and complete unless the cap stopped it |
| BoardGeneration.FindCandidates | scripts/football-grid-content.ts:293-358 | admissible boards with different checksums, at most the cap, and below the cap one for every admissible checksum; difficulty and cells stated by counting, apart from the functions of the search |
| BoardGeneration.TargetsFit | scripts/football-grid-content.ts:360-364 | easy and normal are the nearest whole numbers to a quarter and six tenths of the limit, and with hard, the rest, they make it up |
| BoardGeneration.Select | scripts/football-grid-content.ts:365-374 | exactly min(limit, found less shadowed) boards, no found board twice, the first boards of each difficulty up to its quota among them; the full number if and only if no key of a board left over is taken or enough are left; when there are fewer, every found board has the key of a selected one |
| BoardGeneration.SelectCandidates | scripts/football-grid-content.ts:360-374 | the selection among the boards found, as the whole promises it, for every key function |
| BoardGeneration.RemainderFits | scripts/football-grid-content.ts:365-374 | filling up with boards whose keys are not taken reaches min(limit, all less the shadowed ones) different boards |
| BoardGeneration.GenerateCandidateBoards | scripts/football-grid-content.ts:293-375 | admissible boards with checksums of their own, each labelled by counting its hard and normal criteria, the first of each difficulty up to its quota among them, min(limit, found less shadowed) in all; fewer than the limit means that every admissible choice has the key of one of them, or that the cap stopped a search the keys then shadowed; where keys tell admissible checksums apart, keys differ and fewer means nothing is left |
| AdditiveManifest.AdditiveReflexive | scripts/football-grid-staging-research.ts:38-77 | every manifest with unique keys is above itself |
| AdditiveManifest.AdditiveTransitive | scripts/football-grid-staging-research.ts:38-77 | the content conditions of the gate are transitive, so transforms may be chained |
| AdditiveManifest.AdditiveExact | scripts/football-grid-staging-research.ts:38-77 | the relation spelled out: every old row, source and player there unchanged, criteria that differ at most in their count, which never falls, no alias lost, one grown successor for every old board |
| AdditiveManifest.IndexBy | scripts/football-grid-staging-research.ts:29-35 | the map by key, whose size tells whether a key repeats |
| AdditiveManifest.UnchangedSubset | scripts/football-grid-staging-research.ts:29-35 | succeeds if and only if keys are unique and every old row is there unchanged |
| AdditiveManifest.AliasesIncluded | scripts/football-grid-staging-research.ts:52-58 | the counting loop decides multiset inclusion |
| AdditiveManifest.BoardsIncluded | scripts/football-grid-staging-research.ts:66-76 | succeeds if and only if every old board has one successor with its definition, its samples and all its answers |
| AdditiveManifest.AssertAdditive | scripts/football-grid-staging-research.ts:38-77 | succeeds if and only if the candidate names itself a staging rehearsal of exactly this source, its versions fit, and it is above the source in the additive relation |
| CellCompletion.CompleteCell | scripts/football-grid-answer-corrections.ts:254-277 | the old list is a prefix, the whole is exactly the intersection, nobody is added twice |
| CellCompletion.CompleteCells | scripts/football-grid-answer-corrections.ts:254-277 | the same for the cells of a board, with the growth counted |
| CellCompletion.CompleteBoard | scripts/football-grid-answer-corrections.ts:254-277 | the version rises by one if and only if some cell grew |
| CellCompletion.CompleteBoards | scripts/football-grid-answer-corrections.ts:254-277 | fails if and only if a stored answer lacks a membership; otherwise every cell is the intersection and the counters are the total growth |
| CellCompletion.CompletedGrows | scripts/football-grid-answer-corrections.ts:254-277 | completed boards keep their definition, samples and answers |
| CellCompletion.BoardsDetermined | scripts/football-grid-answer-corrections.ts:254-277 | a completion leaves no choice: the completed boards are one function of the boards and the members |
| CellCompletion.CompletionExists | scripts/football-grid-answer-corrections.ts:254-277 | and there is one whenever every stored answer has both its memberships |
| CellCompletion.CompletionIdempotent | scripts/football-grid-catalog-coverage.ts:108-120 | completing again with the same memberships changes nothing and counts nothing |
| CorrectionRules.MemberSetsExact | scripts/football-grid-answer-corrections.ts:175-179 | the sets per criterion hold exactly the players with a membership |
| CorrectionRules.CollectMembers | scripts/football-grid-answer-corrections.ts:175-179 | the loop over memberships computes exactly these sets |
| AnswerCorrections.Draft.ImportPlayer | scripts/football-grid-answer-corrections.ts:203-212 | adds the catalog record and its image; each of the catalog's exact aliases is there afterwards, as it is or as one with the same spelling, locale and kind; nothing else comes in |
| AnswerCorrections.Draft.TakeOver | scripts/football-grid-answer-corrections.ts:191-212 | a player is taken over if and only if the catalog has him, with exact aliases in both languages and an image that fits; he then has all of them |
| AnswerCorrections.Draft.AddMembership | scripts/football-grid-answer-corrections.ts:213-226 | one row with the correction's source, unless the player is a member already |
| AnswerCorrections.Draft.AddFact | scripts/football-grid-answer-corrections.ts:180-227 | refused, without a change, if and only if it matters and is about another name or someone who cannot be imported; otherwise it holds, unless it is for present players only; no membership but the fact's is added |
| AnswerCorrections.AddFacts | scripts/football-grid-answer-corrections.ts:180-227 | succeeds if and only if no fact is refused at its turn, and then the release is the one with the facts taken in order |
| CorrectionRules.TakeFactsHold | scripts/football-grid-answer-corrections.ts:180-227 | in that release all facts hold or were rightly skipped, every new membership states one of them, and players and aliases come from the catalog |
| AnswerCorrections.Draft.AddReviewedAlias | scripts/football-grid-answer-corrections.ts:228-247 | refused if and only if its player is missing or named differently, it is empty, or another player has it; otherwise the player has it, and at most this one row is added |
| CorrectionRules.PassesExact | scripts/football-grid-answer-corrections.ts:180-227 | when a fact passes, spelled out: no criterion of the release, or only for present players, or the same name here and in the catalog and a player who is here or can be imported |
| CorrectionRules.AliasPassesExact | scripts/football-grid-answer-corrections.ts:228-247 | when a reviewed alias passes, spelled out |
| AnswerCorrections.AddReviewedAliases | scripts/football-grid-answer-corrections.ts:228-247 | succeeds if and only if no reviewed alias is refused at its turn |
| CorrectionRules.TakeAliasesHold | scripts/football-grid-answer-corrections.ts:228-247 | then every reviewed alias is its player's, or was for present players and its player is absent; only reviewed rows are added |
| AnswerCorrections.AddFamilyAliases | scripts/football-grid-answer-corrections.ts:124-153 | every form of an anchored player's name is a spelling afterwards; only such forms are added, each a new spelling when added, and counted |
| AnswerCorrections.Draft.CountMembers | scripts/football-grid-answer-corrections.ts:249-253 | the criteria that gained a member, and only these, have their members counted again |
| CorrectionRules.FilledHolds | scripts/football-grid-answer-corrections.ts:180-253 | together: all facts and reviewed aliases, every form of an anchored name, the counts of exactly the criteria that gained a member, and nothing from anywhere else |
| CorrectionRules.FilledFacts | scripts/football-grid-answer-corrections.ts:180-253 | every fact is in the filled release or was rightly skipped, every new membership is the row of a fact, every imported player has the catalog's exact aliases and image, and the counts are right |
| CorrectionRules.FilledNames | scripts/football-grid-answer-corrections.ts:124-247 | every reviewed alias and every form of an anchored name is there, and no alias from anywhere else |
| CorrectionRules.RecountedIsRight | scripts/football-grid-answer-corrections.ts:249-253 | a criterion that gained a member has as its count the number of different players with a membership there; the others keep theirs |
| CorrectionRules.SupportedExact | scripts/football-grid-answer-corrections.ts:254-277 | the boards are supported if and only if every stored answer of every cell has a membership in the row's and in the column's criterion |
| CorrectionRules.PreparableExact | scripts/football-grid-answer-corrections.ts:155-298 | when a correction can be prepared, spelled out |
| CorrectionRules.GrownIsAdditive | scripts/football-grid-staging-research.ts:38-77 | a manifest that only grew, with completed boards, is above its base in the additive relation |
| AnswerCorrections.PrepareAnswerCorrections | scripts/football-grid-answer-corrections.ts:155-298 | goes through if and only if the batch is known and new to the source, the version higher, the time valid, no fact or alias refused at its turn and every stored answer has both its memberships; the draft then holds the whole correction, imported players with all their exact aliases, is above its source, and its growth is counted |
| AnswerCorrections.ApproveAnswerCorrections | scripts/football-grid-answer-corrections.ts:301-323 | goes through if and only if a waiting draft of a correction meets a named reviewer and a valid time and no other source is unreviewed; it then signs the correction source, the changed boards and the release with reviewer and time, and changes nothing else |
| AnswerCorrections.ApprovalAdditive | scripts/football-grid-answer-corrections.ts:301-323 | approving keeps a draft above its source |
| AnswerCorrections.CorrectAndApprove | scripts/football-grid-answer-corrections.ts:155-323 | prepare and approve succeed together if and only if the corrected release exists, and give it; it is above the source: nothing served is changed or lost |
| CorrectionRules.CorrectedHolds | scripts/football-grid-answer-corrections.ts:155-323 | the corrected release holds the whole correction and nothing else: facts, reviewed and family aliases, imported players with the catalog's exact aliases and images, counts of different players; every cell is exactly its intersection; snapshot, versions and signatures are recorded, and no source and no board in it is unreviewed |
| CorrectionRules.SourceApproved | scripts/football-grid-answer-corrections.ts:311-315 | only a release whose sources are all approved can be corrected |
| CorrectionRules.DefaultAfterNamed | scripts/football-grid-answer-corrections.ts:278-286 | a release made by a named batch can never be corrected by the default one: the draft keeps the old name, and approval refuses it |
| PrescribedCorrection.MatchesPrescribed | scripts/football-grid-content.ts:1286-1295 | fails if and only if nothing can be recomputed from the source with the candidate's own version, times, batch and reviewer; otherwise accepts if and only if the candidate is the recomputed release up to the order of alias rows; what was never prepared is refused |
| PrescribedCorrection.GenuineIsRecomputed | scripts/football-grid-content.ts:1286-1295 | a genuine correction, whatever it was made with, is what is recomputed from it, so it is accepted |
| PrescribedCorrection.AcceptedIsSound | scripts/football-grid-content.ts:1286-1295 | what is accepted passes the additive gate over its source, holds its batch and only this, and has complete cells and no unreviewed row |
| CatalogCoverage.Coverage.EnsurePlayer | scripts/football-grid-catalog-coverage.ts:45-62 | known, taken over with its aliases, or noted as unresolved; refused if and only if the names differ or the image lies elsewhere |
| CatalogCoverage.Coverage.Add | scripts/football-grid-catalog-coverage.ts:63-77 | refused if and only if a new membership's player is refused, or is there and a source is not; otherwise the membership is there or listed as unresolved, and at most this one row is added to either |
| CatalogCoverage.Coverage.TakeSource | scripts/football-grid-catalog-coverage.ts:83-88 | a missing source is taken over for review; refused if and only if the catalog lacks it or the draft has another version of it |
| CatalogCoverage.Coverage.AddCatalogFact | scripts/football-grid-catalog-coverage.ts:78-90 | one catalog row: refused if and only if it matters and means another criterion, cites a refused source, or is about a refused player |
| CatalogCoverage.Coverage.AddAuditFact | scripts/football-grid-catalog-coverage.ts:91-102 | one audited fact: refused if and only if its family may not be inferred or its membership cannot be added |
| CatalogCoverage.AddCatalog | scripts/football-grid-catalog-coverage.ts:78-90 | the catalog pass succeeds if and only if no row of the catalog is refused, judged against the draft alone |
| CatalogCoverage.CatalogExact | scripts/football-grid-catalog-coverage.ts:78-90 | it then leaves exactly the draft's memberships and the catalog's of resolvable players; exactly the others on the draft's criteria are unresolved |
| CatalogCoverage.AddAudit | scripts/football-grid-catalog-coverage.ts:91-102 | the audit pass succeeds if and only if no fact is refused in the state the catalog pass left |
| CatalogCoverage.AddableIsFine | scripts/football-grid-catalog-coverage.ts:91-102 | which can be told from draft and catalog, whatever the order of the facts |
| CatalogCoverage.GatherExact | scripts/football-grid-catalog-coverage.ts:78-102 | after both: exactly the proposed memberships of resolvable players have come in, the others are listed once each, a row is the audit's only where the catalog has none, exactly the players with new memberships were taken over, and exactly the cited sources |
| CatalogCoverage.Gather | scripts/football-grid-catalog-coverage.ts:78-102 | both passes succeed if and only if no row of either is refused |
| CoverageRules.SupportedIsCovered | scripts/football-grid-catalog-coverage.ts:105-120 | the board loop goes through if and only if every stored answer of a well formed board is, for both criteria, the draft's or a proposed membership of a resolvable player |
| CoverageRules.PeopleExact | scripts/football-grid-catalog-coverage.ts:45-62 | in the rows themselves: who can be resolved, and who is refused for another name or for an image that lies elsewhere |
| CoverageRules.CriteriaExact | scripts/football-grid-catalog-coverage.ts:78-95 | in the rows themselves: when both releases mean the same by a criterion, and which ones an audit may speak about |
| CoverageRules.SourcesExact | scripts/football-grid-catalog-coverage.ts:83-87 | in the rows themselves: which sources are refused |
| CoverageRules.AuditOfExact | scripts/football-grid-catalog-coverage.ts:27-30 | the report's first entry for the draft's release, or none |
| CatalogCoverage.PrepareCatalogCoverage | scripts/football-grid-catalog-coverage.ts:18-131 | goes through if and only if draft, catalog and report fit, no row is refused and every stored answer will be covered; then memberships, unresolved facts, names, counts and cells are exactly these, the result is above the draft, and no approval of a correction accepts it |
| QuarantineTransfer.QueryIsReplay | scripts/football-grid-content.ts:1507-1548 | "an unexpired disable with no newer enable" is the state a left-to-right reading of the log leaves |
| QuarantineTransfer.Quarantines.Transfer | scripts/football-grid-content.ts:1497-1548 | appends one row for every effective source row and target board it is due for, with the end and the reason of the source row and where it was carried from, and nothing else |
| QuarantineTransfer.TransferExact | scripts/football-grid-content.ts:1497-1548 | a target board is effectively disabled afterwards if and only if it was before or its twin is; other releases and release-level rows are untouched |
| QuarantineTransfer.TransferIdempotent | scripts/football-grid-content.ts:1507-1548 | repeated before anything expires it inserts nothing |
| QuarantineTransfer.StillDisabled | scripts/football-grid-content.ts:1507-1548 | a twin stays disabled as long as its source row does |
| WorkerPool.InvStep | scripts/campaign-quizzes-de.ts:160-188 | every step of every worker, in any order, keeps the pool's invariant |
| WorkerPool.CallsBounded | scripts/campaign-quizzes-de.ts:160-188 | at most two calls per job and forty more, although a rate limit gives its attempt back |
| WorkerPool.StopIsFinal | scripts/campaign-quizzes-de.ts:160-188 | no call starts once the run is stopped |
| WorkerPool.RunComplete | scripts/campaign-quizzes-de.ts:160-188 | when all workers are done afterJob ran exactly once per taken job, and unless stopped these are all the jobs |
| WorkerPool.StopExact | scripts/campaign-quizzes-de.ts:160-188 | over every run, told by its steps: the pool has stopped if and only if a call was over budget, or six counted failures had come with no success between them, a rate limit counting only after the first forty |
| WorkerPool.AllJobsEnd | scripts/campaign-quizzes-de.ts:160-188 | so a finished run with neither has ended every job, each once |
| WorkerPool.JobsThrough | scripts/campaign-quizzes-de.ts:160-188 | and an ended job had a call that succeeded, or both its attempts failed |
| WorkerPool.StepDecreases | scripts/campaign-quizzes-de.ts:160-188 | every step uses up a measure, the waits for a rate limit included |
| WorkerPool.RunsEnd | scripts/campaign-quizzes-de.ts:160-188 | so no schedule is infinite |
| WorkerPool.Pool.TakeNext | scripts/campaign-quizzes-de.ts:160-188 | takes the next job or ends the worker, as the step of the state machine |
| WorkerPool.Pool.Caught | scripts/campaign-quizzes-de.ts:160-188 | the catch block: rate limit, second attempt, or a miss; the sixth miss in a row stops the run |
| WorkerPool.Pool.Resume | scripts/campaign-quizzes-de.ts:160-188 | from one await to the next is one step of the state machine, and the step's outcome is what the trace tells |
| LocaleTree.SetThenGet | scripts/import-turkish-content.ts:102-121 | what is written at a path is what is found there |
| LocaleTree.SetKeepsOthers | scripts/import-turkish-content.ts:111-121 | a write is not seen by a path that is neither inside nor around it |
| LocaleTree.GetAtPath | scripts/import-turkish-content.ts:102-109 | the loop finds the value the path law speaks about, or nothing |
| LocaleTree.ApplyLocaleValue | scripts/import-turkish-content.ts:123-148 | changed if and only if the path finds an object with the item's English text and no Turkish one, unless that is to be overwritten, or the English text itself below the root; existing if and only if the translation stands there already; a change puts the translation beside the English text, and is seen only there |
| LocaleTree.ApplyLaws | scripts/import-turkish-content.ts:123-148 | a decided change never fails to be written |
| LocaleTree.ApplyAllAt | scripts/import-turkish-content.ts:231-236 | when no path is inside another, the items of a cell do not interfere: each is decided by what the cell held at its path before any of them, and its translation stays |
| LocaleTree.ReplanExact | scripts/import-turkish-content.ts:123-148 | over the result an item changes something again if and only if it did before and its translation is blank |
| LocaleTree.PrefixMatters | scripts/import-turkish-content.ts:123-148 | with one path inside another, planning again does change something |
| LocaleTree.UniqueExact | scripts/import-turkish-content.ts:230 | each path once, with the item listed last |
| LocaleTree.UniqueOrder | scripts/import-turkish-content.ts:230 | paths come in the order in which they are first listed |
| LocaleTree.ReadExact | scripts/import-turkish-content.ts:216-218 | a stored value is read as it is if and only if every number in it survives the reading |
| LocaleTree.ReadAt | scripts/import-turkish-content.ts:216-218 | reading keeps the tree: at every path there is what is stored, numbers as JavaScript reads them |
| LocaleTree.ApplyAllSurvives | scripts/import-turkish-content.ts:231-236 | translating adds no number that would not survive |
| LocaleImport.PlanCell | scripts/import-turkish-content.ts:229-238 | every item of a cell is counted once, as changed, existing or conflict, as many as come out that way |
| LocaleImport.Database.PlanJsonb | scripts/import-turkish-content.ts:199-245 | plans exactly the cells some item changes; every item of a present row is counted as what it comes out as, and every missing row |
| LocaleImport.JsonPlanned | scripts/import-turkish-content.ts:199-245 | when no path of a cell is inside another: the cell is planned if and only if it is there and some item changes it; the plan has what it holds, what was read, and the value with those items translated and all else as it was read |
| LocaleImport.ScalarPlanned | scripts/import-turkish-content.ts:247-304 | a text column is planned if and only if its row is there, it is empty or may be overwritten, and the source column holds the English text |
| LocaleImport.TreePlanned | scripts/import-turkish-content.ts:280-291 | when no path is inside another and no source text is blank: a parallel column is the source tree with every text translated, if every text is found, and is not planned otherwise |
| LocaleImport.CardPlanned | scripts/import-turkish-content.ts:306-381 | a card is planned if and only if its row is there, its three clues are, and no Turkish card is of its family or made of it |
| LocaleImport.Database.WriteJson | scripts/import-turkish-content.ts:399-425 | succeeds if and only if every cell still holds what was planned against |
| LocaleImport.Database.ApplyChanges | scripts/import-turkish-content.ts:383-462 | all or nothing: applied if and only if no JSON cell changed since planning and no new id is taken; then every planned cell has its value, every new card is there, and everything else is as it was |
| LocaleImport.Database.Rollback | scripts/import-turkish-content.ts:464-489 | every touched cell gets its backup, exactly the inserted cards go, and everything else is as it was |
| LocaleImport.PlanFits | scripts/import-turkish-content.ts:199-381 | a plan may be applied to the state it was made of |
| LocaleImport.RollbackTouches | scripts/import-turkish-content.ts:464-489 | whatever happened since: touched cells, scalar ones too, get what the script had read there when planning, all other cells and cards stay |
| LocaleImport.RollbackExact | scripts/import-turkish-content.ts:383-489 | applying and rolling back is the identity if and only if every number in a planned JSON cell survives JavaScript's reading and every planned scalar cell still holds what was read |
| LocaleImport.RollbackAtOnce | scripts/import-turkish-content.ts:383-489 | applied to the state it was planned on: if and only if every number of every planned cell survives |
| LocaleImport.LargeNumberLost | scripts/import-turkish-content.ts:216-218 | the failing cell: a number that does not survive, beside a translated text, is altered by applying and by rolling back, with no scalar planned |
| LocaleImport.ReplanNothing | scripts/import-turkish-content.ts:199-381 | after applying, planning again without overwriting plans no cell, no scalar and no row, when reading a printed reading changes nothing more |
| MailBlast.FirstPerAddress | scripts/auction-beta-announcement-blast.ts:87-109 | the first eligible user of each address, in address order, the first addresses up to the batch size |
| MailBlast.LeadingLists | scripts/auction-beta-announcement-blast.ts:87-109 | each address once, eligible users only, and a batch that is not full leaves no eligible address out |
| MailBlast.OldestIsFirst | scripts/auction-beta-announcement-blast.ts:87-109 | the oldest eligible user of an address is its recipient |
| MailBlast.NextBatch | scripts/auction-beta-announcement-blast.ts:87-109 | each address once, only to open users with fewer than five attempts and no success at the address, the oldest such user of each; fewer than 200 only if no such address is left out |
| MailBlast.Blast.Send | scripts/auction-beta-announcement-blast.ts:181-233 | one attempt the run lives to record: the log has it, the failure streak is counted |
| MailBlast.Blast.SendNext | scripts/auction-beta-announcement-blast.ts:181-233 | an address this run has tried is passed over; when the run dies between mail and record, the log does not have the attempt |
| MailBlast.Blast.SendBatch | scripts/auction-beta-announcement-blast.ts:181-233 | skips addresses this run has tried; stops at LIMIT exactly, and if and only if the last five attempts failed; only users of the batch are mailed |
| MailBlast.Blast.Run | scripts/auction-beta-announcement-blast.ts:181-233 | ends; every row of the log grows by exactly the recorded attempts on its user; mails go to open users it saw with fewer than five attempts, to no address the log has a success for, to none twice; sent and failed count them and stay within LIMIT; aborts at the first five failures in a row and only then; a run that dies loses exactly its last attempt; ending for lack of recipients with few failures means every address that can still be mailed was tried |
| MailBlast.RecordSent | scripts/auction-beta-announcement-blast.ts:111-120 | recording an attempt never takes back a success |
| MailBlast.RecordExact | scripts/auction-beta-announcement-blast.ts:111-120 | every user's row grows by exactly the recorded attempts on that user, and has a success if and only if it had one or one of them succeeded |
| MailBlast.StopsAtFive | scripts/auction-beta-announcement-blast.ts:214-224 | five failures have come last if and only if the run stops for them, and never before |
| MailBlast.NoProgressMeansDone | scripts/auction-beta-announcement-blast.ts:181-233 | a batch without a new address means a batch of failures, or that everything left was tried |
| MailBlast.SentStaysSent | scripts/auction-beta-announcement-blast.ts:111-120 | over sequential runs a success stays one |
| MailBlast.NeverAfterSuccess | scripts/auction-beta-announcement-blast.ts:87-120 | over any number of runs, dying ones included, no address is tried after a recorded success |
| MailBlast.RepeatMeansCrash | scripts/auction-beta-announcement-blast.ts:181-233 | an address that got the mail is tried again only in a later run, and only if its run died before recording it |
| MailBlast.OneMailPerCrash | scripts/auction-beta-announcement-blast.ts:181-233 | so an address gets the mail at most once, and once more for every run that died on a mail to it |
| MailBlast.RepeatHappens | scripts/auction-beta-announcement-blast.ts:181-233 | and the repeat does happen |
| MailBlast.SameUserAgain | scripts/auction-beta-announcement-blast.ts:87-109 | while the users and the log's rows of the address stay, the repeat goes to the same user, so under the same idempotency key |
| GapScan.LatestDecides | scripts/conexiones-seed-days.ts:89-104 | looking at the latest day of a key is enough |
| GapScan.Scan | scripts/conexiones-seed-days.ts:89-104 | the one pass accepts if and only if all pairs of one key are at least its gap apart |
| ContentLedger.PairsOfList | scripts/dato-falso-seed-days.ts:91-111 | cards once and both keys apart is the pairwise rule |
| ContentLedger.ScanCards | scripts/dato-falso-seed-days.ts:97-111 | the loop with the cards seen and the last days decides it |
| ContentLedger.CheckSchedule | scripts/dato-falso-seed-days.ts:91-111 | accepts if and only if no card is on two days and a footballer's days are at least seven apart, over all pairs of the merged schedule |
| ContentLedger.ListIsSchedule | scripts/dato-falso-seed-days.ts:91-111 | the rule on the sorted list is the rule on the days |
| ContentLedger.Ledgers.SeedDays | scripts/dato-falso-seed-days.ts:72-132 | accepted if and only if no day comes twice, no card is about a footballer of the rooms or was shown on another day, the merged schedule keeps the rule, and no stored day has another version unless corrections are allowed; then the days are stored unless they have their version already, and all cards recorded; the stored days are the checked schedule if and only if versions tell the cards apart, and then keep the rule; in every case the sides stay apart and a card stays on one day for ever |
| ContentLedger.Ledgers.WriteDays | scripts/dato-falso-seed-days.ts:118-125 | the days of the file replace the stored ones whose version differs |
| ContentLedger.StoredIsChecked | scripts/dato-falso-seed-days.ts:118-125 | the stored days are the schedule that was checked if and only if no stored day shares its version with other new cards |
| ContentLedger.CollisionBreaks | scripts/dato-falso-seed-days.ts:118-125 | the failing file: two cards of one version, and a footballer ends on two days in a row with every check passed |
| ContentLedger.Ledgers.SeedRooms | scripts/room-seed-pool.ts:160-173 | accepted if and only if no footballer is on the daily side, by id or folded name; keeps the same rules |
| ContentLedger.RecordDaily | scripts/dato-falso-seed-days.ts:126-130 | recording accepted days keeps sides apart and one day per card, corrected days included |
| ContentLedger.RecordRooms | scripts/room-seed-pool.ts:169-172 | recording accepted room cards does, too |
| RoomPool.UpsertAllExact | scripts/room-seed-pool.ts:188-208 | a listed item has its content and release; it is enabled unless it was disabled within this release |
| RoomPool.GamePool.WriteBatches | scripts/room-seed-pool.ts:188-208 | the batches are the upserts one after the other |
| RoomPool.GamePool.Seed | scripts/room-seed-pool.ts:181-224 | commits if and only if for every need the seeded pool has enough enabled rows of its difficulty and tag; all enabled rows belong to the release last seeded |
| RoomPool.SeedExact | scripts/room-seed-pool.ts:181-213 | exactly which rows are there and enabled after a seed, and with which content |
| RoomPool.HandDisabledStays | scripts/room-seed-pool.ts:181-209 | a hand-disabled row stays disabled if and only if its release has another row enabled |
| RoomPool.RetiredComesBack | scripts/room-seed-pool.ts:181-213 | a wholly retired release comes back whole |
| RoomPool.SwitchAndBack | scripts/room-seed-pool.ts:181-213 | seeding another release retires the old one as a whole, and seeding it again brings it back |
| ScoreLedger.WeekExact | scripts/freecroco-simulator.ts:82-88 | a day's week is the Monday at most six days before it, 1970-01-01 being a Thursday |
| ScoreLedger.Simulator.Handle | scripts/freecroco-simulator.ts:140-202 | which reply is given when, for every reply; an event id is credited at most once, a known id changes nothing, and the boards stay the sums of the credited events |
| ScoreLedger.Simulator.Store | scripts/freecroco-simulator.ts:190-198 | a new event is stored, and unless its day is over its score is credited |
| ScoreLedger.Simulator.Credit | scripts/freecroco-simulator.ts:90-94 | the player's points of the event's day and of its week grow by the score, and every other entry of both boards stays |
| ScoreLedger.CreditSums | scripts/freecroco-simulator.ts:90-94 | crediting keeps both boards equal to the sums |
| ScoreLedger.WeekIsSevenDays | scripts/freecroco-simulator.ts:82-94 | a week's points are the sum over its seven days, for every list of events |
| ScoreLedger.WeeklyIsSumOfDaily | scripts/freecroco-simulator.ts:175-201 | in every reachable state the weekly board is the daily one summed over the week |
| LabelSlots.SlotTells | scripts/football-grid-label-de.ts:136-145 | two rows in one slot have one key and one label |
| LabelSlots.AssignSlots | scripts/football-grid-label-de.ts:136-145 | every row gets its slot: the key for the fixture's label or the last one listed, else key and label |
| LabelSlots.SlotStays | scripts/football-grid-label-de.ts:147-151 | once a key is in the fixture, assigning, looking up and the first assignment agree on its rows' slots |
| LabelSlots.KeptChains | scripts/football-grid-label-ru.ts:103-144 | passes compose: nothing is dropped, nothing done is touched |
| LabelSlots.FindPending | scripts/football-grid-label-ru.ts:103-121 | what waits: every slot that is not done, with the last row of a new key |
| LabelSlots.Pass | scripts/football-grid-label-ru.ts:103-143 | a pass that returns has all keys present, and every new text is the answer for a row of its slot; for keys that were, every row of theirs is done if every text came or no second slot held another label; it returns when every text comes |
| LabelSlots.BuildRussian | scripts/football-grid-label-ru.ts:103-144 | the repeated build reaches the slots of the one-shot assignment, every row done, when every text comes or no second slot holds another label; every new text is what a pass was answered for a row of its slot; it succeeds when every text comes |
| LabelSlots.CompleteResolves | scripts/football-grid-label-de.ts:440-471 | after a finished build the lookup of apply finds every row, none missing, none stale |
| LabelSlots.BuildsAgree | scripts/football-grid-label-ru.ts:103-144 | two finished builds over the same English labels agree on every slot and its English label |
| GermanLabels.Sort | scripts/football-grid-label-de.ts:346-371 | a row is done, labelled by rule, given to the model, or refused if and only if none of these applies |
| GermanLabels.ByRule | scripts/football-grid-label-de.ts:346-371 | the first loop succeeds if and only if no row is refused at its turn |
| GermanLabels.SortedInHand | scripts/football-grid-label-de.ts:346-371 | it drops nothing, touches nothing done, asks for each label of a family once and leaves no row out |
| GermanLabels.BuiltFromRows | scripts/football-grid-label-de.ts:346-431 | every entry of a build is the one from before, or of a row of its slot: the rule's text, or the model's where there is no rule, with the row's label and family |
| GermanLabels.CheckFixture | scripts/football-grid-label-de.ts:202-230 | accepts if and only if every row's slot, assigned anew, has its label, a text, and the family of the last row there, all texts are valid, and no label of a family has two |
| GermanLabels.BuildGerman | scripts/football-grid-label-de.ts:337-431 | succeeds if and only if every row can be sorted, every text came and the fixture passes its check; then every row's slot is filled with its label and a text, and all that was done is kept |
| GermanLabels.SuppliedBuilds | scripts/football-grid-label-de.ts:337-431 | when every text comes and the rows of a label agree on its family, a build succeeds if and only if the texts are valid and no label has two |
| GermanLabels.CheckedResolves | scripts/football-grid-label-de.ts:440-471 | a fixture that passes its check resolves every row, so apply's counters of missing and stale rows stay at zero |
| GermanLabels.Apply | scripts/football-grid-label-de.ts:440-471 | refused if and only if the fixture fails its check; otherwise exactly the rows without a label are updated, each with the text of its slot |

## Left out

- GridDailyProtocol.NoBoardTwice: two reserving transactions that overlap are not serialised by the script and can pick the same board.
- GridDailyProtocol.PublicationSafety: the match starter's own code is not part of this model; it enters by the contract in the script's header.
- MailBlast.Blast.Run: two simultaneous runs are not serialised by the script; runs are sequential here.
- LabelSlots.BuildRussian: an entry under "key|label" that holds another label is not noticed by the build when its new text does not come; completeness is stated for every text coming, or for fixtures without such entries.
- LocaleImport.ReplanNothing: states the conditions its cells need; `PrefixMatters` and `ReplanExact` show what happens without them.
- ReleaseExport.ReleaseRoundTrip: boards have different keys and nine cells, as a validated manifest's do; the order of boards between pages of the query, by random ids, does not enter.
- CatalogCoverage.PrepareCatalogCoverage: a board with fewer than nine cells is refused, where the script would complete those it has; the summary's counters beyond cells and answers are not modelled.
- PrescribedCorrection.MatchesPrescribed: how a manifest is written as JSON is a parameter, with the promise that it says what the manifest says.
- Lock queues, deadlock detection and statement timeouts of the database.
- Texts are sequences of UTF-16 code units; their encoding as UTF-8 is not modelled.
- SHA-256 is a parameter; results that compare checksums say on which two texts it must not collide. Answer normalization, the canonical board checksum, folded names, collation, alias spellings and the origin of images are parameters.
- JSON trees are values: writing into a shared tree in place is modelled as replacing the value, without aliasing. A path part is a name for an object and an index for an array. Numbers that differ in trailing zeros, which the database calls equal, are different here.
- `undefined` fields inside JSON values.
- Fields no rule looks into are one opaque field of their row; the constant coverage fields a covered draft's snapshot gets are among them.
- The map of members per criterion that the board generator builds from memberships is an input there.
- `runPool` jobs, translation calls, mail delivery and the German and Russian model calls are nondeterministic results; what they send over the network is not modelled.
- The snapshot file and the chunks of the label update.
- Games of the room pool without releases, and the footballer-release check of their payloads.
- Unranking of runs on corrected days, and the numbering of days.
- Wording rules of labels and pages, command lines, database target guards, reports and dry runs.
- The sibling scripts for other languages repeat the same algorithms.
