# TraceLayer, modelled and proved in Dafny

TraceLayer keeps a materialized graph of trace nodes and typed edges in step with a repository, reads
and writes one-line `trace:v1` markers, walks the graph, and gates edits with state kept for each
session. This project models the deterministic core of it and proves what its documentation and tests
promise. `dafny verify dfyconfig.toml` checks everything.

## What is modelled

- **Index engine** (`Models`, `Store`, `IndexSpec`, `Indexer`, `IndexTheorems`, `Staleness`,
  `Divergence`, `DivergenceRun`, `IndexRuns`, `IndexSteps`, `Fingerprints`, `Review`). A repository
  state is a map from the discovered, readable paths to what is extracted from each file, plus the nodes
  of `work.toml`; that file is one of the discovered ones when the configuration says so, as it does by
  default. `Indexer` holds the two passes with their real merge loops over a `GraphStore` object and a
  node array; each is proved to leave exactly the state a declarative result describes, and to be a step
  of a run. The theorems are about those results: the incremental pass agrees with the full one exactly
  when two situations are absent, every mix of passes keeps the store in step, and a node is stale after
  a pass exactly when it points at an artifact that the repository has shown otherwise before, or stays
  stale unreviewed.
- **Marker language** (`Grammar`, `GrammarReading`, `Quoting`, `Marker`, `MarkerReading`,
  `MarkerRoundTrip`, `MarkerLine`, `MarkerText`, `StandardVocabulary`, `Ids`, `IdGeneration`,
  `Decimals`). Tokenizer, escapes, parser, renderer and ids. The parser and the printer undo each other
  on every marker that can be written, but for a type left out, which is read off the id; for any valid
  vocabulary, and the registered keys, edges and types are one. Through the lines of a text they do so
  exactly when the rendering has no character that ends a line.
- **Walkers and attachment** (`Trees`, `SymbolReading`, `Serialize`, `Attachment`, `Injection`). The
  walks with explicit stacks, the indexer's attachment rule and the gate's copy of it, and marker
  injection.
- **Graph search** (`Traverse`, `Why`, `CausalPaths`, `WhyPaths`). The bounded breadth-first walk and
  the causal path search with its cycle guard, work budget, ranking and cut.
- **Workflow** (`Work`, `WorkReading`, `Session`, `Obligations`, `Gates`, `Trails`, `SessionRuns`).
  Readiness of tasks; session obligations and which of them the tree meets; the edit gate, finishing and
  stopping as methods of the session object; and theorems over every run of them, with clears in
  between.
- **Text algorithms** (`Glob`, `TextLines`, `Markdown`, `MarkdownReading`, `Normalize`, `Diff`,
  `DiffText`, `Ordering`, `Rounds`).

Conventions. Loops and objects of the program are methods and classes here; each is proved against a
specification function or predicate, and the lemmas are about the specification. Where a method and its
specification share a function, a lemma says what it means over the data alone. Hash values (node uids,
edge uids) are injective: a node uid is represented by the trace id it is computed from, an edge uid is
any injective numbering of edge keys. Language tables for trees, bracket classes, and leaf decoding are
arbitrary functions. Text extraction from one file, git, the file system and the clock are inputs. Every
lemma carries `{:induction false}`: no proof depends on automatic induction.

## Where the code departs from its own documentation

The model follows the code. Each of these is a lemma.

- A changed path whose row was already inactive loses that row in the incremental pass and keeps it in
  the full pass; a node that points at it can then be stale after one and current after the other
  (`Divergence.PassesDisagree`, in a run in `DivergenceRun.RunsDisagree`, and exactly when in
  `Staleness.StatusesAgreeExactly`).
- A `work.toml` entry overrides a marker of an unchanged file in the incremental pass only
  (`IndexTheorems.ClashOverrides`), and a file that vanished outside the change set, such as the old
  path of a rename, keeps its nodes (`IndexTheorems.LingererStays`).
- Review state is not preserved for a node that still points at an artifact with another fingerprint on
  record (`IndexRuns.ReviewSurvivesExactly`, `IndexRuns.StaleOnEveryLaterPass`), and a review follows
  edges of every kind, not only declared ones (`Review.FindClosure`).
- The loop that would create stub requirements never creates one (`Indexer.NoStubWanted`).
- A value with a final newline is taken for unquoted text, so a marker that ends in one loses it on a
  line of its own (`MarkerLine.LineRoundTripExactly`); and quoting escapes no line end but the line feed,
  so a marker with a carriage return or another separator in a value does not come back from a file
  (`MarkerText.TextRoundTripExactly`).
- The serialized syntax tree is text-sensitive but not unambiguous: the text of one leaf can print like
  two leaves (`Serialize.LeafTextCanImitateTokens`).
- Line endings are not all the same: a lone carriage return and the line feed of an empty line behind it
  are read as one (`Normalize.EndingsVanishExactly`).
- The gate allows two lines between a marker and its boundary where the indexer allows three, and takes
  a marker on the boundary's own line (`Attachment.GateMissesOnlyThreeLines`, `Attachment.OwnLineDiffers`).
- The fences of Markdown are not exact, as the comment at src/tracelayer/artifacts/markdown.py:11 says
  they are. Against section 4.5 of CommonMark, a backtick fence with a backtick in its info string opens
  (`Markdown.InlineCodeOpensFence`), and one with other whitespace behind than spaces and tabs closes
  (`Markdown.NoBreakSpaceCloses`); there are no other departures from that section
  (`Markdown.FencesAgreeExactly`). And lines end at more characters than in section 2.1
  (`TextLines.LinesAgreeExactly`).
- A diff is misread where git quotes a path or writes a tab behind it, at an added line whose text starts
  with `++ `, and where a line break other than a line feed hides a header or a hunk
  (`DiffText.DiffIsReadExactly`, `DiffText.BlankPathIsRead`, `DiffText.AddedLineTakesHunks`,
  `DiffText.FormFeedHidesHeader`). The changed lines of a file are then not found, and neither are those
  of a file in a top directory named `a` or `b` (`DiffText.ChangedRangesExactly`).
- A slug that several boundaries share counts as a boundary that is gone: an obligation for it is met
  although nothing is marked, which the comment at src/tracelayer/hooks/post_mutation.py:586-590 means to
  prevent (`Obligations.SharedSlugLands`).
- A type outside the prefix table gets ids that are not read back as that type
  (`IdGeneration.GeneratedIsTypedExactly`).

## Model

| member | source | states |
|---|---|---|
| Indexer.DedupeNodes | src/tracelayer/engine.py:620-645 | the first node of every id stays, in order; the list holds exactly that table, each id once |
| Indexer.MergeWork | src/tracelayer/engine.py:922-931 | work.toml entries join only under ids that no marker has declared |
| Indexer.GroupEdges | src/tracelayer/engine.py:746-768 | within one path, exactly one `contains` edge for every pair of strictly nested line ranges |
| Indexer.StructuralContainsEdges | src/tracelayer/engine.py:725-768 | the edges found are exactly the strict enclosures among active symbol nodes of the same path |
| Indexer.StalenessPass | src/tracelayer/engine.py:772-831 | in place on the node list: every node ends with the status that history, prior row and active declared edges call for |
| Indexer.RecordVersions | src/tracelayer/engine.py:949-957 | the history gains exactly the fingerprints of the given nodes |
| Indexer.ScanFiles | src/tracelayer/engine.py:908-918 | nodes and edges of the parsed files, concatenated in file order |
| Indexer.IndexAll | src/tracelayer/engine.py:889-977 | the full pass, merge loops and all, leaves the store in exactly the state the declarative full result describes |
| Indexer.MergeNodes | src/tracelayer/engine.py:1058-1075 | the merge dictionary: unchanged rows kept, new rows on top, vanished rows of changed paths inactive |
| Indexer.FilterEdges | src/tracelayer/engine.py:1077-1086 | exactly the old declared edges whose source was neither declared again nor deleted |
| Indexer.NoStubWanted | src/tracelayer/engine.py:1096-1123 | no edge ever asks for a stub: a node uid is never read as the id of a requirement or a work item |
| Indexer.IndexChanged | src/tracelayer/engine.py:980-1157 | the incremental pass leaves exactly the declarative incremental result, or nothing changes when the change list is empty |
| IndexSteps.IndexAllIsAStep | src/tracelayer/engine.py:889-977 | what a full pass leaves is a full step of the runs below, in whatever order the files come |
| IndexSteps.IndexChangedIsAStep | src/tracelayer/engine.py:980-1157 | so is what an incremental pass leaves, when no entry marked deleted is in the tree and the conditions of agreement hold |
| IndexSteps.IndexAllInRun | src/tracelayer/engine.py:889-977 | a full pass over the store object takes a run one step on and leaves the store in step |
| IndexSteps.IndexChangedInRun | src/tracelayer/engine.py:980-1157 | the same for an incremental pass |
| Store.GraphStore.ReplaceAll | src/tracelayer/graph/store.py:92-171 | both tables are the given batch: one row for each id, one row for each edge uid, edge rows in uid order |
| Store.GraphStore.RecordArtifactVersion | src/tracelayer/graph/store.py:347-361 | one fingerprint is added to the history of one artifact; nothing is lost |
| Store.EdgeTableUnique | src/tracelayer/engine.py:706-721 | a set of edges has only one table: rebuilds of the same edges store the same row sequence |
| IndexTheorems.FullPassSyncs | src/tracelayer/engine.py:889-977 | from any well-keyed store, a full pass leaves exactly the live nodes and edges of the tree |
| IndexTheorems.IncrementalPassSyncs | src/tracelayer/engine.py:980-1157 | from a synced store, an agreeable incremental pass leaves exactly the live nodes and edges of the new tree |
| IndexTheorems.ClashOverrides | src/tracelayer/engine.py:1045-1055 | a work.toml entry replaces a marker of the same id in an unchanged file |
| IndexTheorems.LingererStays | src/tracelayer/engine.py:1058-1075 | a node of a file that vanished outside the change set (the old path of a rename) stays active |
| IndexTheorems.IncrementalIsFullExactly | src/tracelayer/engine.py:980-1157 | incremental equals full if and only if neither of those two situations occurs |
| IndexTheorems.SyncedIsUnique | src/tracelayer/engine.py:706-721 | two synced stores of one tree have the same active nodes and the same edge row sequence |
| IndexTheorems.StoredEdgesExactly | src/tracelayer/engine.py:725-768 | a store in step holds one `contains` edge from every traced symbol to every one strictly inside it in the same file, from the outer to the inner, and as other edges exactly the declared ones |
| IndexTheorems.FullPassKeepsRows | src/tracelayer/engine.py:933-939 | a full pass forgets no id: each row is as the repository declares it, or inactive and otherwise as it was |
| IndexTheorems.IncrementalPassKeepsRows | src/tracelayer/engine.py:1058-1075 | an incremental pass forgets exactly the rows of changed files that were inactive and are not there again |
| Staleness.FullPassStaleExactly | src/tracelayer/engine.py:772-831 | after a full pass an active node is stale iff it points at a changed artifact, or (not clean) is unchanged and was stale |
| Staleness.IncrementalPassStaleExactly | src/tracelayer/engine.py:772-831 | the same after an incremental pass |
| Staleness.StatusesAgreeExactly | src/tracelayer/engine.py:1061-1074 | both passes give a node the same status, iff no dropped row with another fingerprint on record is all that makes it stale; told from the old store, the tree and the change set |
| Fingerprints.FullPassFollowsRecord | src/tracelayer/engine.py:772-831 | after a full pass an active node is stale iff a declared active edge leads to a row with some other fingerprint than its own on record, or its own has only itself on record, the pass is not clean and it was stale; the changed and historical flags likewise |
| Fingerprints.IncrementalPassFollowsRecord | src/tracelayer/engine.py:772-831 | the same after an incremental pass; rows of other files keep their flags |
| Fingerprints.RecordExactly | src/tracelayer/graph/store.py:347-371 | at every moment of every run the record of an id holds exactly the fingerprints under which the repository has shown it |
| Fingerprints.StaleInRunExactly | src/tracelayer/engine.py:772-831 | so in a run a node is stale after a pass iff a declared edge leads to an artifact that the repository has shown otherwise before, or it was stale, the pass is not clean and it has itself never been shown otherwise |
| Fingerprints.NeverStaleUnchanged | src/tracelayer/engine.py:772-831 | while no artifact of a run is ever shown with two fingerprints, no pass makes a node stale |
| Divergence.PassesDisagree | src/tracelayer/engine.py:1061-1074 | concrete stores on which the full pass says stale and the incremental pass says current |
| DivergenceRun.RunsDisagree | src/tracelayer/engine.py:1061-1074 | a run of three passes after which that happens: declare an artifact, edit it, drop it |
| IndexRuns.EveryRunIsSynced | src/tracelayer/engine.py:889-1157 | after every step of every run of full, incremental and review steps the store is synced with the repository |
| IndexRuns.MixedRunsAgree | src/tracelayer/engine.py:889-1157 | any two mixes of passes that end at the same repository state leave the same active nodes and edge rows |
| IndexRuns.RunGrowsHistory | src/tracelayer/graph/store.py:347-371 | along every run the version history only grows |
| IndexRuns.StaleOnEveryLaterPass | src/tracelayer/engine.py:772-831 | once an artifact has two fingerprints on record, every later pass marks every active dependent stale again |
| IndexRuns.ReviewSurvivesExactly | src/tracelayer/engine.py:783-792 | a review outlasts the next full pass iff the node is unchanged and no live edge of it leads to a row with another fingerprint on record; told from the old store and the tree |
| IndexRuns.ReviewSurvivesIncrementalExactly | src/tracelayer/engine.py:783-792 | the same for the next incremental pass, without the rows it drops |
| Review.FindClosure | src/tracelayer/engine.py:1530-1546 | the breadth-first search finds exactly the uids within five edges, in either direction |
| Review.ClosureIsTrails | src/tracelayer/engine.py:1530-1546 | those are exactly the ends of trails of at most that many edges |
| Review.ReviewedExactly | src/tracelayer/engine.py:1514-1555 | the rows that change are those stale before whose node a trail of at most five edges joins to the reviewed one |
| Review.ReviewNode | src/tracelayer/engine.py:1514-1555 | every stale row that a trail of at most five edges joins to the node is reviewed, every other row is untouched; unknown ids change nothing |
| Review.ReviewIsAStep | src/tracelayer/engine.py:1514-1555 | a review is a step of the runs for which agreement and staleness are proved |
| Grammar.ParseQuoted | src/tracelayer/protocol/grammar.py:125-160 | decodes the quoted value that opens here, moves strictly forward, on every input |
| Grammar.ScanField | src/tracelayer/protocol/grammar.py:69-119 | one key, equals sign and value with the blanks after them, or no field |
| Grammar.TokenizeFields | src/tracelayer/protocol/grammar.py:58-121 | on every input the loop ends with exactly the fields and diagnostics of the recursive reading |
| GrammarReading.FieldExactly | src/tracelayer/protocol/grammar.py:69-119 | a field is read without an error iff the text starts with one as it is written: key, blanks, equals sign, blanks, a bare value or the escaped text between quotes, and all the blanks behind |
| GrammarReading.TokensExactly | src/tracelayer/protocol/grammar.py:58-121 | a text is read without an error iff it is such fields one behind the other, and then the tokens are those |
| Quoting.ReplacesEscapeOnce | src/tracelayer/protocol/grammar.py:163-169 | the four replaces in sequence escape every character exactly once |
| Quoting.QuotedInverts | src/tracelayer/protocol/grammar.py:125-169 | decoding undoes quoting, whatever the value and whatever follows |
| Quoting.TokensInvertFields | src/tracelayer/protocol/grammar.py:58-169 | tokenizing space-joined `key=quoted` fields gives back exactly those pairs |
| Marker.ValidatedTargets | src/tracelayer/protocol/marker.py:251-261 | the targets of an edge value and one diagnostic for every invalid one |
| Marker.ApplyTokens | src/tracelayer/protocol/marker.py:122-219 | the loop over tokens builds what the tokens that count say, first key wins, with every diagnostic |
| Marker.ParsePayload | src/tracelayer/protocol/marker.py:117-248 | the whole parser equals the declarative meaning of the token list |
| MarkerReading.SlotSaysExactly | src/tracelayer/protocol/marker.py:117-248 | a slot has the value of the first token with its key; the type, without one, is that inferred from the id, and there is none only when nothing can be inferred |
| MarkerReading.TargetsExactly | src/tracelayer/protocol/marker.py:251-261 | the targets of a value are its parts between commas, without blanks, that are valid ids |
| MarkerReading.EdgeSaysExactly | src/tracelayer/protocol/marker.py:122-219 | the marker has an edge to a target iff a first token of an edge key names it |
| MarkerReading.ExpectsSaysExactly | src/tracelayer/protocol/marker.py:122-219 | it expects something iff a first token asks for it, and then what the last such names |
| MarkerReading.MigratedExactly | src/tracelayer/protocol/marker.py:122-219 | unknown keys are kept, with the value of their first token, in the permissive mode only |
| MarkerReading.DiagnosedExactly | src/tracelayer/protocol/marker.py:117-248 | each diagnostic is given iff the text has it, a token comes again, has no value or has one its key does not allow, the id is missing, or the type differs from the one the id says |
| MarkerReading.NoErrorExactly | src/tracelayer/protocol/marker.py:117-248 | parsing gives no error iff the text has none, no key comes twice, every key and value is one that its rules allow, and an id is given |
| Marker.RenderMarker | src/tracelayer/protocol/marker.py:265-296 | the renderer loops give the canonical line |
| MarkerRoundTrip.PayloadRoundTrip | src/tracelayer/protocol/marker.py:117-296 | for every marker that can be written, parsing its rendering gives the marker back with no error, and with the type inferred from its id where it has none |
| MarkerLine.ParseMarkerLine | src/tracelayer/protocol/marker.py:84-102 | a whole line: the payload found in it and parsed, or no marker |
| MarkerLine.LineRoundTripExactly | src/tracelayer/protocol/marker.py:84-102 | on a line of its own the marker comes back, typed by its id, iff its rendering does not end in a newline |
| MarkerLine.CommentedPayload | src/tracelayer/protocol/grammar.py:25-48 | behind a comment opener, with nothing behind the marker or a closer and any text, the payload is intact iff the rendering holds no closer and does not end in a newline |
| MarkerText.MarkerHits | src/tracelayer/protocol/marker.py:67-81 | every marker line of the text with its number, in order |
| MarkerText.TextRoundTripExactly | src/tracelayer/protocol/marker.py:67-102 | written at the start of a line of any text, the marker comes back from that line, typed by its id, iff its rendering holds no character that ends a line |
| StandardVocabulary.WordIsKnown | src/tracelayer/protocol/ontology.py:27-165 | every registered word is a well-formed key and is told apart from all others |
| StandardVocabulary.StandardIsValid | src/tracelayer/protocol/ontology.py:27-165 | the registered keys, edges and types form a valid vocabulary |
| StandardVocabulary.RenderParseRender | src/tracelayer/protocol/marker.py:117-296 | with the registered words, what comes back from a rendering is canonical, so rendering and parsing change nothing from then on |
| StandardVocabulary.NamespaceIsRead | src/tracelayer/protocol/marker.py:233-246 | with the registered words, a marker written without a type on a line of its own comes back with the type of the namespace its id is in, whichever of the namespaces that is |
| StandardVocabulary.NoNamespaceNoType | src/tracelayer/protocol/marker.py:233-246 | and outside every namespace without one |
| Ids.InferNodeType | src/tracelayer/protocol/ids.py:81-86 | the first rule whose prefix fits |
| Ids.NamespacesAreDisjoint | src/tracelayer/protocol/ids.py:9-44 | no id is in two namespaces |
| Ids.InferredByNamespace | src/tracelayer/protocol/ids.py:9-86 | the rule order does not matter: an id in a namespace has that namespace's type |
| Ids.UidHasNoType | src/tracelayer/engine.py:1103-1109 | no node uid is read as an id of any type |
| IdGeneration.SlugKeepsLetters | src/tracelayer/protocol/ids.py:96-98 | a slug is words joined by single dashes and keeps exactly the letters and digits of the name, in order |
| IdGeneration.SlugIsIdempotent | src/tracelayer/protocol/ids.py:96-98 | slugging a slug changes nothing |
| IdGeneration.SlugIsWords | src/tracelayer/protocol/ids.py:96-98 | a slug is the words of the name, runs of small letters and digits, joined by single dashes, or the stock word when it has none |
| IdGeneration.FirstFreeId | src/tracelayer/protocol/ids.py:99-107 | the counter loop ends, by pigeonhole, with the first candidate that is free |
| IdGeneration.FirstFreeIsUnique | src/tracelayer/protocol/ids.py:99-107 | only one id is the first free one |
| IdGeneration.FirstFreeExactly | src/tracelayer/protocol/ids.py:99-107 | that is the base when it is free, or else the base with a dash and the smallest number from two on that makes it free |
| IdGeneration.PrefixTableIsComplete | src/tracelayer/protocol/ids.py:45-72 | the prefix table has exactly the 27 namespaces in which ids are minted |
| IdGeneration.GeneratedIsTypedExactly | src/tracelayer/protocol/ids.py:89-107 | a generated id is read back as its type iff the type is in the prefix table |
| IdGeneration.GeneratedIsValidExactly | src/tracelayer/protocol/ids.py:75-107 | a generated id is valid iff its type has a prefix or is itself made of id characters |
| IdGeneration.NewId | src/tracelayer/engine.py:1491-1511 | an unknown type is refused; a usable name is taken verbatim or refused when taken; otherwise a fresh id; typed and valid as above |
| IdGeneration.MintAll | src/tracelayer/tasks.py:26-40 | ids minted in one transaction are free in the store and pairwise different, even where slugs repeat |
| Trees.LineStarts | src/tracelayer/symbols/base.py:31-38 | the offset of each line's first byte, and the length at the end |
| Trees.LineAtCountsNewlines | src/tracelayer/symbols/base.py:41-43 | the line of an offset is one more than the newlines before it, and one more again at or past the end |
| Trees.CountIsBisect | src/tracelayer/symbols/base.py:41-43 | the count of offsets is where a right bisection points |
| Trees.LinesNest | src/tracelayer/symbols/base.py:46-50 | a range inside another gets lines inside the other's |
| Trees.CollectSymbols | src/tracelayer/symbols/base.py:154-212 | the explicit stack emits exactly the recursive preorder list with its qualified names, and ends |
| SymbolReading.SymbolsExactly | src/tracelayer/symbols/base.py:154-212 | the list has exactly one kind of entry: for a node that is a symbol, given whether a class is above it, its name behind those of the symbols and scopes above, its lines and its bytes |
| SymbolReading.SymbolsInOrder | src/tracelayer/symbols/base.py:170-171 | where the nodes lie one behind the other, the symbols are listed in the order of their lines |
| SymbolReading.JoinExactly | src/tracelayer/symbols/base.py:189 | a qualified name has a dot between its parts, and none for an empty part |
| Serialize.AstTokens | src/tracelayer/symbols/base.py:116-146 | the explicit stack prints exactly the recursive s-expression, and ends |
| Serialize.TokensBalance | src/tracelayer/symbols/base.py:116-146 | the tokens balance, and the first open is closed only at the very end |
| Serialize.SameTokensExactly | src/tracelayer/symbols/base.py:116-146 | two trees have equal token lists iff they have equal node types and leaf texts in the same arrangement |
| Serialize.LeafTextCanImitateTokens | src/tracelayer/symbols/base.py:146 | joined to one string this fails: every tree with a leaf below its root whose text looks like the end of a leaf and the start of another prints like a tree with one leaf more |
| Serialize.LeafTextCanCloseParent | src/tracelayer/symbols/base.py:146 | a text may end the node around its leaf too, so closes count as well as opens in the condition below |
| Serialize.PlainTextDeterminesShape | src/tracelayer/symbols/base.py:146 | the string does determine the tree when no leaf text holds a quote, a close and then another close or an open, and types are plain |
| Attachment.CheckGap | src/tracelayer/symbols/base.py:268-277 | the indexer's gap rule: at most three lines, all blank, comment or decorator, none past the file |
| Attachment.PassesExactly | src/tracelayer/symbols/base.py:268-277 | a line may stand between for the indexer when it is blank or starts with the comment or decorator mark of any language, for the gate with one of the boundary's own |
| Attachment.EligibleExactly | src/tracelayer/symbols/base.py:226-277 | a symbol may take a marker iff it starts one to four lines below and every line in between is there and is blank, a comment or a decorator |
| Attachment.AttachMarkers | src/tracelayer/symbols/base.py:226-265 | each marker goes to the earliest eligible symbol, to none iff none is eligible, ambiguous iff several are |
| Attachment.MarkerAttached | src/tracelayer/discovery/boundaries.py:430-439 | the gate's scan finds a marker exactly when its rule holds of some line |
| Attachment.GateTakesExactly | src/tracelayer/discovery/boundaries.py:411-451 | the gate takes a marker iff it stands on the boundary's line or up to three above, and each line in between is blank or starts with a mark of the language |
| Attachment.GateRefinesIndexer | src/tracelayer/discovery/boundaries.py:411-451 | where the gate takes a marker above a boundary, the gap rule of the indexer holds |
| Attachment.GateTakenIsAttached | src/tracelayer/discovery/boundaries.py:411-451 | so the indexer attaches that marker, to the symbol that starts there or to an earlier one below the marker |
| Attachment.GateIsIndexerExactly | src/tracelayer/discovery/boundaries.py:411-451 | the gate's rule is the indexer's with at most two lines in between, in the language's own comments |
| Attachment.GateMissesOnlyThreeLines | src/tracelayer/discovery/boundaries.py:411-451 | where both class lines alike, the gate misses an attached marker iff exactly three lines intervene |
| Attachment.OwnLineDiffers | src/tracelayer/discovery/boundaries.py:434-438 | on the boundary's own line the gate takes a marker the indexer never attaches there |
| Injection.InsertMarkers | src/tracelayer/hooks/pre_mutation.py:439-442 | the text that comes out has in every gap exactly the markers for it, each as often as it is given and in ascending order, whatever order they come in |
| Injection.LinesShift | src/tracelayer/hooks/pre_mutation.py:439-442 | every original line is still there, moved down by the insertions at or before it |
| Injection.ShiftKeepsOrder | src/tracelayer/hooks/pre_mutation.py:439-442 | original lines keep their order |
| Injection.ErasingRestores | src/tracelayer/hooks/pre_mutation.py:439-442 | taking the inserted lines out again gives the original text |
| Injection.HeadingAttached | src/tracelayer/discovery/boundaries.py:419-432 | the gate's rule for headings: right above, or within five lines below |
| Injection.InsertedIsTraced | src/tracelayer/hooks/pre_mutation.py:422-444 | at its shifted line every boundary with an inserted marker passes the gate |
| Injection.DeterministicRewrite | src/tracelayer/hooks/pre_mutation.py:395-446 | refused iff there is no text, a passage is replaced, not one requirement is active, some boundary has no marker for the text or the content is missing; otherwise every marker is in the gap above its code or below its heading, and the rewrite is faithful and traced |
| Traverse.WithinIsReachable | src/tracelayer/graph/traverse.py:57-97 | rounds of the walk find exactly what routes of that many hops through stored nodes reach |
| Traverse.Round | src/tracelayer/graph/traverse.py:61-97 | one round over the frontier, cut off at the cap |
| Traverse.BoundedWalk | src/tracelayer/graph/traverse.py:24-99 | never more than the cap; sound; below the cap exactly the ends of stored routes, from source to target of each edge outward, from target to source inward, either way for both, and exactly the edges left; bad arguments refused |
| Why.PredecessorsMembers | src/tracelayer/query/why.py:37-48 | exactly the causal edges out of the node, self loops excluded |
| CausalPaths.PredecessorsInOrder | src/tracelayer/query/why.py:37-48 | they are walked in the order of the preferred predicates, and for one predicate in the order of the uids |
| Why.AllChainsExactly | src/tracelayer/query/why.py:51-81 | the unbounded search returns exactly the simple causal chains that cannot be prolonged |
| Why.ChainIsSimple | src/tracelayer/query/why.py:51-81 | the hops of a chain link up and no two lead to the same node |
| Why.PathSearch.PathsFrom | src/tracelayer/query/why.py:51-81 | at most the cap, all sound, at most eight hops, work within its budget; all chains when no bound cuts |
| Why.BudgetIs | src/tracelayer/query/why.py:30-34 | the budget beyond the work bound is one cap for each level still open |
| WhyPaths.Unique | src/tracelayer/query/why.py:114-122 | one path for each sequence of nodes, none lost |
| CausalPaths.PathExactly | src/tracelayer/query/why.py:51-81 | a chain turned around is a causal path: every edge leads from what it explains to a cause of it, and no node is met twice |
| CausalPaths.RootExactly | src/tracelayer/query/why.py:51-81 | and it cannot be prolonged iff every stored cause of its first node is on it |
| WhyPaths.ScoreIsMerit | src/tracelayer/query/why.py:84-97 | the sort key is the sum of the type bonuses, plus two for every pair of nodes in preferred order, minus the hops, then the length, then the ids |
| WhyPaths.CutToBest | src/tracelayer/query/why.py:123-125 | the answer is the best of the unique paths, best first |
| WhyPaths.Query | src/tracelayer/query/why.py:100-125 | size, soundness and work of the answer; no path comes before one of greater merit, or of equal merit and smaller length, or of equal both and smaller ids; when no bound cuts, every causal path is in the answer, in it by its nodes, or outranked by all of a full answer |
| Work.NormalizedStateIsFixed | src/tracelayer/work.py:65-74 | the name of a task state normalizes to that state |
| WorkReading.TaskStateExactly | src/tracelayer/work.py:25-74 | which texts stand for which task state: its name and the other spellings listed for it; anything else is a task to do |
| WorkReading.QuestionStateExactly | src/tracelayer/work.py:78-83 | the same for questions |
| Work.Blockers | src/tracelayer/work.py:116-143 | each unresolved blocker exactly once, with its kind |
| Work.UnresolvedTargetsBlock | src/tracelayer/work.py:116-143 | the targets looked at are exactly what the edges say holds the task up |
| Work.ComputeReadiness | src/tracelayer/work.py:94-190 | every member task is in exactly the bucket it belongs in, each listing in order, blocked ones with exactly their reasons |
| Work.ReadyListing | src/tracelayer/work.py:94-190 | the ready listing is exactly the ready tasks |
| WorkReading.ListingsExactly | src/tracelayer/work.py:94-190 | every listing holds exactly the member tasks of the work whose state, and what holds them up, put them there |
| WorkReading.QuestionsExactly | src/tracelayer/work.py:94-190 | the open questions listed are exactly those of the work |
| WorkReading.ReasonsExactly | src/tracelayer/work.py:116-190 | the reasons of a blocked task are its own state first where that blocks, and one kind for each unresolved task or question that a dependency, blocking or question edge ties it to, named after the strongest |
| Work.ResolvingFreesExactly | src/tracelayer/work.py:94-190 | finishing a task or closing a question frees another iff nothing else holds it up, and never takes one out of ready |
| Work.StateChangesItem | src/tracelayer/work.py:94-190 | setting the state of a node changes what it counts as and nothing else |
| Work.WhyNotReady | src/tracelayer/work.py:94-190 | from every waiting task a chain of blockers leads to a ready task, to something that cannot start, or into a circle |
| Work.SomeTaskIsReady | src/tracelayer/work.py:94-190 | with acyclic blocking and only startable tasks behind it, a waiting task means some task is ready |
| Glob.GlobRegex | src/tracelayer/discovery/ignore.py:12-53 | the translation loop gives exactly the atoms of the recursive reading of the pattern |
| Glob.BracketIsClass | src/tracelayer/discovery/ignore.py:39-49 | a bracket with something up to its first closing one is a class, negated by a leading exclamation mark |
| Glob.BracketIsLiteral | src/tracelayer/discovery/ignore.py:39-49 | one that is never closed, or closed at once, stands for itself |
| Glob.GlobMatch | src/tracelayer/discovery/ignore.py:56-59 | some pattern matches the path after backslashes become slashes |
| Glob.RegexMeansGlob | src/tracelayer/discovery/ignore.py:12-53 | on every pattern without brackets and path without newlines the regex means what the glob says |
| Glob.TranslationPreservesMeaning | src/tracelayer/discovery/ignore.py:12-53 | for patterns of plain and `**` segments that is matching segment by segment |
| Glob.PlainKeepsDepth | src/tracelayer/discovery/ignore.py:15-21 | `*` and `?` never cross a slash: as many path segments as pattern segments |
| Glob.LeadingStars | src/tracelayer/discovery/ignore.py:15-21 | a leading `**/` matches any number of directories, including none |
| Markdown.CodeLineFlags | src/tracelayer/artifacts/markdown.py:64-97 | the flag of each line says whether the line is code |
| MarkdownReading.FenceExactly | src/tracelayer/artifacts/markdown.py:44 | a fence is three or more of one mark, as many as stand there, behind at most three spaces |
| MarkdownReading.ClosesExactly | src/tracelayer/artifacts/markdown.py:77-82 | a line closes a fence iff it is a fence of the same mark, at least as long, with only whitespace behind |
| MarkdownReading.IndentedExactly | src/tracelayer/artifacts/markdown.py:92-94 | a line is indented iff four blanks or a tab lead it |
| MarkdownReading.CodeExactly | src/tracelayer/artifacts/markdown.py:64-97 | a line is code iff it is in a fence, or is indented and behind a blank line, the start of the text or an indented line that is in no fence |
| Markdown.FenceCloses | src/tracelayer/artifacts/markdown.py:74-84 | an open fence closes only on the same mark, at least the opening length, nothing behind |
| Markdown.FenceIsOpenExactly | src/tracelayer/artifacts/markdown.py:74-89 | a fence is open at a line iff a line before opened it and none since has closed it |
| Markdown.FencesAgreeExactly | src/tracelayer/artifacts/markdown.py:64-97 | before every line the same fence is open as by the rules of section 4.5 of CommonMark, iff no line with no fence open is a backtick fence with a backtick behind, and no line closes a fence with other whitespace behind than spaces and tabs |
| Markdown.CodeAgreesExactly | src/tracelayer/artifacts/markdown.py:64-97 | the flags are those of the same scan with the fences of CommonMark, iff no such opening, and every line where only one of the two has a fence open opens one for the other |
| Markdown.CodeAgreesWithoutDeparture | src/tracelayer/artifacts/markdown.py:64-97 | in particular when the fences agree |
| Markdown.InlineCodeOpensFence | src/tracelayer/artifacts/markdown.py:44 | a departure: inline code in three backticks opens a fence |
| Markdown.NoBreakSpaceCloses | src/tracelayer/artifacts/markdown.py:77-82 | a departure: a fence with a no-break space behind closes, and the line after it is not flagged |
| Markdown.LastLineHidesDeparture | src/tracelayer/artifacts/markdown.py:77-82 | a departure on the last line shows in no flag |
| TextLines.LinesAgreeExactly | src/tracelayer/artifacts/markdown.py:130-131 | the lines of a text are those of section 2.1 of CommonMark iff it has no other character that ends a line |
| Markdown.FencedLinesAreCode | src/tracelayer/artifacts/markdown.py:74-89 | every line from an opening fence to its closing one is code |
| Markdown.HeadingsAreBlocks | src/tracelayer/artifacts/markdown.py:140-191 | every artifact heading outside code has its block |
| Markdown.ExtractHeadings | src/tracelayer/artifacts/markdown.py:139-191 | exactly the blocks of the artifact headings outside code, in line order |
| MarkdownReading.HeadingExactly | src/tracelayer/artifacts/markdown.py:42 | a heading is one to six `#` behind at most three spaces, blanks, and the content |
| MarkdownReading.ArtifactIdExactly | src/tracelayer/artifacts/markdown.py:143-153 | it carries an id iff the first word of its content is made of id characters and has a type |
| MarkdownReading.SectionExactly | src/tracelayer/artifacts/markdown.py:154-157 | its section runs to the first heading outside code of the same level or a higher one, or to the end |
| MarkdownReading.BlocksExactly | src/tracelayer/artifacts/markdown.py:139-191 | the blocks are exactly those of headings outside code that carry an id |
| MarkdownReading.BlocksInOrder | src/tracelayer/artifacts/markdown.py:139-191 | and come in line order |
| Markdown.BodiesNestOrAreDisjoint | src/tracelayer/artifacts/markdown.py:154-158 | any two bodies are disjoint or nested, the inner one deeper; none ends at a heading inside code |
| Normalize.NormalizeBlock | src/tracelayer/graph/fingerprints.py:21-30 | the loops give the joined content |
| Normalize.ContentParts | src/tracelayer/graph/fingerprints.py:21-30 | what counts of a text is its lines without trailing whitespace, from the first that is not blank to the last |
| Normalize.NormalizeIsIdempotent | src/tracelayer/graph/fingerprints.py:21-30 | normalizing a normal form changes nothing |
| Normalize.NormalFormIsCanonical | src/tracelayer/graph/fingerprints.py:21-35 | normal forms are equal iff the contents are |
| Normalize.EndingsAreRead | src/tracelayer/graph/fingerprints.py:24 | lines written with any endings read back as themselves without those that a lone carriage return swallows |
| Normalize.EndingsVanishExactly | src/tracelayer/graph/fingerprints.py:24 | they read back unchanged iff no lone carriage return meets the line feed of an empty line |
| Normalize.CosmeticChangesVanish | src/tracelayer/graph/fingerprints.py:21-30 | texts written with any line endings have equal normal forms iff the lines read back are equal, trimmed and stripped |
| Normalize.OuterBlanksVanish | src/tracelayer/graph/fingerprints.py:26-29 | blank lines before and after do not count |
| Diff.Coalesce | src/tracelayer/git/diff.py:18-30 | the merge loop gives the merged sorted ranges |
| Diff.CoalesceCoversExactly | src/tracelayer/git/diff.py:18-30 | the result covers exactly the lines of the input, whatever the ranges |
| Diff.CoalesceGaps | src/tracelayer/git/diff.py:18-30 | between any two resulting ranges a line is uncovered, in order |
| Diff.CoalesceIsCanonical | src/tracelayer/git/diff.py:18-30 | two inputs have the same result iff they cover the same lines |
| Diff.CoalescingKeepsSelection | src/tracelayer/git/diff.py:80-88 | coalescing does not change which symbols are selected |
| Diff.ParseUnifiedDiffRanges | src/tracelayer/git/diff.py:33-60 | for every file named in the text, the coalesced ranges of the hunks under its headers |
| Diff.ChangedLineRanges | src/tracelayer/git/diff.py:63-77 | what the diff says of the path without a leading side; nothing when git fails |
| Diff.SelectionFromDiff | src/tracelayer/git/diff.py:80-88 | straight from a diff: the symbols selected are those with a line in a hunk of the file |
| Diff.HunkHeaderIsRead | src/tracelayer/git/diff.py:15 | a hunk header is read as what it was written for |
| Diff.HunkHeaderExactly | src/tracelayer/git/diff.py:15 | a line is read as a hunk header iff it starts with one, with the numbers it spells |
| Diff.HunkCovers | src/tracelayer/git/diff.py:55-59 | a hunk covers the lines from its start, as many as it counts, and none when it starts at zero |
| Diff.HeaderExactly | src/tracelayer/git/diff.py:45-49 | a file header names what is behind it without a leading side, and nothing for the null device |
| DiffText.DiffIsReadExactly | src/tracelayer/git/diff.py:33-60 | the headers and hunks read out of a diff as git writes it are those it is written for, iff every path is written as it is, no added line starts with `++ `, and no line break inside a line hides a header or a hunk |
| DiffText.RangesAreRead | src/tracelayer/git/diff.py:33-60 | and then every file has the ranges of its hunks |
| DiffText.ChangedRangesExactly | src/tracelayer/git/diff.py:63-77 | the ranges of a file are found in its diff, unless there are none, iff its path is written as it is and does not start with `a/` or `b/` |
| DiffText.BlankPathIsRead | src/tracelayer/git/diff.py:45-49 | a path with a blank is read with the tab that git writes behind it |
| DiffText.FormFeedHidesHeader | src/tracelayer/git/diff.py:44-49 | a form feed in a removed line hides a header |
| DiffText.AddedLineTakesHunks | src/tracelayer/git/diff.py:44-58 | behind an added line that starts with `++ ` the hunks of the file are counted for another |
| Session.FileStaysInDirectory | src/tracelayer/hooks/session_state.py:40-45 | no session id names a file outside the session directory |
| Session.FileIsIdExactly | src/tracelayer/hooks/session_state.py:40-45 | a session keeps its id as file name iff it is of letters, digits, dots, underscores and dashes with no dot or dash at either end |
| Session.UnsafeRunIsDash | src/tracelayer/hooks/session_state.py:40-45 | before edges are stripped, safe characters stay and a run of others becomes one dash |
| Session.SessionState.AddObligation | src/tracelayer/hooks/session_state.py:235-265 | appends a new key, refreshes a pending one, leaves a satisfied one alone; true iff new; other sessions untouched |
| Obligations.ProposedExactly | src/tracelayer/hooks/session_state.py:235-265 | a new key is appended; a pending one takes over what is given; a satisfied one stays as it is |
| Session.SessionState.ResolveObligation | src/tracelayer/hooks/session_state.py:268-276 | every obligation of the key is satisfied, nothing else changes |
| Session.SessionState.RecordContextLoad | src/tracelayer/hooks/session_state.py:78-83 | the id is listed once; other sessions untouched |
| Session.SessionState.SetActiveWork | src/tracelayer/hooks/session_state.py:111-117 | the active work is set, unless none is given |
| Session.SessionState.SetActiveRequirements | src/tracelayer/hooks/session_state.py:153-165 | each requirement once, in order; nothing when none is given |
| Session.AddAllKeepsFirsts | src/tracelayer/hooks/session_state.py:153-165 | ids in the order in which they first come up, each once |
| Obligations.OnlyItsBoundaryCounts | src/tracelayer/hooks/post_mutation.py:575-621 | where a boundary bears the exact name, the obligation is met iff that boundary is traced or unchanged; markers elsewhere make no difference |
| Obligations.LandsUntracedExactly | src/tracelayer/hooks/post_mutation.py:588-611 | when no boundary of the name or its slug is traced or unchanged, an obligation is met iff its name is gone, its slug is none or several, and the suggested id is nowhere |
| Obligations.SharedSlugLands | src/tracelayer/hooks/post_mutation.py:588-611 | in any file where several boundaries share the slug of a name that is gone, it is met whatever is traced, unless the suggested id is there |
| Obligations.LandsExactly | src/tracelayer/hooks/post_mutation.py:575-621 | the whole rule: the first boundary of the name, or else the only one with its slug, decides by being traced or unchanged; without either, no marker of the file may have an id of the suggested one |
| Gates.HandleEdit | src/tracelayer/hooks/pre_mutation.py:36-75 | verdict, proposed obligations and recorded block of the edit gate, as functions of the session before |
| Gates.EditVerdictExactly | src/tracelayer/hooks/pre_mutation.py:36-75 | which gate blocks an edit, by the session and the request |
| Gates.EditLeavesExactly | src/tracelayer/hooks/pre_mutation.py:36-75 | what an edit leaves: new pending obligations for exactly the keys asked for, the blocked node, everything else as it was |
| Gates.ProposalSays | src/tracelayer/hooks/pre_mutation.py:330-343 | an obligation proposed says what is untraced, whether it is new, its suggested marker, the active work and the only active requirement |
| Gates.ResolveIn | src/tracelayer/hooks/post_mutation.py:538-624 | a key is satisfied iff it was, or a pending obligation of it is of this file and has landed in its text |
| Gates.Reconcile | src/tracelayer/hooks/post_mutation.py:628-656 | after all files a key is satisfied iff it was, or a pending obligation of it has landed in the tree; what is left is returned |
| Gates.FinishTask | src/tracelayer/tasks.py:416-474 | verdict and new state of finishing a task; done clears the session |
| Gates.HandleStop | src/tracelayer/hooks/stop_gate.py:27-115 | verdict and new state of the stop gate, which finishes the work only when the agent may stop |
| SessionRuns.Perform | src/tracelayer/hooks/session_state.py:74-304 | each operation on the session object is one step of the runs below, and leaves other sessions alone |
| SessionRuns.KeysStayUnique | src/tracelayer/hooks/session_state.py:235-284 | in every run no obligation is listed twice |
| SessionRuns.ListedExactly | src/tracelayer/hooks/session_state.py:235-304 | in every run an obligation is listed iff it was proposed since the last clear |
| SessionRuns.SatisfiedExactly | src/tracelayer/hooks/session_state.py:247-276 | and satisfied iff it was then confirmed, or had landed when a reconcile came, by what landing means |
| SessionRuns.SatisfiedStays | src/tracelayer/hooks/session_state.py:247-262 | until a clear, a satisfied obligation stays satisfied |
| SessionRuns.PendingUntilSatisfied | src/tracelayer/hooks/session_state.py:235-284 | until a clear, a pending obligation stays listed and is satisfied iff confirmed or found landed since |
| SessionRuns.BlocksExactlyOnce | src/tracelayer/hooks/pre_mutation.py:59-75 | in every run the context gate blocks an edit that gets to it iff, since the last clear, no such edit of the node and no load came before |
| SessionRuns.DoneExactly | src/tracelayer/tasks.py:416-474 | in every run, finishing is done iff there is something to finish, every obligation proposed since the last clear was confirmed or has landed by what landing means, and neither verification blocks; when it is idle, and how many obligations block it |
| SessionRuns.MayStopExactly | src/tracelayer/hooks/stop_gate.py:27-75 | in every run, the agent may stop iff verification passes and every such obligation was confirmed or has landed by what landing means |
| SessionRuns.ClearsExactly | src/tracelayer/tasks.py:462-466 | in every run, an operation clears the session iff it is told to, or finishes the work with every such obligation met and no verification blocking |
| SessionRuns.ClearedIsNew | src/tracelayer/tasks.py:462-466 | after that the session is as new |
| SessionRuns.WorkIsLastSet | src/tracelayer/hooks/session_state.py:111-117 | in every run the active work is the last one set since the last clear |

## Left out

- SQLite, full-text search, JSON columns, temporary files and atomic renames: the store and the session
  files are maps and sequences in memory.
- Revisions, timestamps and the index report: rows carry no revision, so the claim
  that kept edges are byte-identical to rebuilt ones is not made (kept edges keep their old revision).
- `evidence_status` is a flag the passes set; that a full pass drops it for unchanged nodes is not part
  of the agreement, which compares active nodes as declared, statuses and edges.
- Extraction of nodes and edges from one file, diagnostics TL001 and TL002, policy rules: taken as given
  or simple filters.
- Discovery excludes: both passes read the same files here; the program applies include globs only when
  it discovers files.
- Node and edge records are values in arrays, sequences and maps; sharing one record object between
  lists is not captured.
- IdGeneration.Slug: takes the name with letters already in lower case; Unicode case mapping is not modelled.
- Work.Canon: maps ASCII letters only, for the same reason.
- Splitting text into lines: lines are inputs everywhere but in `MarkerText`, `Diff`, `DiffText` and
  `Normalize`; rejoining lines with line feeds drops a final one.
- Block containers and HTML blocks of Markdown: the comparison with CommonMark is about the rules of
  section 4.5 applied to each line in turn.
- Git settings that change the sides `a/` and `b/` in a diff.
- Diff.ParseHunk: reads ASCII digits; the regex also takes other Unicode digits.
- Glob.Matches: what a bracket class matches is a parameter, because its text goes to the regex engine as
  it is; the theorems about meaning are for patterns without brackets.
- Serialize.ShapeOf: the text of a leaf is a parameter; decoding bytes with replacement characters is not
  modelled.
- Review.Visit: goes over the edges of a uid in table order, not outgoing before incoming; only the set
  of uids found is stated.
- Traverse.BoundedWalk: says which nodes and edges are found, not in which order.
- Markdown.ExtractHeadings: leaves out the edges merged into a heading block and the blocks of marker
  comments.
- Gates.HandleEdit: which boundaries of the proposed text are untraced, the markers suggested for them,
  and whether a pending change of a requirement holds the edit up are inputs.
- Gates.Reconcile: the boundaries of each file, which of them are traced or as they were at the change
  base, slugs, and the ids in markers are inputs; a file that fails halfway counts as unreadable.
- Gates.FinishTask: the results of verification are inputs; work status lines and receipts are not
  modelled.
- Gates.HandleStop: the results of verification are inputs, and finishing that fails changes nothing.
- Serialize.PlainTextDeterminesShape: one way; between it and the texts that are proved to imitate tokens
  are those in which a quote, a close and one more close or open stand without a new leaf behind them,
  where what is printed alike depends on the other leaves of the tree.
- Parts of the session record: dirty ids, the active plan, pending bootstraps and pending requirement
  changes; work status lines and receipts on completion.
- Language node tables, suggestions, templates, prompt scoring, knowledge ranking, evidence parsers,
  command line, web and server front ends.
