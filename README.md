# infra-copilot file store and template choice, in Dafny

This project models two parts of infra-copilot, an assistant that writes Terraform and workflow files into a virtual file system while a chat agent streams them.

1. **The file store `useInfraStore` (lib/store.ts).**
   - It holds three pieces of state:
     - a flat list of file records (a path, the content, and a status that moves from `creating` to `writing` to `complete`);
     - the selected path;
     - the set of expanded folders.
   - It has six actions: `createFile`, `streamContent`, `completeFile`, `selectFile`, `toggleFolder` and `resetStore`.
   - It has one derived view, `getFileTree`, which turns the list into a forest of folder and file nodes in four phases:
     1. a validity filter;
     2. a sort by path;
     3. an incremental build through a `pathMap` from folder paths to folder nodes;
     4. a recursive sort of every level (`deduplicateAndSort`).
2. **The template choice `getTemplateForStep` (lib/agent-instructions.ts).**
   - It lower-cases a blueprint step's module name and title.
   - It looks for keywords in a fixed order and returns the keys of the templates for the first family that matches.

The modules follow the program:

| module | file | what it holds |
|---|---|---|
| `Paths` | `paths.dfy` | JavaScript `trim`, `split`, `filter(Boolean)`, the `currentPath` accumulation and the string order |
| `Files` | `files.dfy` | the `FileItem` record and the two record-wise updates |
| `FileTree` | `file_tree.dfy` | `getFileTree` as functions on values |
| `TreeFacts` | `tree_facts.dfy` | invariants of the build and the level sort |
| `TreeTheorems` | `tree_theorems.dfy` | what the tree shows for a given list of records |
| `TreeBuilder` | `tree_builder.dfy` | the build loop as the source runs it, splitting the untrimmed paths, with its `pathMap`, proved to compute `FileTree.BuildAsWritten` |
| `Store` | `store.dfy` | the store as a class whose methods replace its fields |
| `Templates` | `templates.dfy` | the template choice |

The build loop keeps references to folder nodes. It pushes into the level those references reach and keeps a map from paths to them.

- The model represents a reference by a *route*: the indices of the folders from the top of the forest down to a level.
- `pathMap` becomes a map from paths to routes.
- The invariant `TreeBuilder.MapsRoutes` states that the map is faithful. Each route it holds is the one that following `find` down that folder's segments would reach.

## Model

| member | source | states |
|---|---|---|
| Store.InfraStore.constructor | lib/store.ts:34-37 | The initial state has no records, nothing selected and nothing expanded, and it satisfies the store invariant (unique, trimmed paths). |
| Store.InfraStore.CreateFile | lib/store.ts:39-63 | Let `p` be the trimmed path. If `p` is empty or some record already has path `p`, nothing changes. Otherwise exactly one record `{p, "", creating, now}` is appended after the old records, `p` becomes selected, and the expanded set becomes the old set plus the folders above `p`. The store invariant is preserved. |
| Store.InfraStore.AddNew | lib/store.ts:46-62 | For a fresh, trimmed path: the old records with the new record appended, the path selected, the folders above it added to the expanded set, and the invariant kept. |
| Store.Expand | lib/store.ts:46-53 | The loop returns the old set together with the path of every proper prefix of the segments. Nothing is removed. |
| Store.FolderPathsCount | lib/store.ts:50-53 | Every prefix of 1 to n-1 segments is expanded, and the set holds exactly n-1 paths for n segments. |
| Store.FolderPathsAncestors | lib/store.ts:50-53 | Every expanded path splits back into a non-empty proper prefix of the new file's segments, so nothing else is expanded. |
| Store.AppendKeepsValid | lib/store.ts:41-59 | Appending a record for a trimmed path that no record has keeps the paths unique and trimmed. |
| Files.NewItem | lib/store.ts:58 | The new record has the given path, empty content, status `creating`, a creation time and no update time. |
| Files.Streamed | lib/store.ts:65-70 | Same length and paths. Each record whose path equals the argument exactly gets the content, status `writing` and the update time. Every other record is unchanged. |
| Files.Completed | lib/store.ts:72-77 | Same length, paths and contents. Each record with that exact path becomes `complete` with the update time. Every other record is unchanged. |
| Files.UnknownPathIsNoOp | lib/store.ts:65-77 | For a path that no record has, both updates return the list unchanged. |
| Files.UpdatesKeepPaths | lib/store.ts:65-77 | Both updates keep paths unique. |
| Store.UpdatesKeepTrimmed | lib/store.ts:65-77 | Both updates keep paths trimmed. |
| Store.InfraStore.StreamContent | lib/store.ts:65-70 | The records become `Streamed` of the old records. Selection and expansion are untouched, and the invariant is kept. |
| Store.InfraStore.CompleteFile | lib/store.ts:72-77 | The records become `Completed` of the old records. Selection and expansion are untouched, and the invariant is kept. |
| Store.InfraStore.SelectFile | lib/store.ts:79 | The given path is selected whether a record has it or not. Nothing else changes. |
| Store.Toggled | lib/store.ts:81-90 | The folder is in the result exactly when it was not in the set. Every other path keeps its membership. |
| Store.ToggledTwice | lib/store.ts:81-90 | Toggling the same folder twice restores the set. |
| Store.InfraStore.ToggleFolder | lib/store.ts:81-90 | The expanded set becomes `Toggled`. Records and selection are untouched. |
| Store.InfraStore.ResetStore | lib/store.ts:178-183 | Back to no records, nothing selected and nothing expanded. |
| Store.InfraStore.GetFileTree | lib/store.ts:92-176 | Runs filter, sort, the build loop and the level sort, and returns exactly the source's view `FileTreeAsWritten(files)`, which builds from the untrimmed paths. When the store invariant holds, as every action keeps it, that view is `FileTreeOf(files)`, so every theorem about `FileTreeOf` applies to what the store returns. |
| Store.CreatedFileShows | lib/store.ts:97-111 | After a record is appended at a path the filter accepts, the tree has a file node at that path's node path, and only one. |
| Store.TrimmedBuildAgrees | lib/store.ts:115-116 | On records with trimmed paths, splitting the path as written gives the same forest as splitting the trimmed path. |
| Store.StoreViewAsWritten | lib/store.ts:92-176 | For a store whose paths are trimmed (as `createFile` keeps them), the view of the code as written, `FileTreeAsWritten`, equals `FileTreeOf`. |
| Paths.Trim | lib/store.ts:41 | `trim` returns the infix left after removing leading and trailing ECMAScript white space. The result is empty exactly when the input is all white space. |
| Paths.TrimmedIsFixed | lib/store.ts:41 | Trimming leaves a string unchanged exactly when it has no white space at either end. |
| Paths.TrimIdempotent | lib/store.ts:98 | Trimming twice is the same as trimming once, so the filter's trim of a path `createFile` stored changes nothing. |
| Paths.SplitOn | lib/store.ts:101 | `split` on one character returns at least one piece. No piece contains the separator, and joining the pieces returns the input. |
| Paths.SplitJoin | lib/store.ts:101 | Splitting the join of separator-free pieces returns those pieces. |
| Paths.NonEmpty | lib/store.ts:46 | `filter(Boolean)` keeps exactly the non-empty pieces and never lengthens the list. |
| Paths.NonEmptyCount | lib/store.ts:46 | Every non-empty piece is kept as often as it occurs, and no empty piece is kept. |
| Paths.NonEmptyAppend | lib/store.ts:46 | Filtering works piece by piece and keeps the order: filtering a concatenation concatenates the filtered parts. |
| Paths.Segments | lib/store.ts:46 | Every segment of a path is non-empty and contains no `/`. |
| Paths.SegmentsCount | lib/store.ts:46 | Each non-empty `/`-piece of the path is a segment as often as it occurs in the split. |
| Paths.SegmentsJoin | lib/store.ts:46 | The segments of `a/b` are those of `a` followed by `b` when `b` is non-empty, in order. |
| Paths.SegmentsOfSegment | lib/store.ts:46 | A non-empty path without `/` is its own single segment. |
| Paths.PathOfSegments | lib/store.ts:46-51 | A path none of whose `/`-pieces is empty is the path its segments accumulate to. This is the converse of `SegmentsOfPath`. |
| Paths.SegmentsOfPath | lib/store.ts:123 | Splitting the path accumulated from segments returns those segments. |
| Paths.PathOfInjective | lib/store.ts:123 | Distinct segment sequences accumulate to distinct paths. |
| Paths.StrLessIrreflexive | lib/store.ts:113 | The string order used for sorting is irreflexive. |
| Paths.StrLessTransitive | lib/store.ts:113 | The string order is transitive. |
| Paths.StrLessTotal | lib/store.ts:113 | Any two distinct strings are ordered one way or the other. |
| FileTree.Extension | lib/store.ts:107 | `split('.').pop()` is the dot-free suffix after the last dot, or the whole name when it has no dot. |
| FileTree.Filter | lib/store.ts:97 | Only elements the test accepts are kept. |
| FileTree.FilterCount | lib/store.ts:97-111 | Every accepted element is kept as often as it occurs, and nothing else. |
| FileTree.SortBy | lib/store.ts:113 | The sort returns a permutation of its input. |
| FileTree.SortBySorted | lib/store.ts:113 | Under a strict order, no element of the sorted list precedes an earlier one. |
| FileTree.PathLessStrict | lib/store.ts:113 | The path comparator is a strict order. |
| FileTree.NodeLessStrict | lib/store.ts:165-168 | The comparator "folders first, then by name" is a strict order. |
| FileTree.FindFile | lib/store.ts:127 | Returns the index of the first file node with that path, or the level length when there is none. |
| FileTree.FindFolder | lib/store.ts:139 | Returns the index of the first folder node with that path, or the level length when there is none. |
| TreeBuilder.BuildForest | lib/store.ts:115-156 | The loop over the sorted records returns exactly `FileTree.BuildAsWritten` of them: every record inserted, in order, from the segments of its untrimmed path. |
| TreeBuilder.AddFile | lib/store.ts:115-156 | One record's callback inserts the segments of its untrimmed path (line 116) into the forest and keeps the `pathMap` invariant. |
| TreeBuilder.WalkParts | lib/store.ts:120-155 | The segment loop, with its cursor, `find`, `push` and `pathMap`, returns `FileTree.Insert` of the segments and keeps the `pathMap` invariant. |
| TreeBuilder.FolderRoute | lib/store.ts:139 | When the repeated folder search succeeds, it finds a route with one index per segment. |
| TreeBuilder.MapHit | lib/store.ts:146-150 | When `pathMap` has the next folder path, the folder is on the current level, and the map holds exactly the route that `find` would reach. |
| TreeBuilder.MapRecord | lib/store.ts:144 | Recording the folder just reached keeps `pathMap` faithful. |
| TreeBuilder.LeafStep | lib/store.ts:125-132 | At the last segment, pointing an existing file node at the record, or pushing a new one, completes the insertion and keeps the map faithful. |
| TreeBuilder.DescendStep | lib/store.ts:153 | Descending into an existing folder keeps the loop's cursor invariant. |
| TreeBuilder.CreateStep | lib/store.ts:139-144 | Pushing a missing folder keeps the map faithful and the cursor invariant. |
| TreeFacts.InsertOk | lib/store.ts:120-155 | Inserting one record's segments keeps every level well formed. No two nodes of one kind share a path, each name is a segment, and each path spells the segments above it. |
| TreeFacts.InsertItems | lib/store.ts:120-155 | After an insertion, the record sits at its node path and replaces whatever was there. Every other path keeps its records. |
| TreeFacts.BuildOk | lib/store.ts:115-156 | The built forest is well formed for every list of records. |
| TreeFacts.BuildItems | lib/store.ts:115-156 | Every node path holds the last record (in build order) that maps to it, or nothing when no record does. |
| TreeFacts.InsertNames | lib/store.ts:120-155 | Insertion gives folder and file nodes the names of their segments, so valid segments give valid names. |
| TreeFacts.BuildNames | lib/store.ts:159-161 | When every record passes the filter, every folder is named by a valid segment, and every file by a valid segment with an extension. |
| TreeFacts.SortLevelItems | lib/store.ts:165-168 | Sorting a level keeps the records at every path. |
| TreeFacts.ArrangeItems | lib/store.ts:164-172 | `deduplicateAndSort` drops and merges nothing: every path holds the same records before and after. |
| TreeFacts.ArrangeOk | lib/store.ts:158-172 | The recursive level sort keeps every level well formed, with no duplicate kind and path. |
| TreeFacts.SortLevelDistinct | lib/store.ts:164-168 | Sorting a level with no duplicate kind and path creates none. |
| TreeFacts.ArrangeNames | lib/store.ts:169-172 | The recursive level sort keeps every node's name. |
| TreeFacts.ArrangeOrdered | lib/store.ts:164-172 | After the recursive sort, folders come strictly before files on every level, and nodes of one kind come strictly by name. |
| TreeTheorems.SortedValid | lib/store.ts:97-113 | Every record the sort passes on is accepted by the filter and comes from the store. |
| TreeTheorems.FileTreeShape | lib/store.ts:158-175 | The view is well formed and ordered on every level, and all its names are valid. This is the claim of the comment at lib/store.ts:159-162, for the model's build. |
| TreeTheorems.FileTreeItems | lib/store.ts:92-176 | Each node path of the view holds exactly the last record, after the stable sort, among the valid records mapping to it. |
| TreeTheorems.FileTreeAtMostOne | lib/store.ts:127-131 | A path of the view holds at most one record. It holds one exactly when the sorted valid records have one for it. |
| TreeTheorems.LastWithValid | lib/store.ts:97-113 | The sorted valid records have one for a node path exactly when some record of the store passes the filter and maps to it. |
| TreeTheorems.FileTreeHasFile | lib/store.ts:97-131 | There is a file node at a node path exactly when some record passes the filter and maps to it. There is then exactly one. |
| TreeTheorems.SortedUnique | lib/store.ts:113 | Two sorted permutations of one list are equal when any two distinct elements are comparable. |
| TreeTheorems.FileTreeOrderFree | lib/store.ts:113 | When records with a common path are equal, the view does not depend on the order of the list. |
| TreeTheorems.FileTreeOrderFreeUnique | lib/store.ts:113 | For the store's lists, whose paths are unique, the view does not depend on insertion order. |
| TreeTheorems.SortByStable | lib/store.ts:113 | The sort keeps the relative order of elements the comparator cannot tell apart. |
| TreeTheorems.SortByPathStable | lib/store.ts:113 | The records sharing a path keep their order through the sort by path. |
| TreeTheorems.LaterRecordWins | lib/store.ts:127-129 | Of several records with one valid path, the node shows the one that comes last in the store's list. |
| TreeTheorems.AsWrittenBlankFileName | lib/store.ts:116 | The record at `"a.tf/ "` passes the filter. The build as written gives it a file node named `" "` inside a folder `a.tf`, which breaks the name guarantee. The corrected build gives it the file node `a.tf`. |
| Templates.LowerChar | lib/agent-instructions.ts:64 | Lower-casing one code point gives at least one code point and no ASCII capital. `A`-`Z` become the letter 32 code points higher, a lower-case letter. Every code point other than `A`-`Z`, U+0130 and U+212A is returned unchanged. |
| Templates.Lower | lib/agent-instructions.ts:64-65 | The lower-cased text is no shorter than the input and holds no ASCII capital. |
| Templates.LowerIdempotent | lib/agent-instructions.ts:64-65 | Lower-casing twice is the same as lower-casing once. |
| Templates.SameText | lib/agent-instructions.ts:64-65 | The choice reads a step only through its lower-cased texts and its type. |
| Templates.CaseInsensitive | lib/agent-instructions.ts:64-65 | Lower-casing the module name and title first changes nothing. |
| Templates.MissingIsEmpty | lib/agent-instructions.ts:64-65 | A missing module name or title is treated as an empty one. |
| Templates.MatchesAll | lib/agent-instructions.ts:67-119 | Each family matches exactly when one of its keywords occurs in the lower-cased module name or title. |
| Templates.FirstMatchWins | lib/agent-instructions.ts:67-119 | The first family, in the order S3, VPC, RDS, Lambda, whose keywords occur picks all the templates. |
| Templates.NoMatchDefault | lib/agent-instructions.ts:121-135 | With no keyword, a `github-actions` step gets the workflow templates and every other step the VPC templates. |
| Templates.ChoiceExplained | lib/agent-instructions.ts:57-136 | Each outcome comes out exactly when its family matches and no earlier one does; for VPC the by-default case is included. The lemma states all five if-and-only-ifs. |
| Templates.SlotsOfChoice | lib/agent-instructions.ts:76-135 | `main` is always present. Every non-workflow outcome fills all three slots from one family, and the workflow outcome fills only `main`. |
| Templates.WorkflowStepAlone | lib/agent-instructions.ts:121-128 | A `github-actions` step with no keyword gets `main = githubActionsWorkflow`, with `variables` and `outputs` absent. |
| Templates.EmptyTerraformStep | lib/agent-instructions.ts:130-135 | A Terraform step whose module name and title are missing or empty gets the VPC templates. |
| Templates.PostgresInModuleNameOnly | lib/agent-instructions.ts:92-99 | `postgres` in the module name picks RDS. In the title alone it picks nothing, and the default VPC applies. |
| Templates.PostgresOnly | lib/agent-instructions.ts:92-99 | The same holds for any text whose only keyword is `postgres`. |

## Left out

- Timestamps: `Date.now()` becomes a `now` parameter of the actions. It is stored and never reasoned about.
- String order: `localeCompare` (lib/store.ts:113, 167) is replaced by lexicographic order on code points (`Paths.StrLess`), not by a locale collation.
  - The proved properties use only that it is a strict total order.
  - The two orders can sort names differently, e.g. `B` before `a`.
  - `localeCompare` is not a strict total order. It returns 0 for distinct but canonically equivalent strings, such as `"\u00e9"` and `"e\u0301"`, and the source's stable sorts then keep input order. `TreeTheorems.FileTreeOrderFree`, `TreeTheorems.FileTreeOrderFreeUnique` and the strictly-by-name half of `TreeFacts.ArrangeOrdered` therefore hold for the code-point order only. They do not carry over to the source for records or names that differ only in this way.
- Strings: JavaScript strings are sequences of UTF-16 code units, while a Dafny `string` holds code points, so lone surrogates cannot be written. Trimming, splitting on `/` and `.`, and the ASCII keywords work the same on both.
- Lower-casing: `toLowerCase` is modelled only for the code points whose lower case holds an ASCII letter: `A`-`Z`, U+0130 and U+212A. Every other code point is kept as it is. Its real lower case has no ASCII letter, so no keyword match depends on it.
- Zustand: the `create`, `set` and `get` plumbing and subscriptions are not modelled. The store is a plain class whose methods assign its fields.
- In-place mutation and sorting: the build's in-place `existingFile.file = file` and the in-place array sorts are modelled on values. The model does not capture the aliasing between a `pathMap` entry and the node in the tree. Routes stand in for those references.
- `children: undefined` on file nodes is not represented: file nodes have no children field.
- Unreachable fallback: the `find` fallback for folders (lib/store.ts:139) is modelled as written, and both of its outcomes are proved correct. That it is in fact unreachable, once `pathMap` is consulted first, is not proved.
- Template text: the text behind each template key, and `getTemplate`, are not part of this model. Its file is not part of this model either. Results are template keys.
- Left out of the model entirely:
  - the `agentInstructions` prompt string and the blueprint catalog in lib/blueprints.ts;
  - the CopilotKit tool wiring in components/chat/tools.tsx, with its timers and React effects;
  - the presentational components;
  - the network and LLM route.

## Findings

| source | as written | input that shows it | evidently intended | confidence | as-written member | corrected member |
|---|---|---|---|---|---|---|
| lib/store.ts:98-116 | The filter judges `file.path.trim()`, but the build splits the untrimmed `file.path`. | A record with path `"a.tf/ "` in `files`; `createFile` trims, but nothing else enforces this. It passes the filter, as `a.tf` is a valid file name. The build then makes a folder `a.tf` holding a file named `" "`, which is blank and has no extension. That contradicts the comment at lib/store.ts:159-161. | Build from the segments of the trimmed path, the same ones the filter checked. | not executed | TreeTheorems.AsWrittenBlankFileName | TreeFacts.BuildNames |

- The record at `"a.tf/ "` shows the difference between `FileTree.BuildAsWritten`, the build as written, and `FileTree.Build`, which splits the trimmed path.
- The imperative build `TreeBuilder.BuildForest` and `Store.InfraStore.GetFileTree` compute the build as written.
- The theorems about the view are stated for the corrected `FileTree.Build`, through `FileTree.FileTreeOf`.
- `Store.TrimmedBuildAgrees` and `Store.StoreViewAsWritten` show that the two builds agree on every store the actions produce, since `createFile` keeps paths trimmed. This is the second `ensures` of `Store.InfraStore.GetFileTree`.
