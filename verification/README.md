# GitHub RAG engine: a Dafny model of its core

`github_rag_engine` clones GitHub repositories and indexes their source into
one vector-store collection per repository. It answers questions about the
active repository through a retrieval query engine. This project models the
three parts that carry the repository's own logic, and proves properties of
them.

- **Repository file rules** (`FileSystem.dfy`, on top of `PyStr.dfy` and `Config.dfy`):
  - the local name a clone URL gets, and `clone_repo`'s existence short-circuit;
  - `get_source_files`, which picks the files to index;
  - `generate_repo_map`, which lists every file with an ` [IGN]` marker, sorted and joined by newlines.

  A working copy is an abstract directory tree (`Tree`). The two `os.walk`
  loops are recursive methods with loop invariants. Each is proved equal to a
  reference function, and the reference functions are then related to the tree
  by membership lemmas.
- **Adaptive chunking** (`Chunking.dfy`):
  - the extension table;
  - the metadata extractor;
  - the per-document dispatch on the lowercased extension;
  - the fallback from the code splitter to the generic one;
  - the in-order concatenation, as the `GetNodesAdaptive` loop.

  The three splitters are opaque parameters; the code splitter may fail.
- **The engine** (`Engine.dfy`):
  - `GitHubRAG` is a class whose fields (active repository, collection, index,
    query engine and the vector store) its methods update in place;
  - each method is proved to do exactly what a function on a `Session` value
    does; the guards, idempotence and field changes are proved about those
    functions;
  - the vector store is a map from collection name to chunk count;
  - an index or a query engine is a token naming the collection it reads.

`PyStr.dfy` holds the Python string and path primitives the core relies on:
- `str.startswith` and ASCII `str.lower`;
- `str.rfind` and `os.path.basename`;
- `os.path.splitext` and pathlib's `suffix`;
- `str.replace` of one character and `"\n".join`;
- `sorted` on strings, in code-point order.

When `initialize_repo` loads an index, it drops the query engine "so it
rebuilds with new index" (`engine.py:84-85`). `ingest_repo` also sets a new
index (`engine.py:143-146`) but keeps the query engine. The model keeps both
behaviours as written, and the consequence is under "Findings".

## Model

| member | source | states |
|---|---|---|
| PyStr.SplitExt | github_rag_engine/src/utils/filesystem.py:37 | `os.path.splitext(name)[1]`: the text from the last '.' of the base name, unless every character before that dot is a '.' (also used by the extractor at `ingestion/chunking.py:36`) |
| PyStr.Suffix | github_rag_engine/src/utils/filesystem.py:56 | pathlib's `suffix` of a file name: the text from its last '.', or empty when there is no '.', or the last one is the first or the last character |
| PyStr.SplitExtShape | github_rag_engine/src/utils/filesystem.py:37 | a non-empty `splitext` extension is a suffix of the base name that starts with '.' and holds no other '.' |
| PyStr.SplitExtNonEmptyIff | github_rag_engine/src/ingestion/chunking.py:36 | the extension is non-empty exactly when the base name holds a '.' after some character other than '.', so ".env" and "..x" have none |
| PyStr.SuffixAgreesWithSplitExt | github_rag_engine/src/utils/filesystem.py:56 | for a non-hidden file name, pathlib's `suffix` equals `splitext`'s extension, except that a name ending in '.' (such as "a." or "a..") has suffix "" and extension "." |
| PyStr.SortLines | github_rag_engine/src/utils/filesystem.py:64 | `sorted(lines)` is in code-point order and is a permutation of the lines |
| PyStr.SortedUnique | github_rag_engine/src/utils/filesystem.py:64 | two sorted permutations of the same lines are equal, so the sorted map does not depend on the walk order |
| FileSystem.RepoName | github_rag_engine/src/utils/filesystem.py:9-11 | the repository name holds no '/', and the URL ends with the name or with the name plus ".git" |
| FileSystem.RepoNameOfUrl | github_rag_engine/src/utils/filesystem.py:9-11 | `base/x.git` and `base/x` both name `x`; only one ".git" is removed, so `base/y.git.git` names `y.git` |
| FileSystem.LocalPath | github_rag_engine/src/utils/filesystem.py:13 | `config.REPO_DIR / repo_name`, with pathlib's dropping of an empty or "." segment |
| FileSystem.LocalPathName | github_rag_engine/src/utils/filesystem.py:13 | the cloned path's name is the repository name, or "repos" when the derived name is empty or "." (pathlib drops such a segment); a URL ending in "/.git" is one such case |
| FileSystem.CloneRepo | github_rag_engine/src/utils/filesystem.py:8-26 | the result is `REPO_DIR / name`; an existing path is returned without cloning; otherwise it succeeds exactly when git does, and a failure carries the URL |
| FileSystem.PruneHidden | github_rag_engine/src/utils/filesystem.py:31 | the subdirectories the walk still enters after `dirs[:] = …`: the non-hidden ones, in order |
| FileSystem.SourceFiles | github_rag_engine/src/utils/filesystem.py:28-44 | the reference file list of `get_source_files`: each directory's kept files, then its non-hidden subdirectories in order |
| FileSystem.GetSourceFiles | github_rag_engine/src/utils/filesystem.py:28-44 | the walk with its in-place pruning returns exactly the reference file list, in walk order |
| FileSystem.SourceFilesUnderPruned | github_rag_engine/src/utils/filesystem.py:31 | pruning hidden subdirectories before descending loses no file the walk would keep |
| FileSystem.SourceFilesExact | github_rag_engine/src/utils/filesystem.py:30-44 | a path is returned exactly when it names a file of the tree whose name is not hidden, whose lowercased extension is not ignored, and none of whose directories below the root is hidden |
| FileSystem.SourceFilesBelow | github_rag_engine/src/utils/filesystem.py:41 | every returned path lies strictly below the walked directory |
| FileSystem.RemoveGitDir | github_rag_engine/src/utils/filesystem.py:51-52 | `if ".git" in dirs: dirs.remove(".git")`: the first `.git` entry is removed and the order kept |
| FileSystem.MapPaths | github_rag_engine/src/utils/filesystem.py:50-62 | the reference list of the relative file paths `generate_repo_map` visits, in walk order, outside the pruned `.git` directories |
| FileSystem.RemoveGitDirExact | github_rag_engine/src/utils/filesystem.py:51-52 | when directory names are unique, `dirs.remove(".git")` removes exactly the `.git` entry |
| FileSystem.MapPathsUnderRemoved | github_rag_engine/src/utils/filesystem.py:50-52 | descending into the directories left after the removal is descending into all but `.git` |
| FileSystem.MapPathsComplete | github_rag_engine/src/utils/filesystem.py:50-62 | every file of the tree outside any `.git` directory, at any depth, gets a map line |
| FileSystem.MapPathsSound | github_rag_engine/src/utils/filesystem.py:50-62 | every map path names a file of the tree outside any `.git` directory |
| FileSystem.MarkerMatchesFilter | github_rag_engine/src/utils/filesystem.py:58-60 | a file name gets the ` [IGN]` marker (`MarkedIgnored`) exactly when `get_source_files`' name test (`IsSourceFile`, `filesystem.py:33-39`) rejects it |
| FileSystem.SourceFilesAreUnmarkedMapEntries | github_rag_engine/src/utils/filesystem.py:55-62 | a path is a source file exactly when it is in the map unmarked and no directory on its way is hidden |
| FileSystem.HiddenDirectoryListed | github_rag_engine/src/utils/filesystem.py:50-62 | a `.github/ci.yml` file appears in the map as the line ".github/ci.yml", without a marker |
| FileSystem.HiddenDirectoryNotIndexed | github_rag_engine/src/utils/filesystem.py:31 | yet the same file is not a source file |
| FileSystem.CiYmlNotMarked | github_rag_engine/src/utils/filesystem.py:59 | "ci.yml" is not marked ignored |
| FileSystem.FileLines | github_rag_engine/src/utils/filesystem.py:54-62 | the loop over one directory's files appends one line per file, in order |
| FileSystem.CollectMapLines | github_rag_engine/src/utils/filesystem.py:50-62 | the walk collects exactly the lines of the reference map paths, in walk order |
| FileSystem.RepoMap | github_rag_engine/src/utils/filesystem.py:46-64 | the reference repository map: the sorted lines joined by newlines |
| FileSystem.GenerateRepoMap | github_rag_engine/src/utils/filesystem.py:46-64 | the returned text is the repository map |
| FileSystem.RepoMapIsSortedLines | github_rag_engine/src/utils/filesystem.py:64 | the map is the newline join of any sorted arrangement of the lines |
| Chunking.FileMetadata | github_rag_engine/src/ingestion/chunking.py:32-37 | the metadata has exactly the keys "file_path", "file_name" and "extension" |
| Chunking.FileMetadataShape | github_rag_engine/src/ingestion/chunking.py:32-37 | the path is kept as given; the name is its last component; the extension is empty or a '.'-led suffix of the name with no other '.', non-empty exactly when the name has a '.' after another character |
| Chunking.FileMetadataKeepsCase | github_rag_engine/src/ingestion/chunking.py:36 | the extractor does not lowercase: "src/A.PY" gets ".PY" |
| Chunking.Route | github_rag_engine/src/ingestion/chunking.py:58-66 | the splitter a document goes to, chosen by its lowercased "extension" |
| Chunking.DocNodes | github_rag_engine/src/ingestion/chunking.py:60-82 | one document's chunks: markdown, code with the generic fallback, or generic; the fallback's warning reads "file_name" |
| Chunking.AdaptiveNodes | github_rag_engine/src/ingestion/chunking.py:57-84 | the reference chunk list: each document's chunks in input order, stopping at the first error |
| Chunking.RouteCases | github_rag_engine/src/ingestion/chunking.py:58-82 | ".md" goes to markdown; a key of the table goes to code with that key's language; anything else, a missing extension included, goes to generic |
| Chunking.RouteCaseInsensitive | github_rag_engine/src/ingestion/chunking.py:58 | two documents whose extensions lower to the same text take the same route |
| Chunking.UpperCaseExtensionRoutesToCode | github_rag_engine/src/ingestion/chunking.py:58-66 | a document read from "src/A.PY" is split as Python code |
| Chunking.DocNodesOneStrategy | github_rag_engine/src/ingestion/chunking.py:60-82 | each document gets one splitter's whole output; a failed code split gives exactly the generic output; the only error is the missing "file_name" read in the warning |
| Chunking.AdaptiveNodesAppend | github_rag_engine/src/ingestion/chunking.py:57-84 | chunking two lists of documents one after the other is chunking their concatenation |
| Chunking.GetNodesAdaptive | github_rag_engine/src/ingestion/chunking.py:39-84 | the loop that extends `all_nodes` returns each document's chunks in input order, or the first error |
| Chunking.AdaptiveNodesNoError | github_rag_engine/src/ingestion/chunking.py:67-78 | when every code-routed document has a "file_name", chunking cannot fail |
| Chunking.StructureDocumentFirst | github_rag_engine/src/ingestion/chunking.py:57-84 | a document without an extension, put first, contributes its generic chunks ahead of all others |
| Engine.ListRepos | github_rag_engine/src/engine.py:44-50 | `list_repos`: the non-hidden directory entries in listing order, and `[]` when the listing raises |
| Engine.RepoNamesExact | github_rag_engine/src/engine.py:47-48 | a name is listed exactly when some entry with that name is a directory and is not hidden |
| Engine.ListReposExact | github_rag_engine/src/engine.py:44-50 | `list_repos` lists exactly the non-hidden directories, and nothing when the listing raises |
| Engine.CollectionName | github_rag_engine/src/engine.py:62 | the collection name of a repository: "repo_" and the name, with ' ' and then '.' replaced by '_' |
| Engine.CollectionNameShape | github_rag_engine/src/engine.py:62 | the collection name is "repo_" and then the name with each ' ' and '.' replaced by '_': 5 characters longer, and holding neither character |
| Engine.CollectionNamePlain | github_rag_engine/src/engine.py:62 | a name without ' ' or '.' just gets the "repo_" prefix |
| Engine.CollectionNamesCollide | github_rag_engine/src/engine.py:62 | "a.b", "a_b" and "a b" share the collection "repo_a_b" |
| Engine.CollectionNameNotLegacy | github_rag_engine/src/engine.py:62-68 | no repository's own collection is the legacy "github_rag_v1" |
| Engine.GetOrCreate | github_rag_engine/src/engine.py:63 | the collection exists afterwards, keeping its chunks if it existed and empty otherwise; no other collection changes |
| Engine.NewSessionValid | github_rag_engine/src/engine.py:31-35 | the fresh engine satisfies the state invariant and has no stale query engine |
| Engine.InitStep | github_rag_engine/src/engine.py:52-88 | the repository becomes active, and a valid state stays valid with a collection selected |
| Engine.InitEarlyReturn | github_rag_engine/src/engine.py:54-55 | re-selecting the loaded repository changes nothing |
| Engine.InitLoads | github_rag_engine/src/engine.py:58-88 | otherwise: the collection is created if missing; an index over the chosen collection is loaded exactly when it holds chunks, and then the query engine is dropped; with no chunks the query engine is left as it was |
| Engine.ChooseCollection | github_rag_engine/src/engine.py:65-73 | the legacy check: the legacy collection when the own one is empty and the legacy one holds chunks, else the own one |
| Engine.LegacyFallback | github_rag_engine/src/engine.py:66-73 | the legacy collection is chosen exactly when the repository's own collection is empty and the legacy one holds chunks; else the own collection is chosen |
| Engine.InitIdempotent | github_rag_engine/src/engine.py:52-88 | selecting the same repository twice gives the state of selecting it once |
| Engine.IndexedCount | github_rag_engine/src/engine.py:167-171 | `get_indexed_count`: the active collection's chunk count, 0 without a collection |
| Engine.IndexedCountAfterInit | github_rag_engine/src/engine.py:167-171 | after a switch, an index is loaded exactly when `get_indexed_count` is positive |
| Engine.ActiveRepoLabel | github_rag_engine/src/engine.py:173-177 | `get_active_repo`: the active name, or "None" when there is none or it is empty |
| Engine.ActiveRepoAfterInit | github_rag_engine/src/engine.py:173-177 | after selecting a repository, `get_active_repo` reports its name, or "None" for the falsy empty name |
| Engine.AccessorsBeforeSelection | github_rag_engine/src/engine.py:167-177 | with no collection the count is 0, and with no active repository the label is "None" |
| Engine.StructureDocument | github_rag_engine/src/engine.py:110-114 | the repository-map document has no "extension", so it is routed to the generic splitter |
| Engine.ReadDocumentsMetadata | github_rag_engine/src/engine.py:117-121 | every document the reader loads carries the extractor's metadata for one of the input files |
| Engine.ReadDocumentsNamed | github_rag_engine/src/engine.py:117-121 | so every loaded document has a "file_name" |
| Engine.IngestChunkingSucceeds | github_rag_engine/src/engine.py:117-123 | chunking `[map_doc] + docs` cannot fail, and the map's chunks come first |
| Engine.IngestWith | github_rag_engine/src/engine.py:90-146 | ingestion keeps the state invariant |
| Engine.IngestStep | github_rag_engine/src/engine.py:90-147 | `ingest_repo` as written: clone, switch, guards, chunk and index, keeping the query engine |
| Engine.IngestStepFixed | github_rag_engine/src/engine.py:90-147 | the same, with the query engine dropped when the new index is set, as `initialize_repo` does at `engine.py:84-85` |
| Engine.IngestInto | github_rag_engine/src/engine.py:99-146 | ingestion after the switch: the already-indexed and no-files guards, then chunking and indexing; the state invariant is kept |
| Engine.IndexNodes | github_rag_engine/src/engine.py:140-146 | a chunking failure raises; otherwise the chunks go into the current collection and an index over it is loaded; the state invariant is kept |
| Engine.IngestCloneFails | github_rag_engine/src/engine.py:93 | a failed clone raises and changes nothing |
| Engine.IngestGuards | github_rag_engine/src/engine.py:97-107 | after the switch, a non-empty collection or a tree without source files ends ingestion with nothing else changed |
| Engine.IngestErrorIsClone | github_rag_engine/src/engine.py:90-146 | in the model, where the library calls never raise, the only exception ingestion raises is a failed clone |
| Engine.IngestIntoIndexes | github_rag_engine/src/engine.py:100-146 | an empty collection with source files receives all chunks of `[map_doc] + docs`, and an index over it is loaded; the query engine is dropped only in the corrected variant |
| Engine.IngestIndexes | github_rag_engine/src/engine.py:90-146 | the same for a whole `ingest_repo` call from a successful clone |
| Engine.SecondIngestNoOp | github_rag_engine/src/engine.py:97-102 | ingesting a URL again once it has chunks changes nothing more than the switch |
| Engine.LegacyBlocksIngest | github_rag_engine/src/engine.py:97-102 | a new repository with an empty own collection and a non-empty legacy one is never indexed: the legacy collection is selected and the guard stops |
| Engine.QueryStep | github_rag_engine/src/engine.py:149-156 | a query keeps the state invariant |
| Engine.QueryCases | github_rag_engine/src/engine.py:149-165 | with no index the query raises and changes nothing; otherwise it answers with the existing engine, or builds one over the index with top-k 10 and keeps it |
| Engine.QueryBuildsOnce | github_rag_engine/src/engine.py:153-156 | a second query reuses the engine the first built and changes nothing |
| Engine.StaleEngineAfterIngest | github_rag_engine/src/engine.py:143-146 | as written: after a query over "a", ingesting a new "b" loads an index over "repo_b", yet the next query is answered over "repo_a" |
| Engine.InitKeepsEngineCurrent | github_rag_engine/src/engine.py:84-85 | a switch never leaves a query engine over another index than the loaded one |
| Engine.IngestIntoKeepsEngineCurrent | github_rag_engine/src/engine.py:141-146 | nor does indexing, once it drops the engine |
| Engine.IngestFixedKeepsEngineCurrent | github_rag_engine/src/engine.py:90-146 | nor does the corrected `ingest_repo` |
| Engine.QueryKeepsEngineCurrent | github_rag_engine/src/engine.py:153-156 | nor does a query |
| Engine.QueryAnswersFromCurrentIndex | github_rag_engine/src/engine.py:149-156 | so every answer comes from the index loaded when the question is asked |
| Engine.GitHubRAG.constructor | github_rag_engine/src/engine.py:24-42 | a new engine has nothing selected, over the existing store; it satisfies the invariant, and its query engine reads the current index |
| Engine.GitHubRAG.InitializeRepo | github_rag_engine/src/engine.py:52-88 | the fields change exactly as `InitStep` says; the invariant is kept, and so is a query engine that reads the current index |
| Engine.GitHubRAG.IngestRepo | github_rag_engine/src/engine.py:90-147 | the fields and the raised error are exactly those of `ingest_repo` as written (`IngestStep`) when `resetEngine` is false, and of the corrected step when it is true; the invariant is kept, and the corrected step keeps the query engine on the current index |
| Engine.GitHubRAG.IngestSelected | github_rag_engine/src/engine.py:99-146 | from the already-indexed check on, the method does what `IngestInto` says with the same `resetEngine`, using the real walk, map builder and chunking loop |
| Engine.GitHubRAG.AddToIndex | github_rag_engine/src/engine.py:140-146 | the chunks are added to the current collection and an index over it is loaded; the query engine is kept as written (`resetEngine` false), and with the reset it is dropped, so it reads the current index |
| Engine.GitHubRAG.BuildEngine | github_rag_engine/src/engine.py:158-165 | the query engine becomes a top-10 retriever over the current index; nothing else changes |
| Engine.GitHubRAG.Query | github_rag_engine/src/engine.py:149-156 | the fields and the result are exactly `QueryStep`'s; when the query engine read the current index, it still does and the answer comes from the index that was loaded |

## Left out

- Embedding and its cache (`engine.py:127-138`): the OpenAI embedding model, `IngestionPipeline`, `IngestionCache` and the persisted key-value store are library code. Chunks go into the collection as chunked, and the vector store records only their number.
- ChromaDB and `VectorStoreIndex` internals: a collection is its chunk count, and an index or query engine is a token naming its collection. Chroma's own rules on collection names are not modelled. The model assumes a chromadb release in which `get_collection` raises `ValueError` for a missing collection (the 0.4 series), so that a missing legacy collection is swallowed at `engine.py:72-73`. With a release that raises another exception, `initialize_repo` would raise there whenever the repository's own collection is empty.
- Retrieval: the similarity cutoff 0.1 filters floating-point scores inside a library post-processor. Only the top-k of 10 is recorded. The answer is the question and the engine that would answer it; the LLM call is not modelled.
- The `git clone` subprocess: its outcome is the parameter `gitSucceeds`, and the tree it leaves is a parameter of ingestion. `get_repo_url` is not part of this model.
- The file system: `os.walk` runs over an abstract `Tree`, and `path.exists()` over the set of names present in the repositories directory. Paths are relative to the application's base directory. Symbolic links and unreadable directories are not modelled.
- `SimpleDirectoryReader`: what it loads from each file is the parameter `read`, one text per document. Each document carries exactly the extractor's metadata; any metadata the reader adds itself is not modelled.
- The splitting algorithms of `CodeSplitter`, `MarkdownNodeParser` and `SentenceSplitter` (tree-sitter, tiktoken): they are parameters, and only their configured sizes are recorded.
- `str.lower` is modelled on ASCII letters only.
- Printing, `.env` loading in `config.py`, and the Streamlit front end in `app.py`.
- Engine.IngestErrorIsClone: in the model, the library calls never raise. The source can also raise from several places:
  - `get_or_create_collection` (`engine.py:63`), when Chroma rejects the collection name. An example is "repo_foo_" for a repository named "foo.": it ends in '_', and Chroma wants names that start and end with a letter or digit, 3 to 63 characters long. This happens after `active_repo` is set (`engine.py:58`), so the switch is left half done, with the old collection and index still in place.
  - The reader (`engine.py:117-121`), for example when `SimpleDirectoryReader` re-raises an `ImportError` for a file type it needs an extra package to read.
  - The embedding pipeline and its cache (`engine.py:127-138`), including `SimpleKVStore.from_persist_path` on a corrupt cache file.

  Each of these raises after the switch to the new repository, which stays in effect.
- Engine.GitHubRAG.IngestRepo, Engine.GitHubRAG.IngestSelected and Engine.GitHubRAG.AddToIndex: with `resetEngine` false they model `ingest_repo` as written. With `resetEngine` true they model the corrected step, which drops the query engine when it builds the new index; `engine.py:143-146` does not do this. Only the corrected step is proved to keep the query engine on the current index.
- Engine.GitHubRAG.IngestSelected and Engine.GitHubRAG.AddToIndex: these are not methods of the source. They are the second half and the last step of `ingest_repo`, split out so that each proof stays small.
- Engine.GitHubRAG.GetIndexedCount and Engine.GitHubRAG.GetActiveRepo: the class accessors carry no contract of their own. They read the fields through `IndexedCount` and `ActiveRepoLabel`, whose behaviour the accessor lemmas state.

## Findings

| source | as written | input that shows it | evidently intended | confidence | as-written member | corrected member |
|---|---|---|---|---|---|---|
| github_rag_engine/src/engine.py:143-146 | `ingest_repo` replaces `self.index` but leaves `self.query_engine` as it was | select repository "a" whose collection holds 3 chunks; ask a question (this builds the engine); then ingest `https://github.com/u/b`, a fresh clone holding one `main.py`. The new index reads "repo_b", but the next question is answered by the engine over "repo_a" | drop the query engine whenever a new index is set, as `initialize_repo` does at line 85 | not executed | Engine.StaleEngineAfterIngest (about Engine.IngestStep, which Engine.GitHubRAG.IngestRepo implements with `resetEngine` false) | Engine.IngestFixedKeepsEngineCurrent (about Engine.IngestStepFixed, which Engine.GitHubRAG.IngestRepo implements with `resetEngine` true) |

The Streamlit front end (`app.py`) reruns after ingestion. On every rerun
it calls `initialize_repo` with the repository shown in its selection box.
If that is "b", the call returns at once, because "b" is active with an index
loaded. Questions about "b" are then answered from the chunks of "a". The
stale engine is only dropped when a switch loads a collection that holds
chunks.
