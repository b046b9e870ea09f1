/**
 * The `GitHubRAG` engine: which repository is active, which vector-store
 * collection backs it, whether an index is loaded, and the query engine built
 * over that index. The vector store is modelled as the chunk count of each
 * collection; the index and the query engine are modelled by the collection
 * they read. Embedding, retrieval and the LLM call are not modelled.
 *
 * The engine's operations are first given as functions on a `Session` value
 * (the engine's fields), and the properties are proved about those functions;
 * the class `GitHubRAG` at the end updates its fields in place and is proved to
 * do exactly what the functions describe.
 */
module Engine {
  import opened Wrappers
  import opened PyStr
  import opened FileSystem
  import opened Chunking

  /** The collection of the single-collection layout that preceded one collection per repository. */
  const LEGACY_COLLECTION: string := "github_rag_v1"

  /** The retriever returns the ten most similar chunks. */
  const SIMILARITY_TOP_K: nat := 10

  /** The `file_path` metadata of the repository-map document. */
  const STRUCTURE_FILE: string := "REPO_STRUCTURE.txt"

  // ---------------------------------------------------------------------------
  // list_repos

  /** An entry of the repositories directory, and whether `os.path.isdir` holds for it. */
  datatype DirEntry = DirEntry(name: string, isDir: bool)

  predicate IsRepoEntry(e: DirEntry) {
    e.isDir && !IsHidden(e.name)
  }

  /** The directories that are not hidden, in listing order. */
  function RepoNames(entries: seq<DirEntry>): seq<string> {
    if entries == [] then []
    else
      var e := entries[|entries| - 1];
      RepoNames(entries[..|entries| - 1]) + (if IsRepoEntry(e) then [e.name] else [])
  }

  /** `list_repos()`, given the listing of the repositories directory, `None` when listing raises. */
  function ListRepos(listing: Option<seq<DirEntry>>): seq<string> {
    match listing
    case None => []
    case Some(entries) => RepoNames(entries)
  }

  /**
   * A name is listed exactly when some entry of that name is a directory that
   * is not hidden; when the directory cannot be listed nothing is.
   */
  lemma {:induction false} RepoNamesExact(entries: seq<DirEntry>, name: string)
    ensures name in RepoNames(entries) <==>
            exists i :: 0 <= i < |entries| && entries[i].name == name && IsRepoEntry(entries[i])
  {
    if entries != [] {
      var init := entries[..|entries| - 1];
      RepoNamesExact(init, name);
      if exists i :: 0 <= i < |init| && init[i].name == name && IsRepoEntry(init[i]) {
        var i :| 0 <= i < |init| && init[i].name == name && IsRepoEntry(init[i]);
        assert entries[i] == init[i];
      }
      if exists i :: 0 <= i < |entries| && entries[i].name == name && IsRepoEntry(entries[i]) {
        var i :| 0 <= i < |entries| && entries[i].name == name && IsRepoEntry(entries[i]);
        if i < |init| {
          assert init[i] == entries[i];
        }
      }
    }
  }

  lemma ListReposExact(listing: Option<seq<DirEntry>>, name: string)
    ensures name in ListRepos(listing) <==>
            listing.Some? && exists i :: 0 <= i < |listing.value| && listing.value[i].name == name && IsRepoEntry(listing.value[i])
  {
    if listing.Some? {
      RepoNamesExact(listing.value, name);
    }
  }

  // ---------------------------------------------------------------------------
  // Collection names

  /** `f"repo_{repo_name}".replace(" ", "_").replace(".", "_")`. */
  function CollectionName(repoName: string): string {
    ReplaceChar(ReplaceChar("repo_" + repoName, ' ', '_'), '.', '_')
  }

  /**
   * The collection name is "repo_" followed by the repository name with each
   * space and each dot turned into '_', character for character.
   */
  lemma CollectionNameShape(repoName: string)
    ensures var c := CollectionName(repoName);
            |c| == 5 + |repoName| && StartsWith(c, "repo_") && ' ' !in c && '.' !in c &&
            forall i :: 0 <= i < |repoName| ==>
              c[5 + i] == (if repoName[i] == ' ' || repoName[i] == '.' then '_' else repoName[i])
  {
    var s := "repo_" + repoName;
    var c := CollectionName(repoName);
    assert forall i :: 0 <= i < 5 ==> c[i] == "repo_"[i];
    assert forall i :: 0 <= i < |repoName| ==> s[5 + i] == repoName[i];
  }

  /** A name with no space and no dot is kept as it is. */
  lemma CollectionNamePlain(repoName: string)
    requires ' ' !in repoName && '.' !in repoName
    ensures CollectionName(repoName) == "repo_" + repoName
  {
    var s := "repo_" + repoName;
    assert ' ' !in s && '.' !in s by {
      assert forall i :: 0 <= i < 5 ==> s[i] == "repo_"[i];
      assert forall i :: 5 <= i < |s| ==> s[i] == repoName[i - 5];
    }
    assert ReplaceChar(s, ' ', '_') == s;
    assert ReplaceChar(s, '.', '_') == s;
  }

  /** Distinct repositories can share a collection: "a.b", "a_b" and "a b" all map to "repo_a_b". */
  lemma CollectionNamesCollide()
    ensures CollectionName("a.b") == CollectionName("a_b") == CollectionName("a b") == "repo_a_b"
  {
    CollectionNameShape("a.b");
    CollectionNameShape("a_b");
    CollectionNameShape("a b");
    CollectionNamePlain("a_b");
    assert "repo_" + "a_b" == "repo_a_b";
  }

  /** No repository is given the legacy collection by name. */
  lemma CollectionNameNotLegacy(repoName: string)
    ensures CollectionName(repoName) != LEGACY_COLLECTION
  {
    CollectionNameShape(repoName);
    assert CollectionName(repoName)[0] == 'r';
  }

  // ---------------------------------------------------------------------------
  // The vector store

  /** The vector store: each collection's name and the number of chunks in it. */
  type Store = map<string, nat>

  /** `collection.count()`, and 0 for a collection that does not exist. */
  function Count(store: Store, c: string): nat {
    if c in store then store[c] else 0
  }

  /** `get_or_create_collection(c)`: an existing collection is kept, a new one starts empty. */
  function GetOrCreate(store: Store, c: string): (r: Store)
    ensures r.Keys == store.Keys + {c}
    ensures Count(r, c) == Count(store, c)
    ensures forall k :: k in store ==> r[k] == store[k]
  {
    if c in store then store else store[c := 0]
  }

  /**
   * The legacy check: an empty collection gives way to the legacy collection
   * when that exists and holds chunks (a missing one raises `ValueError`,
   * which is swallowed).
   */
  function ChooseCollection(store: Store, own: string): string {
    if Count(store, own) == 0 && Count(store, LEGACY_COLLECTION) > 0 then LEGACY_COLLECTION else own
  }

  // ---------------------------------------------------------------------------
  // Engine state

  /** A loaded index, by the collection it reads. */
  datatype Index = Index(collection: string)

  /** A retriever query engine over an index. */
  datatype QueryEngine = QueryEngine(index: Index, topK: nat)

  /** The fields of `GitHubRAG` the core updates, and the vector store behind them. */
  datatype Session = Session(
    activeRepo: Option<string>,
    collection: Option<string>,
    index: Option<Index>,
    queryEngine: Option<QueryEngine>,
    store: Store)

  /** The state `__init__` leaves: nothing selected, over an existing store. */
  function NewSession(store: Store): Session {
    Session(None, None, None, None, store)
  }

  /** A loaded index reads the current collection, and a current collection belongs to an active repository. */
  predicate Valid(s: Session) {
    && (s.index.Some? ==> s.collection == Some(s.index.value.collection))
    && (s.collection.Some? ==> s.activeRepo.Some?)
  }

  lemma NewSessionValid(store: Store)
    ensures Valid(NewSession(store)) && EngineCurrent(NewSession(store))
  {
  }

  // ---------------------------------------------------------------------------
  // initialize_repo

  predicate AlreadyLoaded(s: Session, repoName: string) {
    s.activeRepo == Some(repoName) && s.index.Some?
  }

  /** `initialize_repo(repo_name)`. */
  function InitStep(s: Session, repoName: string): (r: Session)
    ensures r.activeRepo == Some(repoName)
    ensures Valid(s) ==> Valid(r) && r.collection.Some?
  {
    if AlreadyLoaded(s, repoName) then s
    else
      var own := CollectionName(repoName);
      var store := GetOrCreate(s.store, own);
      var chosen := ChooseCollection(store, own);
      var r := s.(activeRepo := Some(repoName), collection := Some(chosen), store := store);
      if Count(store, chosen) > 0 then r.(index := Some(Index(chosen)), queryEngine := None)
      else r.(index := None)
  }

  /** Selecting the repository that is already loaded changes nothing. */
  lemma InitEarlyReturn(s: Session, repoName: string)
    requires AlreadyLoaded(s, repoName)
    ensures InitStep(s, repoName) == s
  {
  }

  /**
   * Otherwise the repository's collection is created if missing and nothing
   * else in the store changes; an index is loaded exactly when the chosen
   * collection holds chunks, and then the query engine is dropped; an empty
   * collection leaves no index and the query engine as it was.
   */
  lemma InitLoads(s: Session, repoName: string)
    requires !AlreadyLoaded(s, repoName)
    ensures var r := InitStep(s, repoName);
            && r.store == GetOrCreate(s.store, CollectionName(repoName))
            && r.collection.Some?
            && (r.index.Some? <==> Count(r.store, r.collection.value) > 0)
            && (r.index.Some? ==> r.index.value.collection == r.collection.value && r.queryEngine.None?)
            && (r.index.None? ==> r.queryEngine == s.queryEngine)
  {
  }

  /**
   * The legacy collection is used exactly when the repository's own
   * collection is empty and the legacy one holds chunks; otherwise the
   * repository's own collection is.
   */
  lemma LegacyFallback(s: Session, repoName: string)
    requires !AlreadyLoaded(s, repoName)
    ensures var r := InitStep(s, repoName);
            && (r.collection == Some(LEGACY_COLLECTION) <==>
                Count(s.store, CollectionName(repoName)) == 0 && Count(s.store, LEGACY_COLLECTION) > 0)
            && (r.collection != Some(LEGACY_COLLECTION) ==> r.collection == Some(CollectionName(repoName)))
  {
    CollectionNameNotLegacy(repoName);
    var own := CollectionName(repoName);
    var store := GetOrCreate(s.store, own);
    assert Count(store, LEGACY_COLLECTION) == Count(s.store, LEGACY_COLLECTION);
  }

  /** Selecting the same repository twice is selecting it once. */
  lemma {:induction false} InitIdempotent(s: Session, repoName: string)
    ensures InitStep(InitStep(s, repoName), repoName) == InitStep(s, repoName)
  {
    var r := InitStep(s, repoName);
    if !AlreadyLoaded(s, repoName) && r.index.None? {
      var own := CollectionName(repoName);
      var store := GetOrCreate(s.store, own);
      assert GetOrCreate(store, own) == store;
      assert ChooseCollection(store, own) == r.collection.value;
    }
  }

  /** `get_indexed_count()`: the chunks in the current collection, 0 when there is none. */
  function IndexedCount(s: Session): nat {
    if s.collection.Some? then Count(s.store, s.collection.value) else 0
  }

  /** After a switch, an index is loaded exactly when the indexed count is positive. */
  lemma IndexedCountAfterInit(s: Session, repoName: string)
    requires !AlreadyLoaded(s, repoName)
    ensures InitStep(s, repoName).index.Some? <==> IndexedCount(InitStep(s, repoName)) > 0
  {
    InitLoads(s, repoName);
  }

  /** `get_active_repo()`: the active repository, or "None" when there is none or it is empty. */
  function ActiveRepoLabel(s: Session): string {
    if s.activeRepo.Some? && s.activeRepo.value != "" then s.activeRepo.value else "None"
  }

  /** After selecting a repository its name is reported, unless the name is empty and so falsy. */
  lemma ActiveRepoAfterInit(s: Session, repoName: string)
    ensures repoName != "" ==> ActiveRepoLabel(InitStep(s, repoName)) == repoName
    ensures repoName == "" ==> ActiveRepoLabel(InitStep(s, repoName)) == "None"
  {
  }

  /** Before any repository is selected, nothing is counted and the active repository reads "None". */
  lemma AccessorsBeforeSelection(store: Store)
    ensures IndexedCount(NewSession(store)) == 0 && ActiveRepoLabel(NewSession(store)) == "None"
  {
  }

  // ---------------------------------------------------------------------------
  // ingest_repo

  /**
   * What ingestion meets outside the engine: the names already present in the
   * repositories directory, whether `git clone` succeeds, the tree at the
   * repository path after cloning, the reader (the texts of the documents it
   * loads from each file) and the splitters.
   */
  datatype IngestEnv = IngestEnv(
    present: set<string>,
    gitSucceeds: bool,
    tree: Tree,
    read: Path -> seq<string>,
    sp: Splitters)

  datatype IngestError = GitFailed(clone: CloneError) | ChunkingFailed(chunk: ChunkError)

  /** The state after `ingest_repo`, and the exception it raised if any. */
  datatype IngestOutcome = IngestOutcome(state: Session, error: Option<IngestError>)

  /** The repository-map document: the map text, with its own metadata and no "extension". */
  function StructureDocument(t: Tree): (d: Document)
    ensures "extension" !in d.metadata
  {
    Document(RepoMap(t), map["file_path" := STRUCTURE_FILE, "type" := "structure"])
  }

  /** The documents the reader loads from one file, each with the extractor's metadata. */
  function FileDocuments(f: Path, read: Path -> seq<string>): seq<Document> {
    seq(|read(f)|, j requires 0 <= j < |read(f)| => ReadDocument(JoinPath(f), read(f)[j]))
  }

  /** `reader.load_data()` over `input_files`: each file's documents in turn. */
  function ReadDocuments(files: seq<Path>, read: Path -> seq<string>): seq<Document> {
    if files == [] then []
    else ReadDocuments(files[..|files| - 1], read) + FileDocuments(files[|files| - 1], read)
  }

  /** Every document read carries the metadata of one of the files it was read from. */
  lemma ReadDocumentsMetadata(files: seq<Path>, read: Path -> seq<string>, i: int)
    requires 0 <= i < |ReadDocuments(files, read)|
    ensures exists k :: 0 <= k < |files| && ReadDocuments(files, read)[i].metadata == FileMetadata(JoinPath(files[k]))
  {
    var k := ReadDocumentSource(files, read, i);
  }

  /** The file that document `i` was read from. */
  lemma {:induction false} ReadDocumentSource(files: seq<Path>, read: Path -> seq<string>, i: int) returns (k: int)
    requires 0 <= i < |ReadDocuments(files, read)|
    ensures 0 <= k < |files| && ReadDocuments(files, read)[i].metadata == FileMetadata(JoinPath(files[k]))
  {
    var init := files[..|files| - 1];
    var head := ReadDocuments(init, read);
    var tail := FileDocuments(files[|files| - 1], read);
    assert ReadDocuments(files, read) == head + tail;
    if i < |head| {
      k := ReadDocumentSource(init, read, i);
      assert ReadDocuments(files, read)[i] == head[i];
      assert init[k] == files[k];
    } else {
      k := |files| - 1;
      assert ReadDocuments(files, read)[i] == tail[i - |head|];
    }
  }

  lemma ReadDocumentsNamed(files: seq<Path>, read: Path -> seq<string>)
    ensures forall i :: 0 <= i < |ReadDocuments(files, read)| ==> "file_name" in ReadDocuments(files, read)[i].metadata
  {
    forall i | 0 <= i < |ReadDocuments(files, read)|
      ensures "file_name" in ReadDocuments(files, read)[i].metadata
    {
      ReadDocumentsMetadata(files, read, i);
    }
  }

  /** `[map_doc] + docs`. */
  function IngestDocuments(files: seq<Path>, env: IngestEnv): seq<Document> {
    [StructureDocument(env.tree)] + ReadDocuments(files, env.read)
  }

  /**
   * `ingest_repo` once the repository is cloned and selected (state `s1`),
   * with `files` the result of the walk: stop when the collection already
   * holds chunks or there is nothing to read, else chunk the repository map
   * and the documents and index them into the collection. `resetEngine` says
   * whether the query engine is dropped once the new index is built.
   */
  function IngestInto(s1: Session, files: seq<Path>, env: IngestEnv, resetEngine: bool): (o: IngestOutcome)
    requires Valid(s1) && s1.collection.Some?
    ensures Valid(o.state)
  {
    if Count(s1.store, s1.collection.value) > 0 then IngestOutcome(s1, None)
    else if files == [] then IngestOutcome(s1, None)
    else IndexNodes(s1, AdaptiveNodes(env.sp, IngestDocuments(files, env)), resetEngine)
  }

  /**
   * The last step of ingestion: a chunking failure raises; otherwise the
   * chunks are added to the current collection and an index over it is loaded.
   */
  function IndexNodes(s1: Session, nodes: Result<seq<Node>, ChunkError>, resetEngine: bool): (o: IngestOutcome)
    requires Valid(s1) && s1.collection.Some?
    ensures Valid(o.state)
  {
    match nodes
    case Failure(e) => IngestOutcome(s1, Some(ChunkingFailed(e)))
    case Success(ns) =>
      var c := s1.collection.value;
      var s2 := s1.(store := s1.store[c := Count(s1.store, c) + |ns|], index := Some(Index(c)));
      IngestOutcome(if resetEngine then s2.(queryEngine := None) else s2, None)
  }

  /**
   * `ingest_repo(repo_url)`: clone (a failure raises and changes nothing),
   * select the repository by the cloned path's name, then `IngestInto`. The
   * source does not drop the query engine (`IngestStep`); `IngestStepFixed` does.
   */
  function IngestWith(s: Session, url: string, env: IngestEnv, resetEngine: bool): (o: IngestOutcome)
    requires Valid(s)
    ensures Valid(o.state)
  {
    match CloneRepo(url, env.present, env.gitSucceeds)
    case Failure(e) => IngestOutcome(s, Some(GitFailed(e)))
    case Success(cl) =>
      IngestInto(InitStep(s, PathName(cl.path)), SourceFiles(PathComponents(cl.path), env.tree), env, resetEngine)
  }

  /** `ingest_repo` as written. */
  function IngestStep(s: Session, url: string, env: IngestEnv): IngestOutcome
    requires Valid(s)
  {
    IngestWith(s, url, env, false)
  }

  /** `ingest_repo` with the query engine reset when a new index is built. */
  function IngestStepFixed(s: Session, url: string, env: IngestEnv): IngestOutcome
    requires Valid(s)
  {
    IngestWith(s, url, env, true)
  }

  /** The name of the repository a URL is cloned as. */
  function IngestName(url: string): string {
    PathName(LocalPath(RepoName(url)))
  }

  predicate CloneSucceeds(url: string, env: IngestEnv) {
    CloneRepo(url, env.present, env.gitSucceeds).Success?
  }

  /** The components of the path a URL is cloned to. */
  function CloneDir(url: string): Path {
    PathComponents(LocalPath(RepoName(url)))
  }

  /** A failed clone raises and leaves the engine as it was. */
  lemma IngestCloneFails(s: Session, url: string, env: IngestEnv, resetEngine: bool)
    requires Valid(s) && !CloneSucceeds(url, env)
    ensures IngestWith(s, url, env, resetEngine) == IngestOutcome(s, Some(GitFailed(CloneFailed(url))))
  {
  }

  /** A successful clone selects the repository by its name and walks its directory. */
  lemma IngestCloned(s: Session, url: string, env: IngestEnv, resetEngine: bool)
    requires Valid(s) && CloneSucceeds(url, env)
    ensures IngestWith(s, url, env, resetEngine) ==
            IngestInto(InitStep(s, IngestName(url)), SourceFiles(CloneDir(url), env.tree), env, resetEngine)
  {
  }

  /**
   * After a clone, the repository is selected; when its collection already
   * holds chunks, or the walk finds no source file, nothing else happens.
   */
  lemma IngestGuards(s: Session, url: string, env: IngestEnv, resetEngine: bool)
    requires Valid(s) && CloneSucceeds(url, env)
    ensures var s1 := InitStep(s, IngestName(url));
            var o := IngestWith(s, url, env, resetEngine);
            && (IndexedCount(s1) > 0 ==> o == IngestOutcome(s1, None))
            && (SourceFiles(CloneDir(url), env.tree) == [] ==> o == IngestOutcome(s1, None))
  {
    IngestCloned(s, url, env, resetEngine);
  }

  /**
   * Ingestion never fails in chunking: every document read has a "file_name",
   * and the repository map has no "extension" and goes to the generic
   * splitter, ahead of the chunks of the files.
   */
  lemma IngestChunkingSucceeds(files: seq<Path>, env: IngestEnv)
    ensures AdaptiveNodes(env.sp, ReadDocuments(files, env.read)).Success?
    ensures AdaptiveNodes(env.sp, IngestDocuments(files, env)).Success?
    ensures AdaptiveNodes(env.sp, IngestDocuments(files, env)).value ==
            env.sp.generic(SENTENCE_CONFIG, StructureDocument(env.tree)) +
            AdaptiveNodes(env.sp, ReadDocuments(files, env.read)).value
  {
    ReadDocumentsNamed(files, env.read);
    StructureDocumentFirst(env.sp, StructureDocument(env.tree), ReadDocuments(files, env.read));
  }

  /**
   * So, with the library calls modelled as never raising, the only exception
   * ingestion raises in this model is a failed clone.
   */
  lemma IngestErrorIsClone(s: Session, url: string, env: IngestEnv, resetEngine: bool)
    requires Valid(s)
    ensures IngestWith(s, url, env, resetEngine).error.Some? ==> !CloneSucceeds(url, env)
  {
    if CloneSucceeds(url, env) {
      IngestCloned(s, url, env, resetEngine);
      IngestChunkingSucceeds(SourceFiles(CloneDir(url), env.tree), env);
    }
  }

  /**
   * Past both guards, the chunks of the repository map and of every document
   * go into the selected collection, which was empty, and an index over it is
   * loaded; the query engine is dropped only with the reset.
   */
  lemma IngestIntoIndexes(s1: Session, files: seq<Path>, env: IngestEnv, resetEngine: bool)
    requires Valid(s1) && s1.collection.Some? && IndexedCount(s1) == 0 && files != []
    ensures var c := s1.collection.value;
            var o := IngestInto(s1, files, env, resetEngine);
            && o.error.None?
            && o.state.activeRepo == s1.activeRepo && o.state.collection == s1.collection
            && o.state.store == s1.store[c := |AdaptiveNodes(env.sp, IngestDocuments(files, env)).value|]
            && o.state.index == Some(Index(c))
            && o.state.queryEngine == (if resetEngine then None else s1.queryEngine)
  {
    IngestChunkingSucceeds(files, env);
    var c := s1.collection.value;
    var n := |AdaptiveNodes(env.sp, IngestDocuments(files, env)).value|;
    var s2 := s1.(store := s1.store[c := Count(s1.store, c) + n], index := Some(Index(c)));
    assert IngestInto(s1, files, env, resetEngine) ==
           IngestOutcome(if resetEngine then s2.(queryEngine := None) else s2, None);
    assert Count(s1.store, c) + n == n;
  }

  lemma IngestIndexes(s: Session, url: string, env: IngestEnv, resetEngine: bool)
    requires Valid(s) && CloneSucceeds(url, env)
    requires IndexedCount(InitStep(s, IngestName(url))) == 0
    requires SourceFiles(CloneDir(url), env.tree) != []
    ensures var s1 := InitStep(s, IngestName(url));
            var files := SourceFiles(CloneDir(url), env.tree);
            var o := IngestWith(s, url, env, resetEngine);
            && o.error.None?
            && o.state.activeRepo == s1.activeRepo && o.state.collection == s1.collection
            && o.state.store == s1.store[s1.collection.value := |AdaptiveNodes(env.sp, IngestDocuments(files, env)).value|]
            && o.state.index == Some(Index(s1.collection.value))
            && o.state.queryEngine == (if resetEngine then None else s1.queryEngine)
  {
    IngestCloned(s, url, env, resetEngine);
    IngestIntoIndexes(InitStep(s, IngestName(url)), SourceFiles(CloneDir(url), env.tree), env, resetEngine);
  }

  /** After `IngestInto` the repository stays selected, and an index is loaded when its collection holds chunks. */
  lemma IngestIntoLoaded(s1: Session, files: seq<Path>, env: IngestEnv, resetEngine: bool, name: string)
    requires Valid(s1) && s1.collection.Some? && s1.activeRepo == Some(name)
    requires IndexedCount(s1) > 0 ==> s1.index.Some?
    requires IndexedCount(IngestInto(s1, files, env, resetEngine).state) > 0
    ensures AlreadyLoaded(IngestInto(s1, files, env, resetEngine).state, name)
  {
  }

  /**
   * Once an ingestion has left chunks in the selected collection, ingesting
   * the same URL again changes nothing.
   */
  lemma SecondIngestNoOp(s: Session, url: string, env: IngestEnv, env2: IngestEnv, resetEngine: bool)
    requires Valid(s) && CloneSucceeds(url, env) && CloneSucceeds(url, env2)
    requires IndexedCount(IngestWith(s, url, env, resetEngine).state) > 0
    ensures var o := IngestWith(s, url, env, resetEngine);
            IngestWith(o.state, url, env2, resetEngine) == IngestOutcome(o.state, None)
  {
    var name := IngestName(url);
    var s1 := InitStep(s, name);
    var files := SourceFiles(CloneDir(url), env.tree);
    IngestCloned(s, url, env, resetEngine);
    if !AlreadyLoaded(s, name) {
      InitLoads(s, name);
    }
    IngestIntoLoaded(s1, files, env, resetEngine, name);
    var o := IngestInto(s1, files, env, resetEngine);
    IngestCloned(o.state, url, env2, resetEngine);
    InitEarlyReturn(o.state, name);
  }

  /**
   * While the legacy collection holds chunks, ingesting a repository whose
   * own collection is empty indexes nothing: the legacy collection is
   * selected and counts as already indexed.
   */
  lemma LegacyBlocksIngest(s: Session, url: string, env: IngestEnv, resetEngine: bool)
    requires Valid(s) && CloneSucceeds(url, env) && !AlreadyLoaded(s, IngestName(url))
    requires Count(s.store, CollectionName(IngestName(url))) == 0 && Count(s.store, LEGACY_COLLECTION) > 0
    ensures var o := IngestWith(s, url, env, resetEngine);
            o == IngestOutcome(InitStep(s, IngestName(url)), None) && o.state.collection == Some(LEGACY_COLLECTION)
  {
    LegacyFallback(s, IngestName(url));
    var s1 := InitStep(s, IngestName(url));
    assert Count(s1.store, LEGACY_COLLECTION) == Count(s.store, LEGACY_COLLECTION);
    IngestGuards(s, url, env, resetEngine);
  }

  // ---------------------------------------------------------------------------
  // query and _build_query_engine

  datatype QueryError = NoActiveIndex

  /** The question, and the query engine that answers it. */
  datatype Answer = Answer(question: string, engine: QueryEngine)

  datatype QueryOutcome = QueryOutcome(state: Session, result: Result<Answer, QueryError>)

  /** `_build_query_engine()`: a top-10 retriever over the index (the 0.1 cutoff is not modelled). */
  function BuildQueryEngine(index: Index): QueryEngine {
    QueryEngine(index, SIMILARITY_TOP_K)
  }

  /** `query(question)`. */
  function QueryStep(s: Session, question: string): (o: QueryOutcome)
    ensures Valid(s) ==> Valid(o.state)
  {
    if s.index.None? then QueryOutcome(s, Failure(NoActiveIndex))
    else
      var s1 := if s.queryEngine.None? then s.(queryEngine := Some(BuildQueryEngine(s.index.value))) else s;
      QueryOutcome(s1, Success(Answer(question, s1.queryEngine.value)))
  }

  /**
   * Without an index a query raises and changes nothing; with one it is
   * answered, by the existing query engine if there is one and otherwise by a
   * new one over the index, which is kept. Nothing but the query engine changes.
   */
  lemma QueryCases(s: Session, question: string)
    ensures var o := QueryStep(s, question);
            && (s.index.None? ==> o == QueryOutcome(s, Failure(NoActiveIndex)))
            && (s.index.Some? ==>
                  && o.result.Success? && o.result.value.question == question
                  && o.state == s.(queryEngine := Some(o.result.value.engine))
                  && (s.queryEngine.Some? ==> o.result.value.engine == s.queryEngine.value)
                  && (s.queryEngine.None? ==> o.result.value.engine == QueryEngine(s.index.value, SIMILARITY_TOP_K)))
  {
  }

  /** The query engine is built once: a second query uses the same engine and changes nothing more. */
  lemma QueryBuildsOnce(s: Session, q1: string, q2: string)
    requires s.index.Some?
    ensures var o1 := QueryStep(s, q1);
            var o2 := QueryStep(o1.state, q2);
            o2.state == o1.state && o2.result.value.engine == o1.result.value.engine
  {
  }

  // ---------------------------------------------------------------------------
  // The stale query engine

  /** The query engine, when there is one and an index too, reads the current index. */
  predicate EngineCurrent(s: Session) {
    s.queryEngine.Some? && s.index.Some? ==> s.queryEngine.value.index == s.index.value
  }

  /** The clone of "https://github.com/u/b" is "b", into an empty repositories directory. */
  lemma ExampleClone(env: IngestEnv)
    requires env.present == {} && env.gitSucceeds
    ensures CloneSucceeds("https://github.com/u" + "/" + "b", env)
    ensures IngestName("https://github.com/u" + "/" + "b") == "b"
    ensures CloneRepo("https://github.com/u" + "/" + "b", env.present, env.gitSucceeds).value.path == RepoDir("b")
  {
    RepoNameOfUrl("https://github.com/u", "b");
  }

  /** A repository holding one Python file has a source file. */
  lemma ExampleSourceFiles(root: Path)
    ensures SourceFiles(root, Tree(["main.py"], [])) != []
  {
    var f := "main.py";
    assert RFind(f, '/') == -1 by {
      assert f[..6] == "main.p" && f[..5] == "main." && f[..4] == "main";
      assert f[..3] == "mai" && f[..2] == "ma" && f[..1] == "m";
    }
    assert RFind(f, '.') == 4 by {
      assert f[..6] == "main.p" && f[..5] == "main.";
    }
    assert !AllDots(f, 0, 4) by { assert f[0] == 'm'; }
    assert SplitExt(f) == ".py";
    assert Lower(".py") == ".py" by {
      assert ".py"[1..] == "py" && "py"[1..] == "y";
      assert Lower("y") == "y";
      assert Lower("py") == "py";
    }
    assert IsSourceFile(f);
    assert ["main.py"][..0] == [];
    assert SourceFilesOf(root, ["main.py"]) == [root + [f]];
  }

  /** The session after selecting "a", whose collection holds three chunks, and asking a question. */
  function StaleExampleStart(question: string): Session {
    QueryStep(InitStep(NewSession(map["repo_a" := 3]), "a"), question).state
  }

  lemma StaleExampleStartState(question: string)
    ensures StaleExampleStart(question) ==
            Session(Some("a"), Some("repo_a"), Some(Index("repo_a")), Some(QueryEngine(Index("repo_a"), SIMILARITY_TOP_K)),
                    map["repo_a" := 3])
  {
    CollectionNamePlain("a");
    assert "repo_" + "a" == "repo_a";
  }

  /** Selecting "b" next: its new collection is empty, so the index goes and the engine stays. */
  lemma StaleExampleSelect(question: string)
    ensures var s1 := InitStep(StaleExampleStart(question), "b");
            && s1.collection == Some("repo_b") && IndexedCount(s1) == 0
            && s1.queryEngine == Some(QueryEngine(Index("repo_a"), SIMILARITY_TOP_K))
  {
    var s := StaleExampleStart(question);
    StaleExampleStartState(question);
    assert CollectionName("b") == "repo_b" by {
      CollectionNamePlain("b");
      assert "repo_" + "b" == "repo_b";
    }
    var store := GetOrCreate(s.store, "repo_b");
    assert store == map["repo_a" := 3, "repo_b" := 0];
    assert ChooseCollection(store, "repo_b") == "repo_b" by {
      assert LEGACY_COLLECTION != "repo_a" && LEGACY_COLLECTION != "repo_b";
    }
  }

  /**
   * As written, `ingest_repo` leaves the old query engine in place: after a
   * query over repository "a", ingesting a new repository "b" loads an index
   * over "repo_b", yet the next query is answered by the engine over "repo_a".
   */
  lemma StaleEngineAfterIngest(read: Path -> seq<string>, sp: Splitters, q1: string, q2: string)
    ensures var env := IngestEnv({}, true, Tree(["main.py"], []), read, sp);
            var o := IngestStep(StaleExampleStart(q1), "https://github.com/u" + "/" + "b", env);
            && o.error.None?
            && o.state.index == Some(Index("repo_b"))
            && QueryStep(o.state, q2).result.value.engine.index == Index("repo_a")
  {
    var env := IngestEnv({}, true, Tree(["main.py"], []), read, sp);
    var url := "https://github.com/u" + "/" + "b";
    ExampleClone(env);
    StaleExampleSelect(q1);
    ExampleSourceFiles(CloneDir(url));
    IngestIndexes(StaleExampleStart(q1), url, env, false);
  }

  /** A query engine that reads the current index still does after a switch. */
  lemma InitKeepsEngineCurrent(s: Session, repoName: string)
    requires EngineCurrent(s)
    ensures EngineCurrent(InitStep(s, repoName))
  {
  }

  /** With the reset, ingestion keeps the query engine on the current index. */
  lemma IngestFixedKeepsEngineCurrent(s: Session, url: string, env: IngestEnv)
    requires Valid(s) && EngineCurrent(s)
    ensures EngineCurrent(IngestStepFixed(s, url, env).state)
  {
    if CloneSucceeds(url, env) {
      IngestCloned(s, url, env, true);
      InitKeepsEngineCurrent(s, IngestName(url));
      IngestIntoKeepsEngineCurrent(InitStep(s, IngestName(url)), SourceFiles(CloneDir(url), env.tree), env);
    }
  }

  /** So does its indexing half, which drops the engine when it loads the new index. */
  lemma IngestIntoKeepsEngineCurrent(s1: Session, files: seq<Path>, env: IngestEnv)
    requires Valid(s1) && s1.collection.Some? && EngineCurrent(s1)
    ensures EngineCurrent(IngestInto(s1, files, env, true).state)
  {
    if IndexedCount(s1) == 0 && files != [] {
      IngestIntoIndexes(s1, files, env, true);
    } else {
      assert IngestInto(s1, files, env, true).state == s1;
    }
  }

  /** A query engine that reads the current index still does after a query. */
  lemma QueryKeepsEngineCurrent(s: Session, question: string)
    requires EngineCurrent(s)
    ensures EngineCurrent(QueryStep(s, question).state)
  {
  }

  /** So every answer comes from the index that is loaded when the question is asked. */
  lemma QueryAnswersFromCurrentIndex(s: Session, question: string)
    requires EngineCurrent(s) && s.index.Some?
    ensures QueryStep(s, question).result.value.engine.index == s.index.value
  {
  }

  // ---------------------------------------------------------------------------
  // The engine object

  class GitHubRAG {
    var activeRepo: Option<string>
    var collection: Option<string>
    var index: Option<Index>
    var queryEngine: Option<QueryEngine>
    var store: Store

    /** The fields as a value. */
    function Snapshot(): Session
      reads this
    {
      Session(activeRepo, collection, index, queryEngine, store)
    }

    /** The engine's invariant: a loaded index reads the current collection of an active repository. */
    predicate Ready()
      reads this
    {
      Valid(Snapshot())
    }

    /** `__init__`, connected to a vector store holding `store`. */
    constructor(store: Store)
      ensures Snapshot() == NewSession(store) && Ready() && EngineCurrent(Snapshot())
    {
      activeRepo := None;
      collection := None;
      index := None;
      queryEngine := None;
      this.store := store;
    }

    /** `initialize_repo(repo_name)`. */
    method InitializeRepo(repoName: string)
      modifies this
      ensures Snapshot() == InitStep(old(Snapshot()), repoName)
      ensures old(Ready()) ==> Ready()
      ensures EngineCurrent(old(Snapshot())) ==> EngineCurrent(Snapshot())
    {
      if activeRepo == Some(repoName) && index.Some? {
        return;
      }
      activeRepo := Some(repoName);
      var safeName := ReplaceChar(ReplaceChar("repo_" + repoName, ' ', '_'), '.', '_');
      store := GetOrCreate(store, safeName);
      collection := Some(safeName);
      if Count(store, safeName) == 0 {
        if LEGACY_COLLECTION in store && store[LEGACY_COLLECTION] > 0 {
          collection := Some(LEGACY_COLLECTION);
        }
      }
      if Count(store, collection.value) > 0 {
        index := Some(Index(collection.value));
        queryEngine := None;
      } else {
        index := None;
      }
    }

    /**
     * `ingest_repo(repo_url)`. With `resetEngine` false this is the method as
     * written (`IngestStep`), which keeps the query engine when it builds the
     * new index; with `resetEngine` true it is the corrected step
     * (`IngestStepFixed`), which drops it and so keeps the engine current.
     */
    method IngestRepo(url: string, env: IngestEnv, resetEngine: bool) returns (error: Option<IngestError>)
      requires Ready()
      modifies this
      ensures IngestOutcome(Snapshot(), error) == IngestWith(old(Snapshot()), url, env, resetEngine)
      ensures Ready()
      ensures resetEngine && EngineCurrent(old(Snapshot())) ==> EngineCurrent(Snapshot())
    {
      ghost var s := Snapshot();
      var cloned := CloneRepo(url, env.present, env.gitSucceeds);
      if cloned.Failure? {
        IngestCloneFails(s, url, env, resetEngine);
        return Some(GitFailed(cloned.error));
      }
      var repoPath := cloned.value.path;
      InitializeRepo(PathName(repoPath));
      IngestCloned(s, url, env, resetEngine);
      error := IngestSelected(repoPath, env, resetEngine);
    }

    /**
     * `ingest_repo` from step 3 on, once the repository at `repoPath` is
     * selected: the already-indexed check, the walk, the map, reading,
     * chunking and indexing.
     */
    method IngestSelected(repoPath: RepoPath, env: IngestEnv, resetEngine: bool) returns (error: Option<IngestError>)
      requires Ready() && collection.Some?
      modifies this
      ensures IngestOutcome(Snapshot(), error) ==
              IngestInto(old(Snapshot()), SourceFiles(PathComponents(repoPath), env.tree), env, resetEngine)
      ensures Ready()
      ensures resetEngine && EngineCurrent(old(Snapshot())) ==> EngineCurrent(Snapshot())
    {
      ghost var s1 := Snapshot();
      ghost var files := SourceFiles(PathComponents(repoPath), env.tree);
      if Count(store, collection.value) > 0 {
        return None;
      }
      var sourceFiles := GetSourceFiles(PathComponents(repoPath), env.tree);
      if sourceFiles == [] {
        return None;
      }
      var repoMap := GenerateRepoMap(env.tree);
      var mapDoc := Document(repoMap, map["file_path" := STRUCTURE_FILE, "type" := "structure"]);
      var docs := ReadDocuments(sourceFiles, env.read);
      assert [mapDoc] + docs == IngestDocuments(files, env);
      var nodes := GetNodesAdaptive(env.sp, [mapDoc] + docs);
      if nodes.Failure? {
        return Some(ChunkingFailed(nodes.error));
      }
      assert IngestInto(s1, files, env, resetEngine) == IndexNodes(s1, nodes, resetEngine);
      AddToIndex(nodes, resetEngine);
      return None;
    }

    /**
     * Step 8 of `ingest_repo`: the chunks go into the current collection, and
     * a new index over it is loaded. The query engine is kept as written, and
     * dropped by the corrected step.
     */
    method AddToIndex(nodes: Result<seq<Node>, ChunkError>, resetEngine: bool)
      requires Ready() && collection.Some? && nodes.Success?
      modifies this
      ensures Snapshot() == IndexNodes(old(Snapshot()), nodes, resetEngine).state
      ensures Ready()
      ensures resetEngine ==> EngineCurrent(Snapshot())
    {
      var c := collection.value;
      store := store[c := Count(store, c) + |nodes.value|];
      index := Some(Index(c));
      if resetEngine {
        queryEngine := None;
      }
    }

    /** `_build_query_engine()`. */
    method BuildEngine()
      requires index.Some?
      modifies this
      ensures Snapshot() == old(Snapshot()).(queryEngine := Some(BuildQueryEngine(old(index).value)))
    {
      queryEngine := Some(QueryEngine(index.value, SIMILARITY_TOP_K));
    }

    /** `query(question)`. */
    method Query(question: string) returns (result: Result<Answer, QueryError>)
      requires Ready()
      modifies this
      ensures QueryOutcome(Snapshot(), result) == QueryStep(old(Snapshot()), question)
      ensures Ready()
      ensures EngineCurrent(old(Snapshot())) ==>
                EngineCurrent(Snapshot()) && (result.Success? ==> result.value.engine.index == old(index).value)
    {
      if index.None? {
        return Failure(NoActiveIndex);
      }
      if queryEngine.None? {
        BuildEngine();
      }
      return Success(Answer(question, queryEngine.value));
    }

    /** `get_indexed_count()`. */
    function GetIndexedCount(): nat
      reads this
    {
      IndexedCount(Snapshot())
    }

    /** `get_active_repo()`. */
    function GetActiveRepo(): string
      reads this
    {
      ActiveRepoLabel(Snapshot())
    }
  }
}
