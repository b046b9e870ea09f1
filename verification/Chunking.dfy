/**
 * Adaptive chunking: the metadata a file's document carries, the choice of a
 * splitter per document from its lowercased extension, the fallback from the
 * code splitter to the generic one, and the concatenation of all chunks in
 * document order.
 *
 * The three splitters are opaque library code (tree-sitter and tiktoken
 * inside). They are parameters here: functions from a configuration and a
 * document to chunks, the code splitter returning `None` where it raises.
 */
module Chunking {
  import opened Wrappers
  import opened PyStr

  /** Extensions (lowercase, with the dot) that have a tree-sitter grammar, and its language name. */
  const EXTENSION_TO_LANGUAGE: map<string, string> := map[
    ".py" := "python",
    ".js" := "javascript",
    ".jsx" := "javascript",
    ".ts" := "typescript",
    ".tsx" := "typescript",
    ".java" := "java",
    ".cpp" := "cpp",
    ".cc" := "cpp",
    ".h" := "cpp",
    ".c" := "c",
    ".cs" := "c_sharp",
    ".go" := "go",
    ".rs" := "rust",
    ".rb" := "ruby",
    ".php" := "php",
    ".scala" := "scala",
    ".swift" := "swift",
    ".kt" := "kotlin"
  ]

  /** A document's metadata; every value the core stores in it is a string. */
  type Metadata = map<string, string>

  datatype Document = Document(text: string, metadata: Metadata)

  /** A chunk, as the splitters produce it. */
  datatype Node = Node(text: string, metadata: Metadata)

  /** Sizes a text splitter is built with (in tokens for the generic splitter). */
  datatype TextConfig = TextConfig(chunkSize: nat, chunkOverlap: nat)

  /** How the code splitter is built for one document. */
  datatype CodeConfig = CodeConfig(language: string, chunkLines: nat, chunkLinesOverlap: nat, maxChars: nat)

  const SENTENCE_CONFIG: TextConfig := TextConfig(1000, 200)
  const MARKDOWN_CONFIG: TextConfig := TextConfig(800, 100)

  function CodeConfigFor(language: string): CodeConfig {
    CodeConfig(language, 150, 30, 3000)
  }

  /**
   * The splitters as they behave on this run: `markdown` is
   * `MarkdownNodeParser`, `generic` is `SentenceSplitter`, and `code` is
   * building a `CodeSplitter` and splitting with it, `None` when either raises.
   */
  datatype Splitters = Splitters(
    markdown: (TextConfig, Document) -> seq<Node>,
    code: (CodeConfig, Document) -> Option<seq<Node>>,
    generic: (TextConfig, Document) -> seq<Node>)

  // ---------------------------------------------------------------------------
  // file_metadata_extractor

  /** `file_metadata_extractor(file_path)`. */
  function FileMetadata(filePath: string): (m: Metadata)
    ensures m.Keys == {"file_path", "file_name", "extension"}
  {
    map["file_path" := filePath, "file_name" := Basename(filePath), "extension" := SplitExt(filePath)]
  }

  /**
   * The path is kept as given, the name is its last component, and the
   * extension is empty or a suffix of the name that starts with '.' and holds
   * no other '.'; it is non-empty exactly when the name holds a '.' after some
   * other character (so ".env" and "..x" have none).
   */
  lemma FileMetadataShape(filePath: string)
    ensures var m := FileMetadata(filePath);
            && m["file_path"] == filePath
            && m["file_name"] == Basename(filePath) && '/' !in m["file_name"]
            && (m["extension"] == "" ||
                (EndsWith(m["file_name"], m["extension"]) && m["extension"][0] == '.' && '.' !in m["extension"][1..]))
            && (m["extension"] != "" <==>
                exists i, j :: 0 <= i < j < |m["file_name"]| && m["file_name"][i] != '.' && m["file_name"][j] == '.')
  {
    var m := FileMetadata(filePath);
    assert m["file_path"] == filePath && m["file_name"] == Basename(filePath) && m["extension"] == SplitExt(filePath);
    SplitExtShape(filePath);
    SplitExtNonEmptyIff(filePath);
  }

  /** The extractor keeps the extension's case: "src/A.PY" gets ".PY". */
  lemma FileMetadataKeepsCase()
    ensures FileMetadata("src/A.PY")["extension"] == ".PY"
  {
    var p := "src/A.PY";
    assert p[..7] == "src/A.P" && "src/A.P"[..6] == "src/A." && "src/A."[..5] == "src/A" && "src/A"[..4] == "src/";
    assert RFind(p, '.') == 5;
    assert RFind(p, '/') == 3;
    assert !AllDots(p, 4, 5) by { assert p[4] == 'A'; }
  }

  // ---------------------------------------------------------------------------
  // Dispatch

  datatype Strategy = Markdown | Code(language: string) | Generic

  /** `doc.metadata.get("extension", "").lower()`. */
  function RoutingKey(doc: Document): string {
    Lower(if "extension" in doc.metadata then doc.metadata["extension"] else "")
  }

  /** Which splitter a document goes to. */
  function Route(doc: Document): Strategy {
    var ext := RoutingKey(doc);
    if ext == ".md" then Markdown
    else if ext in EXTENSION_TO_LANGUAGE then Code(EXTENSION_TO_LANGUAGE[ext])
    else Generic
  }

  /**
   * ".md" goes to markdown, a key of the language table to code with exactly
   * its language, anything else (a missing "extension" too) to generic.
   */
  lemma RouteCases(doc: Document)
    ensures Route(doc) == Markdown <==> RoutingKey(doc) == ".md"
    ensures Route(doc).Code? <==> RoutingKey(doc) in EXTENSION_TO_LANGUAGE
    ensures Route(doc).Code? ==> Route(doc).language == EXTENSION_TO_LANGUAGE[RoutingKey(doc)]
    ensures Route(doc) == Generic <==> RoutingKey(doc) != ".md" && RoutingKey(doc) !in EXTENSION_TO_LANGUAGE
    ensures "extension" !in doc.metadata ==> Route(doc) == Generic
  {
    assert ".md" !in EXTENSION_TO_LANGUAGE;
    if "extension" !in doc.metadata {
      assert RoutingKey(doc) == "";
    }
  }

  /** Dispatch depends on the extension only up to letter case. */
  lemma RouteCaseInsensitive(a: Document, b: Document)
    requires "extension" in a.metadata && "extension" in b.metadata
    requires Lower(a.metadata["extension"]) == Lower(b.metadata["extension"])
    ensures Route(a) == Route(b)
  {
  }

  /** A file "A.PY" is split as Python although its metadata keeps ".PY". */
  lemma UpperCaseExtensionRoutesToCode(text: string)
    ensures Route(Document(text, FileMetadata("src/A.PY"))) == Code("python")
  {
    var d := Document(text, FileMetadata("src/A.PY"));
    assert RoutingKey(d) == ".py" by {
      FileMetadataKeepsCase();
      LowerPy();
    }
    assert ".py" != ".md";
    PythonExtension();
  }

  lemma PythonExtension()
    ensures ".py" in EXTENSION_TO_LANGUAGE && EXTENSION_TO_LANGUAGE[".py"] == "python"
  {
    var py := ".py";
    assert |py| == 3 && py[1] == 'p' && py[2] == 'y';
  }

  lemma LowerPy()
    ensures Lower(".PY") == ".py"
  {
    assert ".PY"[1..] == "PY" && "PY"[1..] == "Y" && "Y"[1..] == "";
    assert Lower("Y") == "y";
    assert Lower("PY") == "py";
  }

  // ---------------------------------------------------------------------------
  // get_nodes_adaptive

  /** The exception that escapes: the fallback's warning reads `doc.metadata['file_name']`. */
  datatype ChunkError = KeyError(key: string)

  /** The chunks of one document. */
  function DocNodes(sp: Splitters, doc: Document): Result<seq<Node>, ChunkError> {
    match Route(doc)
    case Markdown => Success(sp.markdown(MARKDOWN_CONFIG, doc))
    case Code(language) =>
      (match sp.code(CodeConfigFor(language), doc)
       case Some(nodes) => Success(nodes)
       case None =>
         if "file_name" in doc.metadata then Success(sp.generic(SENTENCE_CONFIG, doc))
         else Failure(KeyError("file_name")))
    case Generic => Success(sp.generic(SENTENCE_CONFIG, doc))
  }

  /**
   * Each document gets the output of exactly one splitter; a code splitter
   * that raises contributes nothing of its own and the document gets exactly
   * the generic output; the only failure is the missing "file_name" of a
   * document whose code splitter raised.
   */
  lemma DocNodesOneStrategy(sp: Splitters, doc: Document)
    ensures Route(doc) == Markdown ==> DocNodes(sp, doc) == Success(sp.markdown(MARKDOWN_CONFIG, doc))
    ensures Route(doc) == Generic ==> DocNodes(sp, doc) == Success(sp.generic(SENTENCE_CONFIG, doc))
    ensures Route(doc).Code? && sp.code(CodeConfigFor(Route(doc).language), doc).Some? ==>
              DocNodes(sp, doc) == Success(sp.code(CodeConfigFor(Route(doc).language), doc).value)
    ensures Route(doc).Code? && sp.code(CodeConfigFor(Route(doc).language), doc).None? ==>
              DocNodes(sp, doc) ==
                (if "file_name" in doc.metadata then Success(sp.generic(SENTENCE_CONFIG, doc))
                 else Failure(KeyError("file_name")))
    ensures DocNodes(sp, doc).Failure? <==>
              Route(doc).Code? && sp.code(CodeConfigFor(Route(doc).language), doc).None? && "file_name" !in doc.metadata
  {
  }

  /** Joining two outcomes in order: the first failure wins. */
  function Concat(a: Result<seq<Node>, ChunkError>, b: Result<seq<Node>, ChunkError>): Result<seq<Node>, ChunkError> {
    match a
    case Failure(e) => Failure(e)
    case Success(x) =>
      match b
      case Failure(e) => Failure(e)
      case Success(y) => Success(x + y)
  }

  /** `get_nodes_adaptive(documents)`: each document's chunks in turn, stopping at the first exception. */
  function AdaptiveNodes(sp: Splitters, docs: seq<Document>): Result<seq<Node>, ChunkError> {
    if docs == [] then Success([])
    else Concat(AdaptiveNodes(sp, docs[..|docs| - 1]), DocNodes(sp, docs[|docs| - 1]))
  }

  lemma AdaptiveNodesStep(sp: Splitters, docs: seq<Document>, i: int)
    requires 0 <= i < |docs|
    ensures AdaptiveNodes(sp, docs[..i + 1]) == Concat(AdaptiveNodes(sp, docs[..i]), DocNodes(sp, docs[i]))
  {
    assert docs[..i + 1][..i] == docs[..i];
  }

  /** `all_nodes` is extended in place, one document at a time. */
  method GetNodesAdaptive(sp: Splitters, documents: seq<Document>) returns (r: Result<seq<Node>, ChunkError>)
    ensures r == AdaptiveNodes(sp, documents)
  {
    var allNodes: seq<Node> := [];
    for i := 0 to |documents|
      invariant AdaptiveNodes(sp, documents[..i]) == Success(allNodes)
    {
      var doc := documents[i];
      AdaptiveNodesStep(sp, documents, i);
      var ext := Lower(if "extension" in doc.metadata then doc.metadata["extension"] else "");
      assert ext == RoutingKey(doc);
      if ext == ".md" {
        assert DocNodes(sp, doc) == Success(sp.markdown(MARKDOWN_CONFIG, doc)) by {
          RouteCases(doc);
        }
        allNodes := allNodes + sp.markdown(MARKDOWN_CONFIG, doc);
      } else if ext in EXTENSION_TO_LANGUAGE {
        var lang := EXTENSION_TO_LANGUAGE[ext];
        assert Route(doc) == Code(lang) by {
          RouteCases(doc);
        }
        var split := sp.code(CodeConfigFor(lang), doc);
        if split.Some? {
          allNodes := allNodes + split.value;
        } else {
          if "file_name" !in doc.metadata {
            assert AdaptiveNodes(sp, documents[..i + 1]) == Failure(KeyError("file_name"));
            AdaptiveNodesAppend(sp, documents[..i + 1], documents[i + 1..]);
            assert documents[..i + 1] + documents[i + 1..] == documents;
            return Failure(KeyError("file_name"));
          }
          allNodes := allNodes + sp.generic(SENTENCE_CONFIG, doc);
        }
      } else {
        assert DocNodes(sp, doc) == Success(sp.generic(SENTENCE_CONFIG, doc)) by {
          RouteCases(doc);
        }
        allNodes := allNodes + sp.generic(SENTENCE_CONFIG, doc);
      }
    }
    assert documents[..|documents|] == documents;
    return Success(allNodes);
  }

  lemma ConcatAssociative(x: Result<seq<Node>, ChunkError>, y: Result<seq<Node>, ChunkError>, z: Result<seq<Node>, ChunkError>)
    ensures Concat(Concat(x, y), z) == Concat(x, Concat(y, z))
  {
    if x.Success? && y.Success? && z.Success? {
      assert x.value + y.value + z.value == x.value + (y.value + z.value);
    }
  }

  /** The chunks of `a + b` are the chunks of `a` followed by the chunks of `b`. */
  lemma {:induction false} AdaptiveNodesAppend(sp: Splitters, a: seq<Document>, b: seq<Document>)
    ensures AdaptiveNodes(sp, a + b) == Concat(AdaptiveNodes(sp, a), AdaptiveNodes(sp, b))
    decreases |b|
  {
    if b == [] {
      assert a + b == a;
      var l := AdaptiveNodes(sp, a);
      if l.Success? {
        assert l.value + [] == l.value;
      }
    } else {
      var init, last := b[..|b| - 1], b[|b| - 1];
      AdaptiveNodesAppend(sp, a, init);
      assert (a + b)[..|a + b| - 1] == a + init;
      assert (a + b)[|a + b| - 1] == last;
      assert AdaptiveNodes(sp, a + b) == Concat(AdaptiveNodes(sp, a + init), DocNodes(sp, last));
      assert AdaptiveNodes(sp, b) == Concat(AdaptiveNodes(sp, init), DocNodes(sp, last));
      ConcatAssociative(AdaptiveNodes(sp, a), AdaptiveNodes(sp, init), DocNodes(sp, last));
    }
  }

  /**
   * No exception escapes when every document that could reach the fallback
   * has a "file_name", as every document read with `FileMetadata` has.
   */
  lemma {:induction false} AdaptiveNodesNoError(sp: Splitters, docs: seq<Document>)
    requires forall i :: 0 <= i < |docs| ==> Route(docs[i]).Code? ==> "file_name" in docs[i].metadata
    ensures AdaptiveNodes(sp, docs).Success?
  {
    if docs != [] {
      AdaptiveNodesNoError(sp, docs[..|docs| - 1]);
      DocNodesOneStrategy(sp, docs[|docs| - 1]);
    }
  }

  /** The document of a source file is read with the extractor's metadata. */
  function ReadDocument(path: string, text: string): Document {
    Document(text, FileMetadata(path))
  }

  /**
   * With the structure document first, as ingestion calls it: the structure
   * document has no "extension", goes to the generic splitter, and its chunks
   * come before those of the files, which never raise.
   */
  lemma StructureDocumentFirst(sp: Splitters, mapDoc: Document, docs: seq<Document>)
    requires "extension" !in mapDoc.metadata
    requires forall i :: 0 <= i < |docs| ==> "file_name" in docs[i].metadata
    ensures AdaptiveNodes(sp, docs).Success? && AdaptiveNodes(sp, [mapDoc] + docs).Success?
    ensures AdaptiveNodes(sp, [mapDoc] + docs).value ==
            sp.generic(SENTENCE_CONFIG, mapDoc) + AdaptiveNodes(sp, docs).value
  {
    RouteCases(mapDoc);
    AdaptiveNodesAppend(sp, [mapDoc], docs);
    AdaptiveNodesNoError(sp, docs);
    assert [mapDoc][..0] == [];
  }
}
