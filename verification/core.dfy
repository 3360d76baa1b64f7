/** The personal-assistant pipeline: the documents read from the data folder, the choice
    between loading the saved vector store and building a new one, and the question loop.
    The directory loader, the text splitter, the index builder and the question-answering
    chain are function parameters: their code is not part of this model. */
module MesoCore {
  import opened Options
  import opened Seqs
  import opened Text

  /** A loaded markdown file. */
  datatype Document = Document(source: string, text: string)

  /** The folders scanned, in the order they are scanned. */
  const Subfolders: seq<string> := ["journal", "goals", "notes"]

  const ChunkSize := 500
  const ChunkOverlap := 100
  const EmbeddingModel := "all-MiniLM-L6-v2"

  // ---------------------------------------------------------------- load_documents

  /** What one folder contributes: its markdown files when it exists, nothing otherwise. */
  function FolderDocuments(folder: string, dirs: set<string>, loadDir: string -> seq<Document>): seq<Document> {
    if folder in dirs then loadDir(folder) else []
  }

  /** The documents of `folders`, folder after folder. */
  function Collected(folders: seq<string>, dirs: set<string>, loadDir: string -> seq<Document>): (docs: seq<Document>)
    ensures (forall i :: 0 <= i < |folders| ==> folders[i] !in dirs) ==> docs == []
    ensures forall i :: 0 <= i < |folders| && folders[i] in dirs ==> |loadDir(folders[i])| <= |docs|
    ensures forall i, d :: 0 <= i < |folders| && folders[i] in dirs && d in loadDir(folders[i]) ==> d in docs
    decreases |folders|
  {
    if folders == [] then []
    else
      var n := |folders| - 1;
      Collected(folders[..n], dirs, loadDir) + FolderDocuments(folders[n], dirs, loadDir)
  }

  /** `load_documents()`: `dirs` are the sub-folders of the data folder that exist and
      `loadDir(f)` is what `DirectoryLoader` reads from folder `f`. `count` is the number
      reported. */
  method LoadDocuments(dirs: set<string>, loadDir: string -> seq<Document>) returns (docs: seq<Document>, count: nat)
    ensures docs == FolderDocuments("journal", dirs, loadDir)
                    + FolderDocuments("goals", dirs, loadDir)
                    + FolderDocuments("notes", dirs, loadDir)
    ensures count == |FolderDocuments("journal", dirs, loadDir)|
                     + |FolderDocuments("goals", dirs, loadDir)|
                     + |FolderDocuments("notes", dirs, loadDir)|
  {
    docs := ScanFolders(Subfolders, dirs, loadDir);
    SubfoldersInOrder(dirs, loadDir);
    count := |docs|;
  }

  /** The loop of `load_documents` over a list of folders. */
  method ScanFolders(folders: seq<string>, dirs: set<string>, loadDir: string -> seq<Document>) returns (docs: seq<Document>)
    ensures docs == Collected(folders, dirs, loadDir)
  {
    docs := [];
    for i := 0 to |folders|
      invariant docs == Collected(folders[..i], dirs, loadDir)
    {
      assert folders[..i + 1][..i] == folders[..i];
      if folders[i] in dirs {
        docs := docs + loadDir(folders[i]);
      }
    }
    assert folders[..|folders|] == folders;
  }

  /** The fixed scan reads journal, then goals, then notes; a missing folder adds nothing. */
  lemma SubfoldersInOrder(dirs: set<string>, loadDir: string -> seq<Document>)
    ensures Collected(Subfolders, dirs, loadDir) ==
              FolderDocuments("journal", dirs, loadDir)
              + FolderDocuments("goals", dirs, loadDir)
              + FolderDocuments("notes", dirs, loadDir)
  {
    var s := Subfolders;
    assert s[..1][..0] == [] && s[..2][..1] == s[..1] && s[..3][..2] == s[..2] && s[..3] == s;
    assert Collected(s[..1], dirs, loadDir) == FolderDocuments("journal", dirs, loadDir);
  }

  /** Every loaded document comes from a folder of the list that exists. */
  lemma {:induction false} CollectedFromPresentFolders(folders: seq<string>, dirs: set<string>,
                                                       loadDir: string -> seq<Document>, d: Document)
    requires d in Collected(folders, dirs, loadDir)
    ensures exists i :: 0 <= i < |folders| && folders[i] in dirs && d in loadDir(folders[i])
    decreases |folders|
  {
    var n := |folders| - 1;
    if d in Collected(folders[..n], dirs, loadDir) {
      CollectedFromPresentFolders(folders[..n], dirs, loadDir, d);
      var i :| 0 <= i < n && folders[..n][i] in dirs && d in loadDir(folders[..n][i]);
      assert folders[i] == folders[..n][i];
    } else {
      assert folders[n] in dirs && d in loadDir(folders[n]);
    }
  }

  // ---------------------------------------------------------------- get_or_create_vector_store

  /** The vector-store folder (`VECTOR_DB_PATH`): whether the path exists, and the index
      `FAISS.load_local` reads from it, `None` when the folder holds no loadable index. */
  class StoreLocation<S> {
    var present: bool
    var saved: Option<S>

    constructor (present: bool, saved: Option<S>)
      ensures this.present == present && this.saved == saved
    {
      this.present := present;
      this.saved := saved;
    }
  }

  /** What `get_or_create_vector_store` does, in order. */
  datatype StoreStep = Loaded | Split(chunks: nat) | Built | Saved

  /** `get_or_create_vector_store(docs)`. `split(docs, size, overlap)` stands for the text
      splitter and `build(chunks, model)` for building the index with the named embedding
      model. An existing path is loaded, and `None` stands for the exception `load_local`
      raises when the folder holds no loadable index. */
  method GetOrCreateVectorStore<C, S>(loc: StoreLocation<S>, docs: seq<Document>,
                                      split: (seq<Document>, nat, nat) -> seq<C>,
                                      build: (seq<C>, string) -> S)
    returns (store: Option<S>, steps: seq<StoreStep>)
    modifies loc
    ensures old(loc.present) ==> store == old(loc.saved)
    ensures old(loc.present) ==> steps == (if store.Some? then [Loaded] else [])
    ensures old(loc.present) ==> loc.present && loc.saved == old(loc.saved)
    ensures !old(loc.present) ==>
              var chunks := split(docs, ChunkSize, ChunkOverlap);
              store == Some(build(chunks, EmbeddingModel)) && steps == [Split(|chunks|), Built, Saved]
    ensures loc.present && (store.Some? ==> loc.saved == store)
  {
    if loc.present {
      store := loc.saved;
      steps := if store.Some? then [Loaded] else [];
      return;
    }
    var chunks := split(docs, ChunkSize, ChunkOverlap);
    var built := build(chunks, EmbeddingModel);
    loc.present, loc.saved := true, Some(built);
    store := Some(built);
    steps := [Split(|chunks|), Built, Saved];
  }

  /** A store built on a first run is loaded back on the next one, and nothing is built. */
  method SecondRunLoads<C, S>(docs: seq<Document>, split: (seq<Document>, nat, nat) -> seq<C>,
                              build: (seq<C>, string) -> S, later: seq<Document>)
    returns (first: Option<S>, second: Option<S>, steps: seq<StoreStep>)
    ensures first.Some? && second == first && steps == [Loaded]
  {
    var loc := new StoreLocation(false, None);
    var firstSteps;
    first, firstSteps := GetOrCreateVectorStore(loc, docs, split, build);
    second, steps := GetOrCreateVectorStore(loc, later, split, build);
  }

  // ---------------------------------------------------------------- start_chat

  /** `query.lower() in ["exit", "quit"]`: no whitespace is trimmed. */
  predicate IsExit(query: string) {
    Lower(query) in ["exit", "quit"]
  }

  /** The exit words are "exit" and "quit" in any letter case, and nothing else. */
  lemma ExitWordsAnyCase(query: string)
    ensures IsExit(query) <==> SameUpToCase(query, "exit") || SameUpToCase(query, "quit")
  {
    LowerMatches(query, "exit");
    LowerMatches(query, "quit");
  }

  /** For a lower-case word `w`, `query.lower() == w` exactly when `query` is `w` in some
      letter case. */
  lemma LowerMatches(query: string, w: string)
    requires forall i :: 0 <= i < |w| ==> !IsUpper(w[i])
    ensures Lower(query) == w <==> SameUpToCase(query, w)
  {
    if SameUpToCase(query, w) {
      assert Lower(query) == w by {
        forall i | 0 <= i < |w| ensures Lower(query)[i] == w[i] {
          assert LowerChar(w[i]) == w[i];
        }
      }
    }
  }

  /** Upper-case "EXIT" ends the session. */
  lemma UpperExitStops(query: string)
    requires query == "EXIT"
    ensures IsExit(query)
  {
    assert Lower(query)[0] == 'e' && Lower(query)[1] == 'x' && Lower(query)[2] == 'i' && Lower(query)[3] == 't';
    assert Lower(query) == "exit";
  }

  /** " exit" with a leading blank does not end the session: it is sent as a question. */
  lemma PaddedExitContinues(query: string)
    requires query == " exit"
    ensures !IsExit(query)
  {
    assert |Lower(query)| == 5;
  }

  /** `start_chat(qa)` on the lines typed. Each question before the first "exit" or "quit"
      is answered by `qa`; `exited` is false when the lines run out first (where `input()`
      raises `EOFError`). `answers` are the results printed. */
  method StartChat<A>(inputs: seq<string>, qa: string -> A) returns (asked: seq<string>, answers: seq<A>, exited: bool)
    ensures |asked| <= |inputs| && asked == inputs[..|asked|]
    ensures forall j :: 0 <= j < |asked| ==> !IsExit(asked[j])
    ensures exited <==> |asked| < |inputs|
    ensures exited ==> IsExit(inputs[|asked|])
    ensures |answers| == |asked| && forall j :: 0 <= j < |asked| ==> answers[j] == qa(asked[j])
  {
    asked, answers, exited := [], [], false;
    var i := 0;
    while i < |inputs|
      invariant 0 <= i <= |inputs|
      invariant asked == inputs[..i]
      invariant forall j :: 0 <= j < i ==> !IsExit(inputs[j])
      invariant |answers| == i && forall j :: 0 <= j < i ==> answers[j] == qa(inputs[j])
    {
      var query := inputs[i];
      if Lower(query) in ["exit", "quit"] {
        exited := true;
        break;
      }
      var result := qa(query);
      asked := asked + [query];
      answers := answers + [result];
      i := i + 1;
    }
  }

  /** The session ends at the first exit word: the questions asked are exactly the lines
      before it. */
  lemma ChatStopsAtFirstExit(inputs: seq<string>, asked: seq<string>)
    requires |asked| <= |inputs| && asked == inputs[..|asked|]
    requires forall j :: 0 <= j < |asked| ==> !IsExit(asked[j])
    requires |asked| == |inputs| || IsExit(inputs[|asked|])
    ensures FirstWhere(inputs, IsExit) == if |asked| < |inputs| then Some(|asked|) else None
  {
    forall j | 0 <= j < |asked| ensures !IsExit(inputs[j]) {
      assert inputs[j] == asked[j];
    }
    FirstWhereAt(inputs, IsExit, |asked|);
  }

  // ---------------------------------------------------------------- main

  /** The `__main__` block: load the documents, get the store, build the chain with
      `qaFor` (`create_qa_chain`) and run the question loop. `store` is `None` where
      loading the saved index raises and the program ends before the chat. */
  method RunAssistant<C, S, A>(dirs: set<string>, loadDir: string -> seq<Document>, loc: StoreLocation<S>,
                               split: (seq<Document>, nat, nat) -> seq<C>, build: (seq<C>, string) -> S,
                               qaFor: S -> (string -> A), inputs: seq<string>)
    returns (store: Option<S>, asked: seq<string>, answers: seq<A>)
    modifies loc
    ensures old(loc.present) ==> store == old(loc.saved)
    ensures !old(loc.present) ==>
              store == Some(build(split(Collected(Subfolders, dirs, loadDir), ChunkSize, ChunkOverlap), EmbeddingModel))
    ensures loc.present && (store.Some? ==> loc.saved == store)
    ensures store.None? ==> asked == [] && answers == []
    ensures |asked| <= |inputs| && asked == inputs[..|asked|]
    ensures forall j :: 0 <= j < |asked| ==> !IsExit(asked[j])
    ensures store.Some? && |asked| < |inputs| ==> IsExit(inputs[|asked|])
    ensures store.Some? ==>
              |answers| == |asked| && forall j :: 0 <= j < |asked| ==> answers[j] == qaFor(store.value)(asked[j])
  {
    var docs, count := LoadDocuments(dirs, loadDir);
    SubfoldersInOrder(dirs, loadDir);
    var steps;
    store, steps := GetOrCreateVectorStore(loc, docs, split, build);
    if store.None? {
      return store, [], [];
    }
    var exited;
    asked, answers, exited := StartChat(inputs, qaFor(store.value));
  }
}
