/**
 * Corpus loading (`load_knowledge` of server/rag_utils.py).
 *
 * A directory is walked and every visible markdown file becomes one section
 * "# Source: <relpath>\n\n<content>"; sections are joined with "\n\n---\n\n".
 * A character budget is charged with the content lengths only: the first file
 * that would overflow it ends the load and is left out. A single file must be
 * a .md or .txt file; its content is cut to the budget and given a header.
 */
module Loader {
  import opened Wrappers
  import opened Text
  import opened Seqs

  /** The budget on the number of content characters read. */
  const MAX_TOTAL_CHARS: nat := 1024000
  const SECTION_SEPARATOR: string := "\n\n---\n\n"
  const SOURCE_HEADER: string := "# Source: "

  /**
   * One file met by `os.walk`, in walk order: the directories between the corpus
   * root and the file, the file's name, and its text, or None when opening or
   * decoding it raises.
   */
  datatype Entry = Entry(dirs: seq<string>, name: string, content: Option<string>)

  /** What the knowledge path names on the filesystem. */
  datatype PathKind =
    | NotFound
    | Directory(walk: seq<Entry>)
    | RegularFile(content: Option<string>)

  /** A markdown document accepted by the directory scan. */
  datatype Doc = Doc(relPath: string, content: string)

  /** The pair `(knowledge, is_single_file)` that `load_knowledge` returns. */
  datatype Loaded = Loaded(knowledge: Option<string>, isSingleFile: bool)

  predicate IsHidden(name: string) {
    StartsWith(name, ".")
  }

  /** No directory on the way to the file is pruned from the walk, and the file is not hidden. */
  predicate Visible(e: Entry) {
    !IsHidden(e.name) && forall d <- e.dirs :: !IsHidden(d)
  }

  predicate IsMarkdown(name: string) {
    EndsWith(Lower(name), ".md")
  }

  /** The files the directory scan opens. */
  predicate Selected(e: Entry) {
    Visible(e) && IsMarkdown(e.name)
  }

  /** `os.path.relpath(os.path.join(root, filename), path)`. */
  function RelPath(e: Entry): string {
    Join(e.dirs + [e.name], "/")
  }

  function Section(d: Doc): string {
    SOURCE_HEADER + d.relPath + "\n\n" + d.content
  }

  function Sections(docs: seq<Doc>): (parts: seq<string>)
    ensures |parts| == |docs|
  {
    if docs == [] then [] else Sections(docs[..|docs| - 1]) + [Section(docs[|docs| - 1])]
  }

  /** The number of content characters in `docs`; headers and separators are not charged. */
  function TotalLength(docs: seq<Doc>): nat {
    if docs == [] then 0 else TotalLength(docs[..|docs| - 1]) + |docs[|docs| - 1].content|
  }

  /** The document an entry contributes when `take` accepts it and it was read. */
  function Contribution(e: Entry, take: Entry -> bool): seq<Doc> {
    if take(e) && e.content.Some? then [Doc(RelPath(e), e.content.value)] else []
  }

  /** The documents of the read entries that `take` accepts, in walk order. */
  function Collect(walk: seq<Entry>, take: Entry -> bool): seq<Doc> {
    if walk == [] then [] else Collect(walk[..|walk| - 1], take) + Contribution(walk[|walk| - 1], take)
  }

  function SelectedTest(): Entry -> bool {
    (e: Entry) => Selected(e)
  }

  /** The readable selected files of a walk, in walk order. */
  function Candidates(walk: seq<Entry>): seq<Doc> {
    Collect(walk, SelectedTest())
  }

  /**
   * The documents the scan keeps: the candidates up to, and not including, the
   * first one whose content no longer fits in what is left of the budget.
   */
  function FittingPrefix(docs: seq<Doc>, budget: int): seq<Doc> {
    if docs == [] || |docs[0].content| > budget then []
    else [docs[0]] + FittingPrefix(docs[1..], budget - |docs[0].content|)
  }

  function DirectoryKnowledge(walk: seq<Entry>): string {
    Join(Sections(FittingPrefix(Candidates(walk), MAX_TOTAL_CHARS)), SECTION_SEPARATOR)
  }

  predicate IsAllowedFile(path: string) {
    EndsWith(Lower(path), ".md") || EndsWith(Lower(path), ".txt")
  }

  /** `content[:MAX_TOTAL_CHARS]`. */
  function Truncate(content: string): string {
    if |content| > MAX_TOTAL_CHARS then content[..MAX_TOTAL_CHARS] else content
  }

  function SingleFileKnowledge(path: string, content: string): string {
    SOURCE_HEADER + Basename(path) + "\n\n" + Truncate(content)
  }

  /** What `load_knowledge(path)` returns when `path` names `kind`. */
  function Load(path: string, kind: PathKind): Loaded {
    match kind
    case NotFound => Loaded(None, false)
    case Directory(walk) => Loaded(Some(DirectoryKnowledge(walk)), false)
    case RegularFile(content) =>
      if !IsAllowedFile(path) || content.None? then Loaded(None, false)
      else Loaded(Some(SingleFileKnowledge(path, content.value)), true)
  }

  /** The directory branch of the loader: the walk with its running total and early return. */
  method ScanDirectory(walk: seq<Entry>) returns (knowledge: string)
    ensures knowledge == DirectoryKnowledge(walk)
  {
    var parts: seq<string> := [];
    ghost var accepted: seq<Doc> := [];
    var total := 0;
    var i := 0;
    while i < |walk|
      invariant 0 <= i <= |walk|
      invariant accepted == Candidates(walk[..i])
      invariant total == TotalLength(accepted) <= MAX_TOTAL_CHARS
      invariant parts == Sections(accepted)
    {
      var e := walk[i];
      CandidatesStep(walk, i);
      if Selected(e) && e.content.Some? {
        var content := e.content.value;
        if total + |content| > MAX_TOTAL_CHARS {
          KnowledgeStopsAt(walk, i);
          return Join(parts, SECTION_SEPARATOR);
        }
        var d := Doc(RelPath(e), content);
        AcceptStep(accepted, d);
        parts := parts + [Section(d)];
        accepted := accepted + [d];
        total := total + |content|;
      } else {
        assert accepted + [] == accepted;
      }
      i := i + 1;
    }
    assert walk[..i] == walk;
    KnowledgeOfFitting(walk);
    return Join(parts, SECTION_SEPARATOR);
  }

  /** The loader itself. */
  method LoadKnowledge(path: string, kind: PathKind) returns (knowledge: Option<string>, isSingleFile: bool)
    ensures Loaded(knowledge, isSingleFile) == Load(path, kind)
  {
    match kind {
      case NotFound =>
        return None, false;
      case Directory(walk) =>
        var text := ScanDirectory(walk);
        return Some(text), false;
      case RegularFile(c) =>
        if !IsAllowedFile(path) {
          return None, false;
        }
        match c {
          case None =>
            return None, false;
          case Some(content) =>
            if |content| > MAX_TOTAL_CHARS {
              content := content[..MAX_TOTAL_CHARS];
            }
            return Some(SOURCE_HEADER + Basename(path) + "\n\n" + content), true;
        }
    }
  }

  // ---- Lemmas ----

  lemma {:induction false} TotalLengthAppend(a: seq<Doc>, b: seq<Doc>)
    ensures TotalLength(a + b) == TotalLength(a) + TotalLength(b)
    decreases |b|
  {
    if b == [] {
      assert a + b == a;
    } else {
      assert (a + b)[..|a + b| - 1] == a + b[..|b| - 1];
      TotalLengthAppend(a, b[..|b| - 1]);
    }
  }

  /** Splitting a walk splits what it collects the same way: the scan keeps walk order. */
  lemma {:induction false} CollectAppend(a: seq<Entry>, b: seq<Entry>, take: Entry -> bool)
    ensures Collect(a + b, take) == Collect(a, take) + Collect(b, take)
    decreases |b|
  {
    if b == [] {
      assert a + b == a;
    } else {
      assert (a + b)[..|a + b| - 1] == a + b[..|b| - 1];
      CollectAppend(a, b[..|b| - 1], take);
    }
  }

  lemma CollectOfOne(e: Entry, take: Entry -> bool)
    ensures Collect([e], take) == Contribution(e, take)
  {
    assert [e][..0] == [];
  }

  /** One walk entry between two stretches of the walk contributes its own document only. */
  lemma CollectAround(before: seq<Entry>, e: Entry, after: seq<Entry>, take: Entry -> bool)
    ensures Collect(before + [e] + after, take) == Collect(before, take) + Contribution(e, take) + Collect(after, take)
  {
    CollectAppend(before + [e], after, take);
    CollectAppend(before, [e], take);
    CollectOfOne(e, take);
  }

  /** The walk split around its entry `i`. */
  lemma CollectSplitAt(walk: seq<Entry>, i: nat, take: Entry -> bool)
    requires i < |walk|
    ensures Collect(walk, take) == Collect(walk[..i], take) + Contribution(walk[i], take) + Collect(walk[i + 1..], take)
  {
    SplitAround(walk, i);
    CollectAround(walk[..i], walk[i], walk[i + 1..], take);
  }

  /** A list of documents that fits the budget is kept whole. */
  lemma {:induction false} FittingPrefixOfFitting(docs: seq<Doc>, budget: int)
    requires TotalLength(docs) <= budget
    ensures FittingPrefix(docs, budget) == docs
    decreases |docs|
  {
    if docs != [] {
      TotalLengthAppend([docs[0]], docs[1..]);
      assert [docs[0]] + docs[1..] == docs;
      assert [docs[0]][..0] == [];
      FittingPrefixOfFitting(docs[1..], budget - |docs[0].content|);
    }
  }

  /** When `kept` fits and `next` overflows, the scan keeps exactly `kept`, whatever follows. */
  lemma {:induction false} FittingPrefixSplit(kept: seq<Doc>, next: Doc, rest: seq<Doc>, budget: int)
    requires TotalLength(kept) <= budget < TotalLength(kept) + |next.content|
    ensures FittingPrefix(kept + [next] + rest, budget) == kept
    decreases |kept|
  {
    if kept == [] {
      assert ([] + [next] + rest)[0] == next;
    } else {
      TotalLengthAppend([kept[0]], kept[1..]);
      assert [kept[0]] + kept[1..] == kept;
      assert [kept[0]][..0] == [];
      assert (kept + [next] + rest)[1..] == kept[1..] + [next] + rest;
      FittingPrefixSplit(kept[1..], next, rest, budget - |kept[0].content|);
    }
  }

  /** The step of the loader's early return, stated on the walk. */
  lemma FittingPrefixStopsAt(walk: seq<Entry>, i: nat)
    requires i < |walk| && Selected(walk[i]) && walk[i].content.Some?
    requires TotalLength(Candidates(walk[..i])) <= MAX_TOTAL_CHARS
    requires TotalLength(Candidates(walk[..i])) + |walk[i].content.value| > MAX_TOTAL_CHARS
    ensures FittingPrefix(Candidates(walk), MAX_TOTAL_CHARS) == Candidates(walk[..i])
  {
    var e := walk[i];
    CandidatesSplitAt(walk, i);
    FittingPrefixSplit(Candidates(walk[..i]), Doc(RelPath(e), e.content.value), Candidates(walk[i + 1..]), MAX_TOTAL_CHARS);
  }

  /** The candidates of a walk around an entry `i` that yields a document. */
  lemma CandidatesSplitAt(walk: seq<Entry>, i: nat)
    requires i < |walk| && Selected(walk[i]) && walk[i].content.Some?
    ensures Candidates(walk) == Candidates(walk[..i]) + [Doc(RelPath(walk[i]), walk[i].content.value)] + Candidates(walk[i + 1..])
  {
    CollectSplitAt(walk, i, SelectedTest());
  }

  /** The early return of the directory scan: the knowledge is the sections of the files before `i`. */
  lemma KnowledgeStopsAt(walk: seq<Entry>, i: nat)
    requires i < |walk| && Selected(walk[i]) && walk[i].content.Some?
    requires TotalLength(Candidates(walk[..i])) <= MAX_TOTAL_CHARS
    requires TotalLength(Candidates(walk[..i])) + |walk[i].content.value| > MAX_TOTAL_CHARS
    ensures DirectoryKnowledge(walk) == Join(Sections(Candidates(walk[..i])), SECTION_SEPARATOR)
  {
    FittingPrefixStopsAt(walk, i);
  }

  /** When every candidate fits, the knowledge is the sections of all of them. */
  lemma KnowledgeOfFitting(walk: seq<Entry>)
    requires TotalLength(Candidates(walk)) <= MAX_TOTAL_CHARS
    ensures DirectoryKnowledge(walk) == Join(Sections(Candidates(walk)), SECTION_SEPARATOR)
  {
    FittingPrefixOfFitting(Candidates(walk), MAX_TOTAL_CHARS);
  }

  /** Accepting one more document adds its section and its content length. */
  lemma AcceptStep(accepted: seq<Doc>, d: Doc)
    ensures Sections(accepted + [d]) == Sections(accepted) + [Section(d)]
    ensures TotalLength(accepted + [d]) == TotalLength(accepted) + |d.content|
  {
    assert (accepted + [d])[..|accepted|] == accepted;
  }

  /** One step of the walk: the entry at `i` adds its document, if it has one, at the end. */
  lemma CandidatesStep(walk: seq<Entry>, i: nat)
    requires i < |walk|
    ensures var e := walk[i];
      Candidates(walk[..i + 1]) == Candidates(walk[..i]) + if Selected(e) && e.content.Some? then [Doc(RelPath(e), e.content.value)] else []
  {
    assert walk[..i + 1][..i] == walk[..i];
    assert Contribution(walk[i], SelectedTest()) == if Selected(walk[i]) && walk[i].content.Some? then [Doc(RelPath(walk[i]), walk[i].content.value)] else [];
  }

  /** The scan keeps a prefix of the candidates, in order. */
  lemma {:induction false} FittingPrefixIsPrefix(docs: seq<Doc>, budget: int)
    ensures var kept := FittingPrefix(docs, budget); |kept| <= |docs| && kept == docs[..|kept|]
    decreases |docs|
  {
    if docs != [] && |docs[0].content| <= budget {
      FittingPrefixIsPrefix(docs[1..], budget - |docs[0].content|);
    }
  }

  /** The content characters kept never exceed the budget. */
  lemma {:induction false} FittingPrefixWithinBudget(docs: seq<Doc>, budget: int)
    requires budget >= 0
    ensures TotalLength(FittingPrefix(docs, budget)) <= budget
    decreases |docs|
  {
    if docs != [] && |docs[0].content| <= budget {
      FittingPrefixWithinBudget(docs[1..], budget - |docs[0].content|);
      TotalLengthAppend([docs[0]], FittingPrefix(docs[1..], budget - |docs[0].content|));
      assert [docs[0]][..0] == [];
    }
  }

  /**
   * When the scan leaves documents out, the first one left out is one that
   * would have pushed the total over the budget.
   */
  lemma {:induction false} FittingPrefixStopsAtOverflow(docs: seq<Doc>, budget: int)
    ensures var kept := FittingPrefix(docs, budget);
      |kept| < |docs| ==> TotalLength(kept) + |docs[|kept|].content| > budget
    decreases |docs|
  {
    FittingPrefixIsPrefix(docs, budget);
    if docs != [] && |docs[0].content| <= budget {
      var rest := FittingPrefix(docs[1..], budget - |docs[0].content|);
      FittingPrefixStopsAtOverflow(docs[1..], budget - |docs[0].content|);
      TotalLengthAppend([docs[0]], rest);
      assert [docs[0]][..0] == [];
    }
  }

  /**
   * Directory budget: in directory mode the content of the accepted files adds
   * up to at most MAX_TOTAL_CHARS; the accepted files are the candidates up to
   * the first overflowing one, which is excluded with everything after it.
   */
  lemma DirectoryBudget(walk: seq<Entry>)
    ensures var docs := Candidates(walk);
      var kept := FittingPrefix(docs, MAX_TOTAL_CHARS);
      && TotalLength(kept) <= MAX_TOTAL_CHARS
      && |kept| <= |docs| && kept == docs[..|kept|]
      && (|kept| < |docs| ==> TotalLength(kept) + |docs[|kept|].content| > MAX_TOTAL_CHARS)
  {
    var docs := Candidates(walk);
    FittingPrefixWithinBudget(docs, MAX_TOTAL_CHARS);
    FittingPrefixIsPrefix(docs, MAX_TOTAL_CHARS);
    FittingPrefixStopsAtOverflow(docs, MAX_TOTAL_CHARS);
  }

  /**
   * Directory selection: a document is a candidate exactly when some visible
   * markdown entry of the walk was read, with that path and that content; an
   * unreadable file contributes nothing and does not stop the scan.
   */
  lemma {:induction false} CandidatesSelection(walk: seq<Entry>)
    ensures forall d <- Candidates(walk) ::
      exists e <- walk :: Selected(e) && e.content == Some(d.content) && RelPath(e) == d.relPath
    ensures forall e <- walk :: Selected(e) && e.content.Some? ==>
      Doc(RelPath(e), e.content.value) in Candidates(walk)
  {
    if walk != [] {
      var init := walk[..|walk| - 1];
      CandidatesSelection(init);
      assert walk == init + [walk[|walk| - 1]];
      forall d <- Candidates(walk)
        ensures exists e <- walk :: Selected(e) && e.content == Some(d.content) && RelPath(e) == d.relPath
      {
        if d in Candidates(init) {
          var e :| e in init && Selected(e) && e.content == Some(d.content) && RelPath(e) == d.relPath;
          assert e in walk;
        }
      }
    }
  }

  lemma CandidatesOfOne(e: Entry)
    ensures Candidates([e]) == if Selected(e) && e.content.Some? then [Doc(RelPath(e), e.content.value)] else []
  {
    CollectOfOne(e, SelectedTest());
  }

  /** A read failure of one file changes nothing but that file's own contribution. */
  lemma UnreadableFileIsSkipped(before: seq<Entry>, dirs: seq<string>, name: string, after: seq<Entry>)
    ensures Candidates(before + [Entry(dirs, name, None)] + after) == Candidates(before) + Candidates(after)
  {
    var e := Entry(dirs, name, None);
    CollectAround(before, e, after, SelectedTest());
    assert Contribution(e, SelectedTest()) == [];
  }

  /** A hidden file, a file under a hidden directory and a non-markdown file are never read. */
  lemma UnselectedFileIsIgnored(before: seq<Entry>, e: Entry, after: seq<Entry>)
    requires !Selected(e)
    ensures Candidates(before + [e] + after) == Candidates(before) + Candidates(after)
  {
    CollectAround(before, e, after, SelectedTest());
    assert Contribution(e, SelectedTest()) == [];
  }

  /**
   * Load outcomes: a missing path and a file of another type give `(None, False)`;
   * a directory without accepted files gives `("", False)`.
   */
  lemma LoadOutcomes(path: string, kind: PathKind)
    ensures kind.NotFound? ==> Load(path, kind) == Loaded(None, false)
    ensures kind.RegularFile? && !IsAllowedFile(path) ==> Load(path, kind) == Loaded(None, false)
    ensures kind.Directory? && FittingPrefix(Candidates(kind.walk), MAX_TOTAL_CHARS) == [] ==>
      Load(path, kind) == Loaded(Some(""), false)
    ensures Load(path, kind).isSingleFile <==> kind.RegularFile? && IsAllowedFile(path) && kind.content.Some?
  {
  }

  /**
   * The extension tests ignore letter case: a name tests the same written in
   * upper case, in lower case, or as given.
   */
  lemma ExtensionTestsIgnoreCase(name: string)
    ensures IsMarkdown(Upper(name)) == IsMarkdown(name) == IsMarkdown(Lower(name))
    ensures IsAllowedFile(Upper(name)) == IsAllowedFile(name) == IsAllowedFile(Lower(name))
  {
    LowerIgnoresCase(name);
  }

  /** Examples: "README.MD" is markdown, "notes.TXT" is an allowed single file, "notes.rst" is not. */
  lemma ExtensionExamples()
    ensures IsMarkdown("README.MD") && IsMarkdown("a.Md")
    ensures IsAllowedFile("notes.TXT") && !IsAllowedFile("notes.rst")
    ensures !IsMarkdown("notes.txt")
  {
    assert Lower("README.MD")[6..] == ".md";
    assert Lower("a.Md")[1..] == ".md";
    assert Lower("notes.TXT")[5..] == ".txt";
    assert Lower("notes.rst")[5..] == ".rst";
    assert Lower("notes.rst")[6..] == "rst";
    assert Lower("notes.txt")[6..] == "txt";
  }

  /**
   * Single-file load: the header names the basename of the path and is followed
   * by exactly the first min(|content|, MAX_TOTAL_CHARS) characters of the file,
   * cut at that count and not at a line boundary.
   */
  lemma SingleFileLoad(path: string, content: string)
    requires IsAllowedFile(path)
    ensures var header := SOURCE_HEADER + Basename(path) + "\n\n";
      var k := Load(path, RegularFile(Some(content)));
      && k.isSingleFile
      && k.knowledge.Some?
      && StartsWith(k.knowledge.value, header)
      && k.knowledge.value[|header|..] == content[..if |content| > MAX_TOTAL_CHARS then MAX_TOTAL_CHARS else |content|]
      && |k.knowledge.value| - |header| <= MAX_TOTAL_CHARS
  {
    var header := SOURCE_HEADER + Basename(path) + "\n\n";
    var body := Truncate(content);
    assert Load(path, RegularFile(Some(content))) == Loaded(Some(header + body), true);
    assert body == content[..if |content| > MAX_TOTAL_CHARS then MAX_TOTAL_CHARS else |content|] by {
      assert content[..|content|] == content;
    }
    assert (header + body)[..|header|] == header && (header + body)[|header|..] == body;
  }

  /**
   * The budget bounds the content characters only: a directory holding one
   * markdown file of exactly MAX_TOTAL_CHARS characters is accepted whole, and
   * the knowledge text, with its header, is longer than the budget.
   */
  lemma KnowledgeTextMayExceedBudget(content: string)
    requires |content| == MAX_TOTAL_CHARS
    ensures var k := Load("data", Directory([Entry([], "wine.md", Some(content))]));
      k.knowledge.Some? && |k.knowledge.value| > MAX_TOTAL_CHARS
  {
    var e := Entry([], "wine.md", Some(content));
    var d := Doc("wine.md", content);
    assert Candidates([e]) == [d] by {
      assert Selected(e) by {
        assert Lower("wine.md")[4..] == ".md";
        assert "wine.md"[..1] == "w";
      }
      assert RelPath(e) == "wine.md";
      CandidatesOfOne(e);
    }
    assert TotalLength([d]) == MAX_TOTAL_CHARS by {
      AcceptStep([], d);
      assert [] + [d] == [d];
    }
    KnowledgeOfFitting([e]);
    assert Sections([d]) == [Section(d)] by {
      AcceptStep([], d);
      assert [] + [d] == [d];
    }
  }
}
