/**
 * Relevance filtering (`retrieve_context` of server/rag_utils.py).
 *
 * The query and each non-blank line of the knowledge are lower-cased and cut
 * into tokens by the segmenter, and reduced to a set of words: blank tokens and
 * punctuation-only tokens are dropped, and, for the query only, stopwords too.
 * A line is relevant when its words meet the query's words. The relevant lines
 * are kept in document order and the list is cut to its first 120 entries.
 * If segmenting the query or any line fails, the result is empty.
 */
module Retrieval {
  import opened Wrappers
  import opened Text
  import opened Seqs

  const MAX_CONTEXT_LINES: nat := 120

  /**
   * `text => list(jieba.cut(text.lower()))`: Python's lower-casing
   * (`str.lower`) followed by segmentation, as a list of tokens; None stands
   * for an exception raised while segmenting.
   */
  type Segmenter = string -> Option<seq<string>>

  /** `re.match(r'^\W+$', token)`: the token consists of non-word characters only. */
  type NonWordTest = string -> bool

  const STOP_WORDS: set<string> := {
    // Chinese function words
    "的", "了", "和", "是", "就", "都", "而", "及", "与", "这", "那", "有", "在",
    "中", "上", "下", "由", "为", "以", "到", "等", "让", "向", "又", "但", "如",
    "或", "所", "因", "于", "只", "从", "给", "被", "得", "地", "着", "把", "之",
    // English function words
    "i", "me", "my", "myself", "we", "our", "ours", "ourselves", "you", "your",
    "yours", "yourself", "yourselves", "he", "him", "his", "himself", "she", "her",
    "hers", "herself", "it", "its", "itself", "they", "them", "their", "theirs",
    "themselves", "what", "which", "who", "whom", "this", "that", "these", "those",
    "am", "is", "are", "was", "were", "be", "been", "being", "have", "has", "had",
    "having", "do", "does", "did", "doing", "a", "an", "the", "and", "but", "if",
    "or", "because", "as", "until", "while", "of", "at", "by", "for", "with",
    "about", "against", "between", "into", "through", "during", "before", "after",
    "above", "below", "to", "from", "up", "down", "in", "out", "on", "off", "over",
    "under", "again", "further", "then", "once", "here", "there", "when", "where",
    "why", "how", "all", "any", "both", "each", "few", "more", "most", "other",
    "some", "such", "no", "nor", "not", "only", "own", "same", "so", "than", "too",
    "very", "s", "t", "can", "will", "just", "don", "should", "now"
  }

  /** A token survives the post-processing: not blank, not punctuation only, not in `dropped`. */
  predicate Kept(token: string, nonWord: NonWordTest, dropped: set<string>) {
    Strip(token) != [] && !nonWord(token) && token !in dropped
  }

  /** The tokens that survive, in order (`processed_tokens`, `processed_line_tokens`). */
  function KeptTokens(tokens: seq<string>, nonWord: NonWordTest, dropped: set<string>): (kept: seq<string>)
    ensures forall t :: t in kept <==> t in tokens && Kept(t, nonWord, dropped)
  {
    if tokens == [] then []
    else
      var last := tokens[|tokens| - 1];
      KeptTokens(tokens[..|tokens| - 1], nonWord, dropped) + (if Kept(last, nonWord, dropped) then [last] else [])
  }

  function ToSet(s: seq<string>): (r: set<string>)
    ensures forall t :: t in r <==> t in s
  {
    set t | t in s
  }

  /** The words of a stripped text, or None when segmenting it fails. */
  function Words(stripped: string, seg: Segmenter, nonWord: NonWordTest, dropped: set<string>): Option<set<string>> {
    match seg(stripped)
    case None => None
    case Some(tokens) => Some(ToSet(KeptTokens(tokens, nonWord, dropped)))
  }

  /** `query_words`: stopwords are removed from the query. */
  function QueryWords(strippedQuery: string, seg: Segmenter, nonWord: NonWordTest): Option<set<string>> {
    Words(strippedQuery, seg, nonWord, STOP_WORDS)
  }

  /** `line_words`: no stopword removal for lines. */
  function LineWords(line: string, seg: Segmenter, nonWord: NonWordTest): Option<set<string>> {
    Words(Strip(line), seg, nonWord, {})
  }

  /** The line is segmented without failure and shares a word with the query. */
  predicate IsRelevant(line: string, queryWords: set<string>, seg: Segmenter, nonWord: NonWordTest) {
    && Strip(line) != []
    && LineWords(line, seg, nonWord).Some?
    && queryWords * LineWords(line, seg, nonWord).value != {}
  }

  /** Segmenting this non-blank line raises. */
  predicate FailsToSegment(line: string, seg: Segmenter, nonWord: NonWordTest) {
    Strip(line) != [] && LineWords(line, seg, nonWord).None?
  }

  /** What the scan does with one line: skip it, keep it, or give up. */
  datatype Verdict = Skip | Keep | Fail

  function Classify(line: string, queryWords: set<string>, seg: Segmenter, nonWord: NonWordTest): (v: Verdict)
    ensures v == Fail <==> FailsToSegment(line, seg, nonWord)
    ensures v == Keep <==> IsRelevant(line, queryWords, seg, nonWord)
  {
    if Strip(line) == [] then Skip
    else
      match LineWords(line, seg, nonWord)
      case None => Fail
      case Some(lineWords) => if queryWords * lineWords != {} then Keep else Skip
  }

  function Verdicts(queryWords: set<string>, seg: Segmenter, nonWord: NonWordTest): string -> Verdict {
    line => Classify(line, queryWords, seg, nonWord)
  }

  /**
   * The scan over the lines, for any per-line verdict: the kept lines in order,
   * or None as soon as one line fails.
   */
  function Scan(lines: seq<string>, verdict: string -> Verdict): Option<seq<string>> {
    if lines == [] then Some([])
    else
      var before := Scan(lines[..|lines| - 1], verdict);
      var line := lines[|lines| - 1];
      if before.None? || verdict(line) == Fail then None
      else if verdict(line) == Keep then Some(before.value + [line])
      else before
  }

  /** The full list of relevant lines, in order, or None when a line fails to segment. */
  function RelevantLines(lines: seq<string>, queryWords: set<string>, seg: Segmenter, nonWord: NonWordTest): Option<seq<string>> {
    Scan(lines, Verdicts(queryWords, seg, nonWord))
  }

  /** `relevant_lines[:MAX_CONTEXT_LINES]`. */
  function Cap(lines: seq<string>): seq<string> {
    if |lines| <= MAX_CONTEXT_LINES then lines else lines[..MAX_CONTEXT_LINES]
  }

  /** What `retrieve_context(query, knowledge)` returns. */
  function Retrieve(query: string, knowledge: Option<string>, seg: Segmenter, nonWord: NonWordTest): seq<string> {
    if knowledge.None? || knowledge.value == [] then []
    else
      var q := Strip(query);
      if q == [] then []
      else
        match QueryWords(q, seg, nonWord)
        case None => []
        case Some(queryWords) =>
          match RelevantLines(SplitLines(knowledge.value), queryWords, seg, nonWord)
          case None => []
          case Some(found) => Cap(found)
  }

  /** The post-processing loop over one token list. */
  method FilterTokens(tokens: seq<string>, nonWord: NonWordTest, dropped: set<string>) returns (words: set<string>)
    ensures words == ToSet(KeptTokens(tokens, nonWord, dropped))
  {
    var processed: seq<string> := [];
    var i := 0;
    while i < |tokens|
      invariant 0 <= i <= |tokens|
      invariant processed == KeptTokens(tokens[..i], nonWord, dropped)
    {
      var token := tokens[i];
      assert tokens[..i + 1][..i] == tokens[..i];
      if Strip(token) != [] && !nonWord(token) && token !in dropped {
        processed := processed + [token];
      }
      i := i + 1;
    }
    assert tokens[..i] == tokens;
    words := set t | t in processed;
  }

  /** The body of the loop over the knowledge lines, for one line. */
  method ClassifyLine(line: string, queryWords: set<string>, seg: Segmenter, nonWord: NonWordTest) returns (v: Verdict)
    ensures v == Classify(line, queryWords, seg, nonWord)
  {
    var stripped := Strip(line);
    if stripped == [] { return Skip; }
    var lineTokens := seg(stripped);
    if lineTokens.None? { return Fail; }
    var lineWords := FilterTokens(lineTokens.value, nonWord, {});
    v := if queryWords * lineWords != {} then Keep else Skip;
  }

  /** The retrieval itself: the token loops, the scan of every line, then the cap. */
  method RetrieveContext(query: string, knowledge: Option<string>, seg: Segmenter, nonWord: NonWordTest)
    returns (result: seq<string>)
    ensures result == Retrieve(query, knowledge, seg, nonWord)
  {
    if knowledge.None? { return []; }
    if knowledge.value == [] { return []; }
    var q := Strip(query);
    if q == [] { return []; }
    var queryTokens := seg(q);
    if queryTokens.None? { return []; }
    var queryWords := FilterTokens(queryTokens.value, nonWord, STOP_WORDS);
    var lines := SplitLines(knowledge.value);
    ghost var verdict := Verdicts(queryWords, seg, nonWord);
    var relevant: seq<string> := [];
    var i := 0;
    while i < |lines|
      invariant 0 <= i <= |lines|
      invariant Scan(lines[..i], verdict) == Some(relevant)
    {
      var line := lines[i];
      ScanSnoc(lines[..i], line, verdict);
      PrefixSnoc(lines, i);
      var v := ClassifyLine(line, queryWords, seg, nonWord);
      if v == Fail {
        ScanFailureSticks(lines, i + 1, verdict);
        assert lines[..|lines|] == lines;
        return [];
      } else if v == Keep {
        relevant := relevant + [line];
      }
      i := i + 1;
    }
    assert lines[..i] == lines;
    result := Cap(relevant);
  }

  // ---- The scan, for any verdict ----

  lemma ScanSnoc(init: seq<string>, line: string, verdict: string -> Verdict)
    ensures Scan(init + [line], verdict) ==
      if Scan(init, verdict).None? || verdict(line) == Fail then None
      else if verdict(line) == Keep then Some(Scan(init, verdict).value + [line])
      else Scan(init, verdict)
  {
    var lines := init + [line];
    assert lines[|lines| - 1] == line && lines[..|lines| - 1] == init;
  }

  /** Once a line fails, the whole scan fails, whatever follows. */
  lemma {:induction false} ScanFailureSticks(lines: seq<string>, n: nat, verdict: string -> Verdict)
    requires n <= |lines| && Scan(lines[..n], verdict).None?
    ensures Scan(lines, verdict).None?
    decreases |lines| - n
  {
    if n < |lines| {
      assert lines[..n + 1][..n] == lines[..n];
      ScanFailureSticks(lines, n + 1, verdict);
    } else {
      assert lines[..n] == lines;
    }
  }

  /**
   * The scan fails exactly when some line fails; when it succeeds it keeps
   * exactly the lines whose verdict is Keep, and nothing else.
   */
  lemma {:induction false} ScanChar(lines: seq<string>, verdict: string -> Verdict)
    ensures Scan(lines, verdict).None? <==> exists l <- lines :: verdict(l) == Fail
    ensures Scan(lines, verdict).Some? ==>
      && (forall l <- Scan(lines, verdict).value :: l in lines)
      && (forall l <- lines :: l in Scan(lines, verdict).value <==> verdict(l) == Keep)
  {
    if lines != [] {
      var init, line := lines[..|lines| - 1], lines[|lines| - 1];
      assert lines == init + [line];
      ScanChar(init, verdict);
      var r := Scan(lines, verdict);
      if r.Some? {
        var found := Scan(init, verdict).value;
        assert r.value == found + (if verdict(line) == Keep then [line] else []);
        forall l <- r.value ensures l in lines {
          if l in found { assert l in init; }
        }
        forall l <- lines ensures l in r.value <==> verdict(l) == Keep {
          if l != line {
            assert l in init;
          } else if l !in init {
            assert l !in found;
          }
        }
        assert !exists l <- lines :: verdict(l) == Fail by {
          forall l <- lines ensures verdict(l) != Fail {
            if l != line { assert l in init; }
          }
        }
      } else if Scan(init, verdict).Some? {
        assert verdict(line) == Fail;
      } else {
        var l :| l in init && verdict(l) == Fail;
        assert l in lines;
      }
    }
  }

  /** When no line is kept, a successful scan finds nothing. */
  lemma {:induction false} ScanNoneKept(lines: seq<string>, verdict: string -> Verdict)
    requires forall l <- lines :: verdict(l) != Keep
    ensures Scan(lines, verdict).Some? ==> Scan(lines, verdict).value == []
  {
    if lines != [] {
      var init := lines[..|lines| - 1];
      assert forall l <- init :: l in lines;
      assert lines[|lines| - 1] in lines;
      ScanNoneKept(init, verdict);
    }
  }

  /** `IsSubsequence(a, b)`: `a` is `b` with some elements left out, order kept. */
  predicate IsSubsequence(a: seq<string>, b: seq<string>)
    decreases |b|
  {
    if a == [] then true
    else if b == [] then false
    else if a[|a| - 1] == b[|b| - 1] then IsSubsequence(a[..|a| - 1], b[..|b| - 1])
    else IsSubsequence(a, b[..|b| - 1])
  }

  lemma {:induction false} SubsequenceOfEmpty(b: seq<string>)
    ensures IsSubsequence([], b)
  {
  }

  lemma {:induction false} SubsequenceExtend(a: seq<string>, b: seq<string>, x: string)
    requires IsSubsequence(a, b)
    ensures IsSubsequence(a, b + [x]) && IsSubsequence(a + [x], b + [x])
  {
    assert (b + [x])[..|b|] == b;
    assert (a + [x])[..|a|] == a;
    if a != [] && a[|a| - 1] == x {
      SubsequencePrefix(a, b);
    }
  }

  lemma {:induction false} SubsequencePrefix(a: seq<string>, b: seq<string>)
    requires a != [] && IsSubsequence(a, b)
    ensures IsSubsequence(a[..|a| - 1], b)
    decreases |b|, 0
  {
    if b != [] {
      if a[|a| - 1] == b[|b| - 1] {
        var a', b' := a[..|a| - 1], b[..|b| - 1];
        if a' != [] {
          SubsequencePrefix(a', b');
        }
        SubsequenceExtendLeft(a', b', b[|b| - 1]);
        assert b == b' + [b[|b| - 1]];
      } else {
        SubsequencePrefix(a, b[..|b| - 1]);
        SubsequenceExtendLeft(a[..|a| - 1], b[..|b| - 1], b[|b| - 1]);
        assert b == b[..|b| - 1] + [b[|b| - 1]];
      }
    }
  }

  lemma {:induction false} SubsequenceExtendLeft(a: seq<string>, b: seq<string>, x: string)
    requires IsSubsequence(a, b)
    ensures IsSubsequence(a, b + [x])
    decreases |b|, 1
  {
    assert (b + [x])[..|b|] == b;
    if a != [] && a[|a| - 1] == x {
      SubsequencePrefix(a, b);
    }
  }

  /** A prefix of a subsequence is a subsequence. */
  lemma {:induction false} SubsequenceTake(a: seq<string>, b: seq<string>, n: nat)
    requires n <= |a| && IsSubsequence(a, b)
    ensures IsSubsequence(a[..n], b)
    decreases |a| - n
  {
    if n < |a| {
      SubsequencePrefix(a, b);
      assert a[..|a| - 1][..n] == a[..n];
      SubsequenceTake(a[..|a| - 1], b, n);
    } else {
      assert a[..n] == a;
    }
  }

  /** Every element of a subsequence is an element of the sequence. */
  lemma {:induction false} SubsequenceMembers(a: seq<string>, b: seq<string>)
    requires IsSubsequence(a, b)
    ensures forall x <- a :: x in b
    decreases |b|
  {
    if a != [] && b != [] {
      if a[|a| - 1] == b[|b| - 1] {
        SubsequenceMembers(a[..|a| - 1], b[..|b| - 1]);
        assert a == a[..|a| - 1] + [a[|a| - 1]];
      } else {
        SubsequenceMembers(a, b[..|b| - 1]);
      }
    }
  }

  /** The kept lines are a subsequence of the lines. */
  lemma {:induction false} ScanSubsequence(lines: seq<string>, verdict: string -> Verdict)
    requires Scan(lines, verdict).Some?
    ensures IsSubsequence(Scan(lines, verdict).value, lines)
  {
    if lines == [] {
    } else {
      var init, line := lines[..|lines| - 1], lines[|lines| - 1];
      assert lines == init + [line];
      ScanSubsequence(init, verdict);
      SubsequenceExtend(Scan(init, verdict).value, init, line);
    }
  }

  /** Scanning two blocks of lines one after the other. */
  lemma {:induction false} ScanAppend(a: seq<string>, b: seq<string>, verdict: string -> Verdict)
    requires Scan(a, verdict).Some? && Scan(b, verdict).Some?
    ensures Scan(a + b, verdict) == Some(Scan(a, verdict).value + Scan(b, verdict).value)
    decreases |b|
  {
    if b == [] {
      assert a + b == a;
      assert Scan(a, verdict).value + [] == Scan(a, verdict).value;
    } else {
      var b', x := b[..|b| - 1], b[|b| - 1];
      assert b == b' + [x] && a + b == (a + b') + [x];
      ScanSnoc(b', x, verdict);
      ScanAppend(a, b', verdict);
      ScanSnoc(a + b', x, verdict);
      var ra, rb' := Scan(a, verdict).value, Scan(b', verdict).value;
      if verdict(x) == Keep {
        assert (ra + rb') + [x] == ra + (rb' + [x]);
      }
    }
  }

  // ---- Lemmas about retrieval ----

  /**
   * The scan fails exactly when some non-blank line fails to segment; when it
   * succeeds it keeps exactly the relevant lines, and nothing else.
   */
  lemma RelevantLinesChar(lines: seq<string>, queryWords: set<string>, seg: Segmenter, nonWord: NonWordTest)
    ensures RelevantLines(lines, queryWords, seg, nonWord).None? <==>
      exists l <- lines :: FailsToSegment(l, seg, nonWord)
    ensures RelevantLines(lines, queryWords, seg, nonWord).Some? ==>
      && (forall l <- RelevantLines(lines, queryWords, seg, nonWord).value :: l in lines)
      && (forall l <- lines :: l in RelevantLines(lines, queryWords, seg, nonWord).value <==> IsRelevant(l, queryWords, seg, nonWord))
  {
    var verdict := Verdicts(queryWords, seg, nonWord);
    ScanChar(lines, verdict);
    assert forall l :: verdict(l) == Classify(l, queryWords, seg, nonWord);
  }

  /** The relevant lines, every copy of each, in document order. */
  function RelevantOnly(lines: seq<string>, queryWords: set<string>, seg: Segmenter, nonWord: NonWordTest): seq<string> {
    if lines == [] then []
    else
      var last := lines[|lines| - 1];
      RelevantOnly(lines[..|lines| - 1], queryWords, seg, nonWord) + (if IsRelevant(last, queryWords, seg, nonWord) then [last] else [])
  }

  /** A successful scan is the order-preserving filter of the lines by relevance. */
  lemma {:induction false} RelevantLinesFilter(lines: seq<string>, queryWords: set<string>, seg: Segmenter, nonWord: NonWordTest)
    ensures RelevantLines(lines, queryWords, seg, nonWord).Some? ==>
      RelevantLines(lines, queryWords, seg, nonWord).value == RelevantOnly(lines, queryWords, seg, nonWord)
  {
    if lines != [] {
      var init, last := lines[..|lines| - 1], lines[|lines| - 1];
      RelevantLinesFilter(init, queryWords, seg, nonWord);
      assert Verdicts(queryWords, seg, nonWord)(last) == Classify(last, queryWords, seg, nonWord);
    }
  }

  /** Each line occurs in the filter as often as in the lines when relevant, and not at all otherwise. */
  lemma {:induction false} RelevantOnlyCopies(lines: seq<string>, queryWords: set<string>, seg: Segmenter, nonWord: NonWordTest, l: string)
    ensures multiset(RelevantOnly(lines, queryWords, seg, nonWord))[l] ==
      if IsRelevant(l, queryWords, seg, nonWord) then multiset(lines)[l] else 0
  {
    if lines != [] {
      var init, last := lines[..|lines| - 1], lines[|lines| - 1];
      assert lines == init + [last];
      RelevantOnlyCopies(init, queryWords, seg, nonWord, l);
    }
  }

  /**
   * The scan keeps every copy of a repeated relevant line: a successful scan is
   * the relevant lines in document order, and each line appears in it exactly
   * as many times as in the knowledge when it is relevant, and never otherwise.
   */
  lemma RelevantLinesCopies(lines: seq<string>, queryWords: set<string>, seg: Segmenter, nonWord: NonWordTest, l: string)
    requires RelevantLines(lines, queryWords, seg, nonWord).Some?
    ensures RelevantLines(lines, queryWords, seg, nonWord).value == RelevantOnly(lines, queryWords, seg, nonWord)
    ensures multiset(RelevantLines(lines, queryWords, seg, nonWord).value)[l] ==
      if IsRelevant(l, queryWords, seg, nonWord) then multiset(lines)[l] else 0
  {
    RelevantLinesFilter(lines, queryWords, seg, nonWord);
    RelevantOnlyCopies(lines, queryWords, seg, nonWord, l);
  }

  /** The relevant lines are a subsequence of the lines. */
  lemma RelevantLinesSubsequence(lines: seq<string>, queryWords: set<string>, seg: Segmenter, nonWord: NonWordTest)
    requires RelevantLines(lines, queryWords, seg, nonWord).Some?
    ensures IsSubsequence(RelevantLines(lines, queryWords, seg, nonWord).value, lines)
  {
    ScanSubsequence(lines, Verdicts(queryWords, seg, nonWord));
  }

  /**
   * Retrieval's empty cases: no knowledge, empty knowledge or a blank query give
   * no lines, and so does a failure to segment the query or any non-blank line.
   */
  lemma RetrieveEmptyCases(query: string, knowledge: Option<string>, seg: Segmenter, nonWord: NonWordTest)
    ensures knowledge.None? || knowledge == Some("") || IsBlank(query) ==> Retrieve(query, knowledge, seg, nonWord) == []
    ensures knowledge.Some? && knowledge.value != [] && !IsBlank(query) &&
      (QueryWords(Strip(query), seg, nonWord).None? || exists l <- SplitLines(knowledge.value) :: FailsToSegment(l, seg, nonWord))
      ==> Retrieve(query, knowledge, seg, nonWord) == []
  {
    if knowledge.Some? && knowledge.value != [] && !IsBlank(query) {
      match QueryWords(Strip(query), seg, nonWord)
      case None =>
      case Some(qw) =>
        RelevantLinesChar(SplitLines(knowledge.value), qw, seg, nonWord);
    }
  }

  /**
   * Retrieval's result: at most 120 lines, a subsequence (in document order) of
   * the knowledge's lines as they stand, each one non-blank and sharing at least
   * one word with the query's word set.
   */
  lemma RetrieveSound(query: string, knowledge: string, seg: Segmenter, nonWord: NonWordTest)
    ensures var r := Retrieve(query, Some(knowledge), seg, nonWord);
      && |r| <= MAX_CONTEXT_LINES
      && IsSubsequence(r, SplitLines(knowledge))
      && forall l <- r ::
           && l in SplitLines(knowledge)
           && Strip(l) != []
           && QueryWords(Strip(query), seg, nonWord).Some?
           && IsRelevant(l, QueryWords(Strip(query), seg, nonWord).value, seg, nonWord)
  {
    var r := Retrieve(query, Some(knowledge), seg, nonWord);
    var lines := SplitLines(knowledge);
    if r != [] {
      var qw := QueryWords(Strip(query), seg, nonWord).value;
      var found := RelevantLines(lines, qw, seg, nonWord).value;
      RelevantLinesSubsequence(lines, qw, seg, nonWord);
      RelevantLinesChar(lines, qw, seg, nonWord);
      SubsequenceTake(found, lines, |r|);
      assert r == found[..|r|];
      SubsequenceMembers(r, lines);
    } else {
      SubsequenceOfEmpty(lines);
    }
  }

  /**
   * Retrieval's completeness: when every line segments, the result is the first
   * 120 of the lines that are relevant, every copy of each in document order, so every relevant line is returned when
   * there are at most 120 of them.
   */
  lemma RetrieveComplete(query: string, knowledge: string, seg: Segmenter, nonWord: NonWordTest)
    requires knowledge != [] && !IsBlank(query)
    requires QueryWords(Strip(query), seg, nonWord).Some?
    requires forall l <- SplitLines(knowledge) :: !FailsToSegment(l, seg, nonWord)
    ensures var qw := QueryWords(Strip(query), seg, nonWord).value;
      var found := RelevantLines(SplitLines(knowledge), qw, seg, nonWord);
      && found.Some?
      && Retrieve(query, Some(knowledge), seg, nonWord) == Cap(found.value)
      && found.value == RelevantOnly(SplitLines(knowledge), qw, seg, nonWord)
      && (forall l <- SplitLines(knowledge) :: l in found.value <==> IsRelevant(l, qw, seg, nonWord))
      && (|found.value| <= MAX_CONTEXT_LINES ==>
           forall l <- SplitLines(knowledge) :: IsRelevant(l, qw, seg, nonWord) ==> l in Retrieve(query, Some(knowledge), seg, nonWord))
  {
    var qw := QueryWords(Strip(query), seg, nonWord).value;
    RelevantLinesChar(SplitLines(knowledge), qw, seg, nonWord);
    RelevantLinesFilter(SplitLines(knowledge), qw, seg, nonWord);
  }

  /** A query that shares no word with any line retrieves nothing. */
  lemma RetrieveNoOverlap(query: string, knowledge: string, seg: Segmenter, nonWord: NonWordTest)
    requires forall l <- SplitLines(knowledge) ::
      QueryWords(Strip(query), seg, nonWord).Some? ==> !IsRelevant(l, QueryWords(Strip(query), seg, nonWord).value, seg, nonWord)
    ensures Retrieve(query, Some(knowledge), seg, nonWord) == []
  {
    var q := Strip(query);
    if knowledge != [] && q != [] && QueryWords(q, seg, nonWord).Some? {
      var qw := QueryWords(q, seg, nonWord).value;
      var verdict := Verdicts(qw, seg, nonWord);
      forall l <- SplitLines(knowledge) ensures verdict(l) != Keep {
        assert !IsRelevant(l, qw, seg, nonWord);
      }
      ScanNoneKept(SplitLines(knowledge), verdict);
    }
  }

  /** No stopword is ever among the query's words. */
  lemma QueryWordsHaveNoStopwords(q: string, seg: Segmenter, nonWord: NonWordTest)
    requires QueryWords(q, seg, nonWord).Some?
    ensures QueryWords(q, seg, nonWord).value * STOP_WORDS == {}
  {
    var words := QueryWords(q, seg, nonWord).value;
    forall w | w in words ensures w !in STOP_WORDS {
    }
  }

  /**
   * Stopwords are removed from the query only; a line's relevance would be the
   * same if they were removed from the line as well, since no stopword is a
   * query word.
   */
  lemma StopwordsOnlyMatterInQuery(q: string, line: string, seg: Segmenter, nonWord: NonWordTest)
    requires QueryWords(q, seg, nonWord).Some? && LineWords(line, seg, nonWord).Some?
    ensures var qw := QueryWords(q, seg, nonWord).value;
      qw * LineWords(line, seg, nonWord).value != {} <==> qw * Words(Strip(line), seg, nonWord, STOP_WORDS).value != {}
  {
    var qw := QueryWords(q, seg, nonWord).value;
    QueryWordsHaveNoStopwords(q, seg, nonWord);
    var plain := LineWords(line, seg, nonWord).value;
    var filtered := Words(Strip(line), seg, nonWord, STOP_WORDS).value;
    assert qw * plain == qw * filtered by {
      forall w ensures w in qw * plain <==> w in qw * filtered {
        if w in qw { assert w !in STOP_WORDS; }
      }
    }
  }

  // ---- Cap after a full scan versus stopping at the cap ----

  /**
   * The streaming alternative: stop scanning as soon as 120 lines are kept.
   * `Scan` models the code, which looks at every line before cutting the list.
   */
  function ScanUpToCap(lines: seq<string>, verdict: string -> Verdict, found: seq<string>): Option<seq<string>>
    decreases |lines|
  {
    if |found| >= MAX_CONTEXT_LINES || lines == [] then Some(found)
    else if verdict(lines[0]) == Fail then None
    else ScanUpToCap(lines[1..], verdict, if verdict(lines[0]) == Keep then found + [lines[0]] else found)
  }

  lemma {:induction false} ScanCons(x: string, rest: seq<string>, verdict: string -> Verdict)
    requires Scan([x] + rest, verdict).Some?
    ensures verdict(x) != Fail && Scan(rest, verdict).Some?
    ensures Scan([x] + rest, verdict).value == (if verdict(x) == Keep then [x] else []) + Scan(rest, verdict).value
  {
    ScanChar([x] + rest, verdict);
    assert x in [x] + rest;
    ScanChar(rest, verdict);
    forall l <- rest ensures verdict(l) != Fail {
      assert l in [x] + rest;
    }
    ScanSnoc([], x, verdict);
    assert [] + [x] == [x];
    ScanAppend([x], rest, verdict);
  }

  /**
   * When no line fails, stopping at the cap returns the same lines as scanning
   * everything and then cutting the list.
   */
  lemma {:induction false} EarlyStopAgrees(lines: seq<string>, verdict: string -> Verdict, found: seq<string>)
    requires |found| <= MAX_CONTEXT_LINES
    requires Scan(lines, verdict).Some?
    ensures ScanUpToCap(lines, verdict, found) == Some(Cap(found + Scan(lines, verdict).value))
    decreases |lines|
  {
    var all := Scan(lines, verdict).value;
    if |found| == MAX_CONTEXT_LINES {
      if all == [] {
        assert found + all == found;
      } else {
        assert (found + all)[..MAX_CONTEXT_LINES] == found;
      }
    } else if lines == [] {
      assert found + all == found;
    } else {
      var x, rest := lines[0], lines[1..];
      assert lines == [x] + rest;
      ScanCons(x, rest, verdict);
      var head := if verdict(x) == Keep then [x] else [];
      assert found + all == (found + head) + Scan(rest, verdict).value;
      assert found + [] == found;
      EarlyStopAgrees(rest, verdict, found + head);
    }
  }

  lemma {:induction false} UpToCapStopsAtBad(kept: seq<string>, bad: string, verdict: string -> Verdict, found: seq<string>)
    requires |found| + |kept| == MAX_CONTEXT_LINES
    requires forall l <- kept :: verdict(l) == Keep
    ensures ScanUpToCap(kept + [bad], verdict, found) == Some(found + kept)
    decreases |kept|
  {
    if kept == [] {
      assert found + kept == found;
    } else {
      var x := kept[0];
      assert x in kept;
      assert (kept + [bad])[0] == x;
      assert (kept + [bad])[1..] == kept[1..] + [bad];
      assert forall l <- kept[1..] :: l in kept;
      UpToCapStopsAtBad(kept[1..], bad, verdict, found + [x]);
      assert found + [x] + kept[1..] == found + kept;
    }
  }

  /**
   * The two strategies differ when a line after the 120th kept one fails: the
   * code's full scan then returns no lines at all, the early stop would return
   * the 120 lines.
   */
  lemma EarlyStopDiffersOnLateFailure(kept: seq<string>, bad: string, verdict: string -> Verdict)
    requires |kept| == MAX_CONTEXT_LINES
    requires forall l <- kept :: verdict(l) == Keep
    requires verdict(bad) == Fail
    ensures Scan(kept + [bad], verdict).None?
    ensures ScanUpToCap(kept + [bad], verdict, []) == Some(kept)
  {
    ScanSnoc(kept, bad, verdict);
    UpToCapStopsAtBad(kept, bad, verdict, []);
    assert [] + kept == kept;
  }
}
