# Wine assistant server core, modelled in Dafny

The wine assistant answers questions about wine. Its server has two cores:

- a small retrieval-augmented generation pipeline (`server/rag_utils.py`);
- a table of e-mail access tokens (`server/acl.py`).

This project models both cores in Dafny and proves what they promise.

`server/rag_utils.py` has four parts:

- **`load_knowledge`** reads a corpus. It is either a directory of markdown files, which are concatenated under a character budget, or a single `.md`/`.txt` file.
- **`retrieve_context`** keeps the lines of the corpus that share a word with the question.
- **`generate_answer`** builds a two-message prompt. It then answers by one of these paths: no client, dry run, one call to the language model, or an error text.
- **`rag_query`** chooses the context and calls `generate_answer`. The context is the whole text for a single file, or the relevant lines for a directory.

`server/acl.py` keeps two lists of token records: the active ones and the expired ones. Its operations are:

- creating a token for an e-mail address, which replaces that address's earlier token;
- validating a token;
- looking up the address a token belongs to;
- moving expired tokens to the expired list;
- listing tokens per address or globally, newest first;
- purging old expired tokens.

## Modules

| module | file | what |
|---|---|---|
| `Wrappers` | wrappers.dfy | `Option` |
| `Seqs` | seqs.dfy | facts about splitting a sequence around one element |
| `Text` | text.dfy | the Python string operations used: `strip`, `lower`/`upper`, `startswith`/`endswith`, `splitlines`, `join`, `os.path.basename` |
| `Loader` | loader.dfy | `load_knowledge` |
| `Retrieval` | retrieval.dfy | `retrieve_context` |
| `Answer` | answer.dfy | `generate_answer` and `rag_query` |
| `Acl` | acl.dfy | the token table: class `TokenStore` |

## Foreign code and the environment

The model takes what it cannot see as parameters.

**The filesystem.** A knowledge path is `NotFound`, a `RegularFile` with its text, or a `Directory`. A directory is the sequence of files met by `os.walk`, in walk order. Each file carries:

- the directories between the root and the file;
- its name;
- its text, or `None` when reading it raises.

**The tokenizer.** `list(jieba.cut(text.lower()))`, Python's own lower-casing followed by segmentation, is a parameter `seg: string -> Option<seq<string>>`, where `None` stands for an exception. The test `re.match(r'^\W+$', token)` is a parameter `nonWord: string -> bool`.

**The language model.** It is a parameter `client: Option<Request -> Outcome>`. The `Outcome` is a completion (whose content may be missing), an `openai.APIError`, or any other exception. The `Reply` records every request sent, so "no call is made" and "exactly one call is made" can be stated and proved.

**The token table.**

- The two JSON files are the `seq` fields `active` and `expired` of `Acl.TokenStore`. Loading reads a field and saving assigns it.
- The clock reading `now` and the positions picked by `random.choice` are method parameters.
- `TOKEN_EXPIRY_HOURS` comes from the environment. It is the constructor parameter `expiryHours`, whose documented default is 24.

## The character budget

The budget charges only content lengths (`server/rag_utils.py:32-38`), so the knowledge text with its headers and separators can exceed `MAX_TOTAL_CHARS`. `Loader.DirectoryBudget` proves the bound on content. `Loader.KnowledgeTextMayExceedBudget` exhibits a one-file corpus whose knowledge text is longer than the budget.

## Model

| member | source | states |
|---|---|---|
| Loader.LoadKnowledge | server/rag_utils.py:16-71 | The loader, with its running total and early return, returns exactly the pair `Load` specifies. That covers the directory walk, the single file and the error cases. |
| Loader.ScanDirectory | server/rag_utils.py:19-46 | The directory loop, with its running total and its early return at the first overflowing file, returns exactly the knowledge text `DirectoryKnowledge` specifies. |
| Loader.KnowledgeStopsAt | server/rag_utils.py:32-36 | When file `i` is the first whose content overflows the budget, the knowledge text joins the sections of exactly the documents before it. |
| Loader.KnowledgeOfFitting | server/rag_utils.py:37-46 | When all candidates fit in the budget, the knowledge text joins the sections of all of them, in walk order. |
| Loader.DirectoryBudget | server/rag_utils.py:32-38 | The kept documents are a prefix of the readable selected files, in walk order. Their content lengths sum to at most 1024000. If any document is left out, the first one left out would have overflowed the budget. |
| Loader.FittingPrefixStopsAt | server/rag_utils.py:32-36 | When file `i` is the first whose content overflows the budget, the load keeps exactly the documents before it. No later file is taken, even one that would fit. |
| Loader.FittingPrefixOfFitting | server/rag_utils.py:26-38 | When all candidates fit in the budget, every one of them is kept. |
| Loader.FittingPrefixSplit | server/rag_utils.py:32-36 | If the kept files fit but the next one does not, the result is the kept files, whatever follows. |
| Loader.FittingPrefixIsPrefix | server/rag_utils.py:26-38 | The documents kept are a prefix of the candidates. |
| Loader.FittingPrefixWithinBudget | server/rag_utils.py:32-38 | The kept content totals at most the budget. |
| Loader.FittingPrefixStopsAtOverflow | server/rag_utils.py:32-36 | Scanning stops only at a document whose content would overflow. |
| Loader.CandidatesSelection | server/rag_utils.py:23-40 | Every candidate document comes from a visible, readable `.md` file with the same relative path and content. Every such file yields a candidate. |
| Loader.CandidatesOfOne | server/rag_utils.py:24-38 | A single walk entry contributes one document exactly when it is visible, is markdown and was read. |
| Loader.UnreadableFileIsSkipped | server/rag_utils.py:29-40 | A file whose read raises is skipped. The files before and after it are still loaded. |
| Loader.UnselectedFileIsIgnored | server/rag_utils.py:24-27 | A hidden file, a file under a hidden directory, or a file that is not `.md` does not change the candidates. |
| Loader.LoadOutcomes | server/rag_utils.py:18-71 | A missing path gives `(None, False)`. A file without `.md`/`.txt` gives `(None, False)`. A directory with nothing kept gives `("", False)`. The flag is True exactly for a readable allowed single file. |
| Loader.ExtensionTestsIgnoreCase | server/rag_utils.py:27 | For every name, the markdown test gives the same answer for the name, its upper-case form and its lower-case form. The same holds for the `.md`/`.txt` test of line 52. |
| Loader.ExtensionExamples | server/rag_utils.py:51-52 | `README.MD` and `a.Md` are markdown, `notes.TXT` is an allowed single file, `notes.rst` is not allowed and `notes.txt` is not markdown. |
| Loader.SingleFileLoad | server/rag_utils.py:55-62 | A single allowed file gives `"# Source: " + basename + "\n\n"` followed by the first 1024000 characters of its content, with flag True. |
| Loader.KnowledgeTextMayExceedBudget | server/rag_utils.py:32-46 | One file of exactly 1024000 characters is loaded, and the knowledge text, with its header, is longer than the budget. |
| Retrieval.KeptTokens | server/rag_utils.py:111-126 | A token survives post-processing exactly when it is in the input and is not blank, not punctuation-only and not dropped. |
| Retrieval.FilterTokens | server/rag_utils.py:111-128 | The token loop computes the set of kept tokens. |
| Retrieval.Classify | server/rag_utils.py:136-154 | A line is kept exactly when it is relevant: non-blank, with a word in common with the query. The scan fails exactly when segmenting the line raises. |
| Retrieval.ClassifyLine | server/rag_utils.py:137-154 | The per-line step returns the verdict `Classify` specifies: skip a blank line, fail when segmenting raises, keep a line that shares a word with the query. |
| Retrieval.RetrieveContext | server/rag_utils.py:73-161 | The loops return exactly what `Retrieve` specifies. |
| Retrieval.RelevantLinesChar | server/rag_utils.py:133-154 | The scan fails exactly when some line fails to segment. Otherwise a line of the knowledge is among the kept lines exactly when it is relevant; `RelevantLinesCopies` states how many copies are kept. |
| Retrieval.RelevantLinesCopies | server/rag_utils.py:136-154 | A successful scan is the relevant lines, every copy of each, in document order: each line appears in it exactly as often as in the knowledge when it is relevant, and never otherwise. |
| Retrieval.RelevantLinesSubsequence | server/rag_utils.py:133-154 | The relevant lines are a subsequence of the knowledge lines, in document order. |
| Retrieval.RetrieveEmptyCases | server/rag_utils.py:75-158 | The result is `[]` in each of these cases: the knowledge is None or empty; the query is blank; segmenting the query or any line raises. |
| Retrieval.RetrieveSound | server/rag_utils.py:133-161 | The result has at most 120 lines and is a subsequence of the original, unstripped lines. Each of its lines is non-blank and shares a word with the filtered query words. |
| Retrieval.RetrieveComplete | server/rag_utils.py:133-161 | Without a failure, the result is the first 120 of the full relevant list, which is the order-preserving filter of the lines by relevance, repeated lines included. When there are at most 120 relevant lines, every relevant line is returned. |
| Retrieval.RetrieveNoOverlap | server/rag_utils.py:152-154 | When no line shares a word with the query, the result is empty. |
| Retrieval.QueryWordsHaveNoStopwords | server/rag_utils.py:121-123 | The query words contain no stopword. |
| Retrieval.StopwordsOnlyMatterInQuery | server/rag_utils.py:142-150 | Line words are not stopword-filtered. Filtering them as well would not change which lines are relevant. |
| Retrieval.EarlyStopAgrees | server/rag_utils.py:136-161 | When no line fails, a scan that stops at 120 kept lines gives the same result as the full scan followed by the cut. |
| Retrieval.EarlyStopDiffersOnLateFailure | server/rag_utils.py:136-161 | Suppose a line that fails to segment comes after 120 relevant lines. The source returns nothing, while a scan that stopped at the cap would return the 120 lines. |
| Answer.GenerateAnswer | server/rag_utils.py:163-222 | Without a client, the not-initialized text and no request. With a client in dry-run mode, the dry-run sentinel and no request. Otherwise exactly one request, with `deepseek-chat`, 0.7 and the built messages, and the answer is `Render` of that request's outcome. |
| Answer.Render | server/rag_utils.py:216-222 | A completion gives a slice of its content with only white space cut off before and after it, with no white space left at either end, empty exactly when the content is blank. An API error gives the API-error prefix followed by exactly its detail. Any other error, and a completion without content, give the unexpected-error prefix followed by the detail, or by Python's message for `None.strip()`. |
| Answer.QueryContext | server/rag_utils.py:230-238 | In single-file mode the context is the whole knowledge. In directory mode it splits back into exactly the retrieved lines, and it is empty exactly when no line is retrieved. |
| Answer.RagQuery | server/rag_utils.py:224-242 | Without knowledge, the not-loaded text and no request. With knowledge, the not-initialized text without a client and the dry-run sentinel in dry-run mode, both with no request. Otherwise exactly one request, whose messages are built from the context the mode selects, and the answer renders its outcome. |
| Answer.BuildMessages | server/rag_utils.py:171-195 | There are always two messages: system first, then user. |
| Answer.NoClientWins | server/rag_utils.py:165-167 | Without a client the answer is the not-initialized text, even in dry-run mode. No request is sent. |
| Answer.DryRunMakesNoCall | server/rag_utils.py:197-206 | With a client in dry-run mode the answer is the dry-run sentinel. No request is sent, and the answer does not depend on the client. |
| Answer.LiveMakesOneCall | server/rag_utils.py:208-222 | With a client and no dry run, exactly one request is sent: model `deepseek-chat`, temperature 0.7, the built messages. The answer renders the client's outcome. |
| Answer.AtMostOneCall | server/rag_utils.py:163-222 | At most one request is sent, and one is sent exactly when there is a client and no dry run. |
| Answer.MessagesLayout | server/rag_utils.py:173-195 | With an empty context, the plain system prompt is used and the user content is the query verbatim. Otherwise the context system prompt is used, and the user content is the header, the context, the `---` line, `Question: `, the query and `Answer:`, at the stated positions. |
| Answer.PromptDeterminesContext | server/rag_utils.py:176-183 | The user prompt determines the context it embeds: two different contexts give two different prompts for the same query. |
| Answer.PreviewShape | server/rag_utils.py:203 | The dry-run preview is the content itself when it has at most 200 characters. Otherwise it is the first 200 characters followed by `...`. |
| Answer.ErrorDetailRoundTrip | server/rag_utils.py:216-222 | The error detail can be recovered from the error answer. A completion whose content is missing becomes the unexpected-error text with Python's message for `None.strip()`. |
| Answer.CompletionIsStripped | server/rag_utils.py:216 | A completion answer is a slice of the content with only white space cut off before and after it. It is empty exactly when the content is blank, and otherwise neither starts nor ends with white space. Together these fix the answer as `content.strip()`. |
| Answer.NotLoadedWins | server/rag_utils.py:226-228 | Without knowledge the answer is `Knowledge base not loaded.` No request is sent. |
| Answer.SingleFileContext | server/rag_utils.py:231-233 | In single-file mode the context is the whole knowledge. |
| Answer.DirectoryContext | server/rag_utils.py:234-238 | In directory mode the context is the retrieved lines joined by `"\n"`. It is empty exactly when no line is retrieved, and splitting it gives back the retrieved lines. |
| Answer.RagQueryRequest | server/rag_utils.py:224-242 | With knowledge, a client and no dry run, `rag_query` sends exactly one request, built from the context the mode selects. Its answer renders that call's outcome. |
| Acl.TokenCharsAt | server/acl.py:22 | The token alphabet is `A`-`Z` followed by `0`-`9`, in order. |
| Acl.GenerateToken | server/acl.py:91-93 | A generated token has 6 characters, each from `A-Z0-9`. |
| Acl.GenerateTokenRoundTrip | server/acl.py:91-93 | Generation is a bijection between the picks and the tokens of shape six characters over `A-Z0-9`. |
| Acl.PicksOfGenerate | server/acl.py:91-93 | Reading back the positions of a generated token gives the picks it was made from. |
| Acl.GenerateOfPicks | server/acl.py:91-93 | Every six-character string over `A-Z0-9` is the token generated from its own positions. |
| Acl.TokenShapeIsUpper | server/acl.py:127-128 | A generated token is unchanged by upper-casing, and is recovered from its lower-case form. |
| Acl.AfterCreateRecords | server/acl.py:99-117 | After creation, the e-mail has exactly one active record, the new one, and it is last. Every other e-mail keeps the same records in the same order. |
| Acl.AfterCreateKeepsEmailsUnique | server/acl.py:101-114 | Creation preserves "at most one active record per e-mail". |
| Acl.FirstMatch | server/acl.py:152-160 | A match found carries the token and is in the list. None is found exactly when no record carries the token. |
| Acl.FirstMatchIsFirst | server/acl.py:152-160 | The match found is the one at the smallest position. |
| Acl.CleanupConserves | server/acl.py:172-181 | Cleanup splits the active records into their still-valid and expired parts, losing or duplicating nothing. Kept records have an expiry after `now`. Each moved record had expired and is stamped `expired_at = now`, in order. |
| Acl.CleanupKeepsValidity | server/acl.py:165-192 | Cleanup at `now` does not change which tokens validate at any later time. |
| Acl.CleanupKeepsEmailsUnique | server/acl.py:172-189 | Cleanup preserves "at most one active record per e-mail". |
| Acl.CleanupWithNothingExpired | server/acl.py:184-192 | When no record has expired, every record is still valid and the active list is unchanged. |
| Acl.SortNewestFirstSorted | server/acl.py:322 | The sort orders by `created`, newest first, and is a permutation. |
| Acl.SortNewestFirstStable | server/acl.py:322 | The sort is stable: records with equal `created` keep their relative order. |
| Acl.PrefixUpTo | server/acl.py:349 | `s[:limit]` is a prefix of `s`, of length `min(limit, len)` for a non-negative limit. For a negative limit it drops `-limit` items from the end. |
| Acl.TokensOfCorrect | server/acl.py:298-324 | For an empty e-mail the result is `[]`. Otherwise it is sorted newest first and holds exactly that address's records, tagged with their list. Ties keep active-before-expired, list order. |
| Acl.TokensOfMembers | server/acl.py:300-319 | The per-e-mail result holds exactly the records with that address, active ones tagged Active and expired ones tagged Expired. |
| Acl.HistoryCorrect | server/acl.py:327-349 | For a non-negative limit the history has exactly min(limit, total) entries. It is a prefix of the whole sorted list, so it is newest first and no entry left out is newer than one kept. Each entry comes from the list its tag names. |
| Acl.HistoryWithLargeLimit | server/acl.py:327-349 | With a limit covering both lists, the history is a permutation of all the tagged records. |
| Acl.PurgeCount | server/acl.py:357-371 | The purge keeps exactly the expired records with `expired_at` after the cutoff. The count is never negative. A zero count means nothing would change, so skipping the write is safe. |
| Acl.TagMatching | server/acl.py:305-319 | The tagging loop collects the records with the e-mail, in order, tagged with the list's status. |
| Acl.SplitExpired | server/acl.py:172-181 | The partition loop yields the still-valid records in order, and the expired ones stamped with `now`. |
| Acl.TokenStore.CreateToken | server/acl.py:96-119 | Creation drops the e-mail's earlier records and appends a record with the generated token, expiry `now + hours*3600` and creation `now`. The expired list is untouched. |
| Acl.TokenStore.ValidateToken | server/acl.py:122-139 | The result is True exactly when the token is non-empty and some active record has its upper-cased form with an expiry strictly after `now`. Expired-list records never validate. |
| Acl.TokenStore.EmailForToken | server/acl.py:142-162 | The lookup returns the e-mail of the first active record carrying the upper-cased token. If there is none, it returns that of the first such expired record, and otherwise None. |
| Acl.TokenStore.Cleanup | server/acl.py:165-192 | The new active list is the old records still valid at `now`, in order. The new expired list is the old one followed by the remaining records, stamped `expired_at = now`. |
| Acl.TokenStore.TokensForEmail | server/acl.py:298-324 | The loops and sort return exactly `TokensOf` of the two lists, and change neither list. |
| Acl.TokenStore.TokenHistory | server/acl.py:327-349 | The loops, sort and slice return exactly `History` of the two lists, and change neither list. |
| Acl.TokenStore.ClearOldExpired | server/acl.py:352-371 | The expired list becomes its records expired after `now - days*86400`, in order. The result is the number removed. The active list is untouched. |
| Acl.CreatedTokenValidates | server/acl.py:96-139 | A freshly created token validates, in upper or lower case, at any time from its creation until just before its expiry. |

## Left out

- Logging (`logger.*`), including the dry-run log lines. Only the content preview of `server/rag_utils.py:203` is modelled, by `Answer.Preview`.
- Text.Lower, Text.Upper: only ASCII letters change case, because Python's full Unicode case table is not modelled. For the extension tests this is exact: no character outside ASCII lower-cases to `.`, `m`, `d`, `t` or `x`. The lower-casing inside retrieval is part of the segmenter parameter.
- Acl.TokenStore.ValidateToken: upper-cases ASCII letters only. Python's `token.upper()` also maps `ı` to `I`, `ſ` to `S`, `ß` to `SS` and `ﬁ` to `FI`, so `"ıabcde"` validates against an active `IABCDE` record in the source but not in the model. A `None` token, which the source rejects like the empty string, is not modelled: the token is a string.
- Acl.TokenStore.EmailForToken: the same two differences as `ValidateToken`. A token that only Python's full upper-casing turns into a stored token finds its e-mail in the source but not in the model, and a `None` token, which gives `None` in the source, is not modelled.
- The `os.walk` traversal itself. The walk is given as a sequence of entries, already in walk order and with `dirs[:]` pruning expressed as "no hidden directory on the path". An exception raised while walking a directory tree, which returns `(None, False)`, is not modelled.
- The reading of files and its encoding errors. Each is the `content` of an entry, `None` when the read raises.
- Paths use the POSIX separator in `Text.Basename` and `Loader.RelPath`.
- jieba segmentation and the `\W+` regular expression are parameters. Chinese segmentation is not modelled.
- A `None` query to `retrieve_context` is not modelled, and the query is a string. The source would fall into its exception handler and return `[]`.
- The network call to the language model is a parameter returning an abstract outcome. An empty `choices` list, which Python reports as an unexpected error, is covered only in that any outcome may be `OtherError`.
- `API_TEMPERATURE` is a `real` constant that is only passed on. No floating-point behaviour is modelled.
- `init_token_storage`, `load_*` and `save_*` (JSON files, `os.path.exists`, swallowed I/O errors) become reading and assigning the two fields.
- The `.get` defaults of `server/acl.py` for missing keys are not modelled, except that a missing `expired_at` counts as 0. Records always have an e-mail, a token, an expiry and a creation time.
- The default arguments `limit=50` of `get_token_history` and `days=90` of `clear_old_expired_tokens` are not modelled: `Acl.TokenStore.TokenHistory` and `Acl.TokenStore.ClearOldExpired` take `limit` and `days` as required parameters.
- `random.choice` and `time.time()` are parameters. `create_token` reads the clock twice; the model uses one reading for both.
- `send_token_email` (SMTP and templating) is not modelled. It returns `(True, "display")` when mail is not configured and `(False, "display")` when sending raises.
- `server/wine_server.py` (HTTP routing) is not part of this model. Its lowercase `"knowledge base not loaded"` substring test cannot match the answer `Knowledge base not loaded.`, so that answer takes the generic branch.
- The clients, the web front end and `server/logger.py` are not part of this model.
