# Chat gateway sessions, PII masking and PDF page selection

This project models two small Python services:

- A chat gateway (`sageai-sample/main.py`). Its `/chat` endpoint keeps a
  module-level dict `chat_engines`, mapping a conversation id to a session
  `{engine, last_active}`. On every request the endpoint does four things in
  place:
  - it deletes sessions idle for more than an hour;
  - it evicts the least recently active session when 50 are cached and the
    conversation is new;
  - it builds an engine for a new conversation;
  - it stamps `last_active`.

  It then answers with the engine's reply passed through `mask_pii`, which
  redacts e-mail addresses, phone numbers and card numbers with three
  regular-expression substitutions.
- A PDF ingester (`pdfingest-sample/ingest_pdf.py`). `get_documents_from_pdf`
  looks a file up in the configuration, drops the cover page and the pages
  the configuration lists, and turns every remaining page into a document
  with `source`, `author`, `page_label` and `raw_page_no` metadata.
  `load_and_store_to_vector_batch` concatenates the documents of all files
  of a batch.

Modules:

- `Wrappers` (wrappers.dfy): `Option` and `Result`.
- `PiiMask` (pii_mask.dfy): the three patterns matched by hand, following
  the backtracking order of Python's `re`. `re.sub` is a left-to-right scan.
  `mask_pii` is the three passes composed.
- `Sessions` (sessions.dfy): the registry as a value. The value records the
  keys in dict insertion order, the table, and the number of factory calls
  so far. Each step of a request is a function, and the request properties
  are lemmas over these functions.
- `ChatEndpoint` (chat_endpoint.dfy): class `ChatEngines` performs the same
  steps in place on its fields, with the loops of the source. Each method
  is proved to produce the state the matching `Sessions` function
  describes. `HandleChat` is the whole endpoint.
- `PdfIngest` (pdf_ingest.dfy): the page filter, the document mapping, the
  configuration check, and the batch loop as a method.

Engine identity: the engine handle is opaque, so the model names each engine
by the number of the factory call that built it. `factoryCalls` counts the
calls, failed ones included. Two engines built by different calls are
therefore different.

Card numbers are not masked as cards. The name `CREDIT_CARD_REGEX` and the
token `[REDACTED_CC]` (sageai-sample/main.py:116, 121) suggest that a card
number such as `4111 1111 1111 1111` should come out as `[REDACTED_CC]`.
The code masks it as `[REDACTED_PHONE]`. The phone pattern
`\+?\d[\d\s-]{7,}\d` runs before the card pattern, and every text the card
pattern `\b(?:\d[ -]*?){13,16}\b` matches is also matched by the phone
pattern. So by the time the card pass runs, nothing is left for it to match.
The model follows the code and proves this:

- `PiiMask.CardPassIsInert`: the card pass returns the phone pass's output
  unchanged;
- `PiiMask.SpacedCardNumberIsMaskedAsPhone`: the example above comes out as
  `[REDACTED_PHONE]`.

## Model

| member | source | states |
|---|---|---|
| PiiMask.EmailMatch | sageai-sample/main.py:114 | a match of the e-mail pattern is non-empty, holds exactly one `@`, and every other character is one the pattern admits |
| PiiMask.PhoneMatch | sageai-sample/main.py:115 | a phone match is at least 9 characters long, ends on a digit, and holds only `+`, digits, whitespace and `-` |
| PiiMask.CardMatch | sageai-sample/main.py:116 | a card match holds only digits, spaces and `-`, starts with a digit, and has a digit at least 12 positions after its start |
| PiiMask.SubFrom | sageai-sample/main.py:119-121 | definition of one `sub` pass from a position on: scanning left to right, at each position either the pattern matches and its token replaces the match, or the character is copied; its properties are stated by `NoMatchIsIdentity`, `CopiedPrefix` and `LaterRuleSkipsToken` |
| PiiMask.Sub | sageai-sample/main.py:119-121 | definition of one whole `sub` pass, the scan from position 0; see `PlainTextPassesThrough`, `EmailPassLeavesNoEmail` and `PhonePassLeavesNoPhone` |
| PiiMask.MaskPii | sageai-sample/main.py:118-122 | definition of `mask_pii`: the e-mail, phone and card passes in source order; its properties are stated by `MaskPiiIsIdempotent`, `CardPassIsInert`, `MaskPiiIsEmailThenPhone` and `MaskPiiKeepsPlainText` |
| PiiMask.NoMatchIsIdentity | sageai-sample/main.py:119-121 | a substitution pass that finds no match from a position on copies the rest of the text unchanged |
| PiiMask.PlainTextPassesThrough | sageai-sample/main.py:119-121 | each of the three passes leaves text with no digit and no `@` unchanged |
| PiiMask.EmailPassNeedsAt | sageai-sample/main.py:119 | the e-mail pass leaves text without `@` unchanged |
| PiiMask.MaskPiiKeepsPlainText | sageai-sample/main.py:118-122 | `mask_pii` leaves text with no digit and no `@` unchanged |
| PiiMask.TokensHoldNoPatternChars | sageai-sample/main.py:119-121 | the three replacement tokens contain no digit, `@`, whitespace or `-` |
| PiiMask.LaterRuleSkipsToken | sageai-sample/main.py:119-121 | a phone or card match never overlaps a token inserted by an earlier pass: it ends before the token or starts after it |
| PiiMask.PhoneShapedRunIsMaskedAsPhone | sageai-sample/main.py:115-121 | a text that consists of one run of 9 or more digits, whitespace and dashes, starting and ending with a digit, masks to `[REDACTED_PHONE]` |
| PiiMask.SpacedCardNumberIsMaskedAsPhone | sageai-sample/main.py:114-122 | `mask_pii("4111 1111 1111 1111")` is `[REDACTED_PHONE]` |
| PiiMask.CardPassIsInert | sageai-sample/main.py:115-121 | the card pass, run on the phone pass's output, changes nothing |
| PiiMask.MaskPiiIsEmailThenPhone | sageai-sample/main.py:118-122 | `mask_pii` equals the e-mail pass followed by the phone pass |
| PiiMask.CopiedPrefix | sageai-sample/main.py:119-121 | up to the first `[` of its output, a pass has copied its input character by character |
| PiiMask.MatchAvoidsRange | sageai-sample/main.py:120-121 | a phone or card match never reaches into a stretch of characters other than digits, whitespace, `+` and `-`: it ends before the stretch or starts after it |
| PiiMask.PassLeavesNoEmailShape | sageai-sample/main.py:119-120 | a pass that copies no position where the e-mail pattern matches leaves no text the e-mail pattern could match |
| PiiMask.EmailPassLeavesNoEmail | sageai-sample/main.py:119 | after the e-mail pass the e-mail pattern matches nowhere in the text |
| PiiMask.PhonePassAddsNoEmail | sageai-sample/main.py:120 | the phone pass creates no e-mail address in text that held none |
| PiiMask.PhonePassLeavesNoPhone | sageai-sample/main.py:120 | after the phone pass the phone pattern matches nowhere in the text |
| PiiMask.MaskPiiIsIdempotent | sageai-sample/main.py:118-122 | masking already-masked text changes nothing: `mask_pii(mask_pii(s)) == mask_pii(s)` |
| Sessions.IsStale | sageai-sample/main.py:135 | definition of the stale test: idle for strictly more than `INACTIVITY_TIMEOUT` (3600) seconds; see `ExpireKeepsExactlyTheLive` |
| Sessions.StaleKeys | sageai-sample/main.py:135 | definition of the keys the comprehension collects: those whose session is stale; see `ChatEngines.CollectStale` and `DeletedStaleIsExpire` |
| Sessions.WithoutAppend | sageai-sample/main.py:135-141 | deleting keys keeps the survivors in dict order: deleting from a concatenation deletes from each part and keeps the parts in order |
| Sessions.Expire | sageai-sample/main.py:135-136 | an entry survives the expire pass exactly when it is not stale; survivors keep their values; the invariant holds and the table does not grow |
| Sessions.DeletedFromStep | sageai-sample/main.py:136 | deleting one more present key extends the set of deleted keys by it: exactly those keys are gone, from table and order, and the rest is untouched |
| Sessions.DeletedStaleIsExpire | sageai-sample/main.py:135-136 | deleting the stale keys one by one leaves exactly the registry the expire pass describes |
| Sessions.ExpireKeepsExactlyTheLive | sageai-sample/main.py:135-136 | after the expire pass no entry has `now - last_active > INACTIVITY_TIMEOUT`, and every entry at the timeout exactly or younger is kept unchanged |
| Sessions.OldestIndex | sageai-sample/main.py:140 | the chosen entry has the smallest `last_active`, and every entry inserted before it has a strictly larger one (ties go to the earliest inserted, as with `min`) |
| Sessions.Remove | sageai-sample/main.py:141 | deleting a present key removes exactly that key, shrinks the table by one and keeps the invariant |
| Sessions.MustEvict | sageai-sample/main.py:139 | definition of the capacity guard: the table holds at least `MAX_SESSIONS` (50) entries and the key is absent; see `MakeRoom` and `CapacityPassEvictsOldest` |
| Sessions.Victim | sageai-sample/main.py:140 | the key `min(...)[0]` picks is a key of the table; it is the one at `OldestIndex`, whose contract states the first-minimum choice |
| Sessions.MakeRoom | sageai-sample/main.py:139-141 | the capacity pass removes one entry when the table holds at least 50 and the key is absent, and none otherwise; it never removes the requesting key |
| Sessions.CapacityPassEvictsOldest | sageai-sample/main.py:139-141 | when the capacity pass evicts, it removes exactly one entry, the one at `OldestIndex`: the minimal `last_active`, ties going to the earliest inserted; otherwise the registry is unchanged |
| Sessions.Touch | sageai-sample/main.py:151 | stamping `last_active` keeps the invariant and the table size |
| Sessions.Create | sageai-sample/main.py:144-148 | inserting a new session puts the key last in insertion order, with the new factory call's engine and `last_active == now`, leaves every other entry as it was, keeps the invariant and grows the table by one |
| Sessions.AppendKeepsValid | sageai-sample/main.py:145-148 | inserting an absent key with an engine from a new factory call puts it last in insertion order, keeps every key listed once and every engine distinct, and grows the table by one |
| Sessions.CreatedEngineIsFresh | sageai-sample/main.py:145-148 | the engine of a new session is the new factory call's, and no other cached session holds it |
| Sessions.Resolve | sageai-sample/main.py:135-151 | the registry steps of a request keep the registry invariant: insertion order matches the keys, and engines are distinct and come from earlier factory calls |
| Sessions.Admit | sageai-sample/main.py:144-151 | create-if-missing and touch keep the registry invariant |
| Sessions.ResolveKeepsCapacity | sageai-sample/main.py:135-148 | a registry with at most 50 entries before a request has at most 50 after it, whether or not the factory raises |
| Sessions.NewKeyAtCapacityEvictsOne | sageai-sample/main.py:139-148 | a new key arriving when 50 live entries remain costs exactly one eviction: the table ends at 50 and holds the key |
| Sessions.LiveKeyIsReused | sageai-sample/main.py:139-151 | a key still present after expiry reuses its engine: no factory call, no eviction, the order is unchanged, and only its `last_active` changes, to `now` |
| Sessions.ResolveStampsKey | sageai-sample/main.py:144-151 | the factory is called exactly when the key was absent after expiry; unless it raised, the key ends present with its engine and `last_active == now` |
| Sessions.AdmitStampsKey | sageai-sample/main.py:144-151 | create-if-missing and touch call the factory exactly when the key is absent, return an engine unless the factory raised, and then leave the key holding that engine with `last_active == now` |
| Sessions.NewEngineIsUnshared | sageai-sample/main.py:144-150 | a freshly built engine differs from the engine of every other cached conversation |
| Sessions.SetupFailureLeavesNoEntry | sageai-sample/main.py:135-148 | if the factory raises, no entry is inserted for the key, yet the expire and capacity passes have taken effect |
| ChatEndpoint.ChatEngines.constructor | sageai-sample/main.py:97 | the registry starts empty |
| ChatEndpoint.ChatEngines.Delete | sageai-sample/main.py:141 | `del` leaves the state `Sessions.Remove` describes |
| ChatEndpoint.ChatEngines.CollectStale | sageai-sample/main.py:135 | the collected list holds each stale key once, and only stale keys |
| ChatEndpoint.ChatEngines.DeleteAll | sageai-sample/main.py:136 | deleting the listed keys one by one removes exactly them from table and order and changes nothing else |
| ChatEndpoint.ChatEngines.ExpireStale | sageai-sample/main.py:135-136 | the in-place expire pass leaves the state `Sessions.Expire` describes |
| ChatEndpoint.FirstOldest | sageai-sample/main.py:140 | the scan `min` performs ends on the position `Sessions.OldestIndex` describes: the first entry, in insertion order, with the smallest `last_active` |
| ChatEndpoint.ChatEngines.OldestKey | sageai-sample/main.py:140 | the key `min` returns is the entry the capacity pass must evict, `Sessions.Victim` |
| ChatEndpoint.ChatEngines.EvictForCapacity | sageai-sample/main.py:139-141 | the in-place capacity pass leaves the state `Sessions.MakeRoom` describes |
| ChatEndpoint.ChatEngines.CreateOrTouch | sageai-sample/main.py:144-151 | create-if-missing and touch leave the state and engine `Sessions.Admit` describes |
| ChatEndpoint.ChatEngines.Resolve | sageai-sample/main.py:135-151 | the in-place registry steps of a request leave the state and engine `Sessions.Resolve` describes |
| ChatEndpoint.ChatEngines.HandleChat | sageai-sample/main.py:130-165 | on success the caller gets the masked reply and the audit record holds only the masked query and reply; if `chat` raises, the caller gets 500 "Chat error" and no audit record is written; the registry is stepped either way |
| PdfIngest.Kept | pdfingest-sample/ingest_pdf.py:93 | definition of the filter condition: the page is not page 0 and its one-based number is not in `skip_pages`; see `KeptPages`, `KeptPagesCount` and `NoDocumentFromDroppedPage` |
| PdfIngest.KeptPages | pdfingest-sample/ingest_pdf.py:91-94 | a page is kept exactly when its page number is not 0 and `page + 1` is not in `skip_pages` |
| PdfIngest.KeptPagesAppend | pdfingest-sample/ingest_pdf.py:91-94 | filtering preserves page order: filtering a concatenation concatenates the filtered parts |
| PdfIngest.KeptPagesCount | pdfingest-sample/ingest_pdf.py:91-94 | a kept page occurs in the output as often as in the input; a dropped page does not occur |
| PdfIngest.ToDocument | pdfingest-sample/ingest_pdf.py:97-105 | definition of the document built from one page; the fields it carries are stated by `DocumentsFollowKeptPages` |
| PdfIngest.DocumentsOf | pdfingest-sample/ingest_pdf.py:96-107 | one document per kept page |
| PdfIngest.DocumentsFollowKeptPages | pdfingest-sample/ingest_pdf.py:96-107 | the i-th document carries the i-th kept page's text and page number, the configured title and author, and the page's label or `"na"` |
| PdfIngest.DocumentsOfAppend | pdfingest-sample/ingest_pdf.py:91-107 | the documents of a concatenation of pages are the concatenated documents, in order |
| PdfIngest.NoDocumentFromDroppedPage | pdfingest-sample/ingest_pdf.py:91-107 | no document has raw page 0 or a listed page number, and each comes from a kept input page |
| PdfIngest.KeptPageYieldsDocument | pdfingest-sample/ingest_pdf.py:91-107 | every page with `page != 0` and `page + 1` not listed yields its document |
| PdfIngest.CoverAndListedPagesAreDropped | pdfingest-sample/ingest_pdf.py:91-107 | three pages with page 2 listed in `skip_pages` give one document, for the third page, labelled `"na"` |
| PdfIngest.DocumentsFromPdf | pdfingest-sample/ingest_pdf.py:84-110 | a file missing from the configuration fails with "missing configuration for file …"; otherwise the result has one document per kept page |
| PdfIngest.BatchDocuments | pdfingest-sample/ingest_pdf.py:64-66 | definition of the batch's documents: those of each file, concatenated in list order; see `BatchDocumentsAppend`, `RepeatedFileIsIngestedTwice` and `CollectDocuments` |
| PdfIngest.BatchDocumentsAppend | pdfingest-sample/ingest_pdf.py:64-66 | the documents of a batch are those of its parts concatenated, with nothing deduplicated or reordered |
| PdfIngest.RepeatedFileIsIngestedTwice | pdfingest-sample/ingest_pdf.py:64-66 | a file listed twice contributes its documents twice |
| PdfIngest.CollectDocuments | pdfingest-sample/ingest_pdf.py:64-66 | the batch succeeds exactly when every file is configured and then holds every file's documents in list order; otherwise it fails with the error of the first unconfigured file |

## Left out

- The FastAPI app, router, `/health` and the API-key header check (sageai-sample/main.py:47-53, 167-175): framework plumbing outside the endpoint's logic.
- The internals of `setup_chat_engine` and the engine's `chat` call: these are foreign libraries and the network. The model replaces them with parameters: whether the factory raises (`setupFails`) and what `chat` answers (`EngineReply`).
- ChatEndpoint.ChatEngines.HandleChat: an exception raised by the factory propagates out of the endpoint. The model returns `SetupRaised` for it and does not model the framework's response.
- ChatEndpoint.ChatEngines.HandleChat: an exception raised inside the `try` block other than by `chat`, for example by logging, is not modelled. The `logger.error` line and the JSON serialisation are not modelled either. The latency field is left out of the audit record because it is floating-point.
- `time()` returns a float. Timestamps are modelled as integers, and nothing in the registry logic depends on float rounding.
- Concurrency: the endpoint runs on a thread pool without a lock. Each request is modelled as one sequential step, and nothing is claimed about concurrent requests.
- PiiMask.IsDigit: Python's `\d` on `str` also matches non-ASCII decimal digits. The model matches only `0`-`9`.
- PiiMask.IsWordChar: Python's `\w` also matches non-ASCII letters and digits. For `\b`, the model treats only ASCII letters, digits and `_` as word characters.
- Reading `pdf_config.json`: a missing configuration file raises `FileNotFoundError`, which is not modelled. The configuration is a parameter and stays the same for a whole batch, although the source re-reads it for every file.
- PDF loading, Pinecone index creation, the sentence-window node parser, `insert_nodes` and `main` (pdfingest-sample/ingest_pdf.py:27-55, 68-79, 112-130): file, SDK and network I/O. The loader is a function from file name to its pages.
- PdfIngest.LoadedPage: a page is assumed to always carry an integer `page`. Without one the source's `None + 1` raises `TypeError`.
- PdfIngest.LoadedPage: a `page_label` that is present but `None` is not distinguished from a missing one.
- PdfIngest.PdfConfig: a configuration entry is assumed to carry `title`, `author` and a list `skip_pages`. Without them the source raises `KeyError`.
