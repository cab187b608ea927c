# Jurifix correction core in Dafny

Jurifix is a Flask application that corrects the spelling and grammar of French
legal texts through a completion service. It does not reword them. This project models
its core, which all lives in `app.py`:

- **The correction pipeline of `POST /api/process-text`.**
  - HTML-mode detection: the input holds `<p>` or `<div>`.
  - The blank-text check, then the agent lookup.
  - The GDPR anonymiser, which runs four `re.sub` passes in a fixed order: names, e-mail addresses, French phone numbers, IBAN-like tokens.
  - The request sent to the service: the agent's model, the fixed system message, the filled-in template, temperature 0, and 3 response tokens per word.
  - The clean-up of the reply: `strip()`, then one layer of double quotes, then, independently, one layer of single quotes.
  - The rebuilding of HTML paragraphs.
  - The word count and the correction count.
- **The owner-scoped document table.**
  - The update that follows a successful correction.
  - `save_document`.
  - Creating, reading, updating and deleting single documents.
  - The paginated listing, newest first.
  - The dashboard's recent documents, their total of corrections and the list of entries it shows.
  - The `require_role` guard.

Modules:

- `Outcomes` holds `Option` and `Result`.
- `Text` holds Python's string primitives on `seq<char>`: `str.isspace`, `strip()`, `split()`, `split('\n')` and substring search.
- `Anonymiser` holds the four passes. Each pass is a left-to-right, non-overlapping scanner over a table of match lengths. Each regular expression's backtracking is worked out by hand in its own match-length function.
- `Pipeline` holds `process_text` as a pure function. The completion service and the BeautifulSoup text extractor are function-typed parameters. The elapsed time is an input.
- `Documents` holds the table: a class over a `map` from id to row, plus a logical clock that stands for `updated_at`. Its methods are the routes' writes. The listing and dashboard queries are functions over the rows. The dashboard's two Python loops are methods.
- `Access` holds the role guard.
- `Routes` holds the whole `process_text`: the pipeline, then the store update.
- `AnonymiserExamples` works through concrete texts: `Madame Durand`, `jean.dupont@example.fr`, `06 12 34 56 78`, `0612345678`, `FR76 1234`.

Behaviour of `app.py` worth knowing when reading the model:

- The quote clean-up is two independent `if`s. So `"'x'"` loses both layers, while `""x""` keeps one double-quote layer.
- The replacement tokens are `[nom]` (after the honorific, which is kept), `[email]`, `[téléphone]` and `[IBAN]`.
- `save_document` always stores a corrected text, `''` by default, even on a draft.
- The update after a correction silently skips a missing, empty or foreign document id. The request still succeeds.
- The word count is `len(texte_brut.split())`: `Le créanciers a tord.` counts 4 words.
- In HTML mode `corrections_count` compares the plain text with the rebuilt `<p>…</p>` string. So an HTML text returned unchanged still reports a correction (`Pipeline.UnchangedHtmlCountsOneCorrection`).

## Model

| member | source | states |
|---|---|---|
| Text.Strip | app.py:390 | the result is empty exactly when the text is all whitespace; otherwise it neither starts nor ends with whitespace |
| Text.StripKeepsAbsent | app.py:421 | a character absent from the reply is absent from its stripped form |
| Text.StripInvertsPadding | app.py:421 | stripping whitespace padding off a trimmed text gives that text back |
| Text.Words | app.py:438 | `split()`: every token is non-empty and has no whitespace |
| Text.WordCountIsRunCount | app.py:438 | the number of `split()` tokens is the number of maximal runs of non-whitespace characters |
| Text.WordsKeepEverythingButSpace | app.py:418 | joining the tokens gives the text with its whitespace removed, so no character is lost or invented |
| Text.SplitLines | app.py:432 | `split('\n')` yields at least one segment, and no segment holds a newline |
| Text.JoinSplitLines | app.py:432 | joining the segments with newlines gives the text back |
| Text.SplitJoinLines | app.py:432 | splitting newline-free segments joined by newlines gives the segments back |
| Text.SplitLinesAtNewline | app.py:432 | splitting at a newline gives the segments of each side, concatenated |
| Text.Contains | app.py:384 | `pat in s` holds exactly when `pat` occurs at some position of `s` |
| Anonymiser.RunLen | app.py:637-647 | a greedy `cls+` consumes a run of `cls` characters that the next character does not continue |
| Anonymiser.RunLenIs | app.py:637-647 | a run of `cls` followed by the end of the text or by a character outside `cls` is exactly what `RunLen` measures |
| Anonymiser.LastBoundary | app.py:641-647 | finds the largest position in a range where `\b` holds, or reports that the range has none |
| Anonymiser.HonorificsSound | app.py:637 | a non-zero length covers one of Monsieur, Mr, M., Madame, Mme, Mlle, compared case-insensitively |
| Anonymiser.HonorificsRecognised | app.py:637 | each of the six honorifics, in any case, is recognised with its own length |
| Anonymiser.SecondLetter | app.py:637 | a word matched at `i` fixes the letter after `i`, which tells the honorifics apart |
| Anonymiser.CoversAll | app.py:637-647 | a run of a character class reaches `b` exactly when every character before `b` is in the class |
| Anonymiser.NameEnd | app.py:637 | the longest `[A-Z][a-zéèêëàâäôöûüç]+` starting at `k`: it is a name, the next character cannot extend it, and every name there ends within it |
| Anonymiser.SpacesThenName | app.py:637 | whitespace followed by a name ends exactly where the whitespace run ends |
| Anonymiser.OneNameStarts | app.py:637 | in every one-name match the name starts where the whitespace after the honorific ends |
| Anonymiser.FirstNameStart | app.py:637 | where the first name can start after `\b`, an honorific and `\s+`; every one-name match starts its name there |
| Anonymiser.SecondNameEnd | app.py:637 | the optional second name: when present it is whitespace and a name, and every second name after the first ends within it |
| Anonymiser.OneNameSpans | app.py:637 | every one-name match ends within the longest name at the start found |
| Anonymiser.SpaceEndsName | app.py:637 | a name followed by whitespace is the longest name there |
| Anonymiser.TwoNameSpans | app.py:637 | every two-name match has its first name end where the longest first name ends, and ends within the longest second name |
| Anonymiser.NameMatch | app.py:637-638 | a non-zero length is a span of `\b`, an honorific, whitespace and one or two names; every such span at `i` ends within the match, so the match is the longest one |
| Anonymiser.NameMatchCoversHonorific | app.py:637-638 | a name match begins with an honorific and goes on past it |
| Anonymiser.HonorificAndNameAreFound | app.py:637-638 | an honorific at a word boundary, whitespace and a name, written out character by character, are matched at least that far |
| Anonymiser.AddressHead | app.py:641 | the `@` and the domain's closing dot of the head `\b local @ domain .`; every address at `i` has exactly these |
| Anonymiser.EmailMatch | app.py:641 | a non-zero length is an address between two word boundaries; every address at `i` ends within the match, so the match is the longest one |
| Anonymiser.AddressIsFound | app.py:641 | a local part, `@`, a domain, `.` and a non-empty suffix between word boundaries are matched at least that far |
| Anonymiser.PairEnd | app.py:644 | `[\s.-]?\d{2}` at `p` ends at `q` exactly when the result is `q` |
| Anonymiser.PhoneMatch | app.py:644 | a non-zero length is 10 to 14 characters and is a phone number between word boundaries; every phone span at `i` ends exactly at the match's end |
| Anonymiser.TenDigitPhoneIsFound | app.py:644 | `0`, a digit from 1 to 9 and eight digits between word boundaries are matched, all ten characters |
| Anonymiser.SpacedPhoneIsFound | app.py:644 | the separated form `0X XX XX XX XX` between word boundaries is matched, all fourteen characters |
| Anonymiser.IbanReach | app.py:647 | how far `[\s]?[\w\s]{4,30}` can reach: every IBAN span ends within it, and every word boundary from 8 characters on up to it ends one |
| Anonymiser.IbanMatch | app.py:647 | a non-zero length is an IBAN span (two capitals, two digits, 4 to 30 more, or 31 after a whitespace, between boundaries); every such span ends within the match, so the match is the longest one |
| Anonymiser.IbanIsFound | app.py:647 | two capitals and two digits at a boundary, then 4 to 30 word or whitespace characters up to a boundary, are matched at least that far |
| Anonymiser.PassWritesItsToken | app.py:641-647 | at its first match, the e-mail, phone and IBAN passes write `[email]`, `[téléphone]` and `[IBAN]` in its place and go on after it |
| Anonymiser.FirstMatchOfTable | app.py:636-649 | a scan from the start copies the text before the first match, writes its replacement and resumes after it |
| Anonymiser.ScanWithoutMatchCopies | app.py:636-649 | a scan with no match left copies the rest of the text |
| Anonymiser.ScanReplacesFirstMatch | app.py:636-649 | a scan copies the text up to the leftmost match, replaces that match and resumes after it |
| Anonymiser.NoMatchIsIdentity | app.py:636-649 | a pass that matches nowhere leaves the text unchanged |
| Anonymiser.SubAtFirstMatch | app.py:636-649 | a pass copies the text before its first match, puts the replacement in its place and goes on after it |
| Anonymiser.NamePassKeepsHonorific | app.py:637-638 | at the first name match, the honorific stays as written and only the name or names become `[nom]` |
| Anonymiser.EmailPassNeedsAt | app.py:641 | the e-mail pass leaves text without `@` unchanged |
| Anonymiser.PhonePassNeedsZero | app.py:644 | the phone pass leaves text without `0` unchanged |
| Anonymiser.IbanPassNeedsDigit | app.py:647 | the IBAN pass leaves text without digits unchanged |
| Anonymiser.PlainTextIsUntouched | app.py:634-649 | a text with no `m`, `M`, `@` or digit comes out of all four passes unchanged |
| Anonymiser.AnonymiseAfterNames | app.py:634-649 | the passes run in order on each other's output: if the name pass leaves no `@` and no digit, its output is the final result |
| AnonymiserExamples.NamesExample | app.py:637-638 | `Madame Durand` becomes `Madame [nom]` under the name pass |
| AnonymiserExamples.AnonymiseExample | app.py:634-649 | the full anonymiser turns `Madame Durand` into `Madame [nom]` |
| AnonymiserExamples.EmailsExample | app.py:641 | `jean.dupont@example.fr` becomes `[email]`: the domain ends at its last word boundary |
| AnonymiserExamples.PhonesExample | app.py:644 | `06 12 34 56 78` becomes `[téléphone]` |
| AnonymiserExamples.MobileExample | app.py:644 | `0612345678` becomes `[téléphone]` |
| AnonymiserExamples.IbansExample | app.py:647 | `FR76 1234` becomes `[IBAN]` |
| Pipeline.Prompt | app.py:404 | `prompt_template.format(texte)`: the template's text before the placeholder, the anonymised text, then the rest of the template, in that order and nothing else |
| Pipeline.Registry | app.py:343-369 | `AGENTS` holds one key, `jurifix`, whose agent runs on `gpt-4`, is open to `collaborateur` and carries the correction prompt |
| Pipeline.OnlyJurifixIsServed | app.py:393-394 | against `AGENTS`, a non-empty text for any agent but `jurifix` is answered "Agent non reconnu", and `jurifix` requests go to `gpt-4` |
| Pipeline.TagFreeTextIsPlain | app.py:384-388 | a text without `<` is not HTML and is corrected as it stands |
| Pipeline.TagMakesHtml | app.py:384-386 | a text holding `<p>` or `<div>` is HTML, and the extractor's text is what gets corrected |
| Pipeline.BuildRequest | app.py:404-418 | uses the agent's model and temperature 0; sends the system message and the template filled with the anonymised text; the token budget is 3 times that text's number of whitespace-separated runs |
| Pipeline.DropEnds | app.py:425 | `t[1:-1]`: the result is two characters shorter, or empty, and is the inside of `t` |
| Pipeline.StripQuotes | app.py:424-427 | the result is the middle of the text, with the same number of characters (at most two) removed from each end; unquoted text is unchanged |
| Pipeline.StripsDoubleQuotes | app.py:424-425 | `"x"` becomes `x` when `x` is not itself in single quotes |
| Pipeline.StripsDoubleAroundSingle | app.py:424-427 | `"x"` with `x` in single quotes becomes `x` without its ends, so `"'"` becomes empty |
| Pipeline.StripsOnlySingleLayer | app.py:426-427 | a text in single quotes but not double quotes loses exactly its first and last character |
| Pipeline.StripsDoubleThenSingle | app.py:424-427 | `"'x'"` becomes `x`: the single-quote test runs again after the double quotes are removed |
| Pipeline.StripsSingleQuotes | app.py:426-427 | `'x'` becomes `x` |
| Pipeline.StripsOneDoubleLayer | app.py:424-425 | `""x""` becomes `"x"`: only one layer of double quotes goes |
| Pipeline.LoneQuoteVanishes | app.py:424-427 | a lone `"` or a lone `'` becomes the empty string |
| Pipeline.CleanReplyUnquotes | app.py:421-427 | a reply made of a text in double quotes, itself not in single quotes, with whitespace around it comes back as that text |
| Pipeline.CleanReplyTrims | app.py:421-427 | a trimmed reply without quotes at its ends only loses its surrounding whitespace |
| Pipeline.NonBlank | app.py:433 | keeps every non-blank segment, and only those |
| Pipeline.NonBlankAppend | app.py:433 | filtering a concatenation filters each part |
| Pipeline.WrapAll | app.py:433 | the rebuilt HTML is seven characters longer per kept segment; `WrapAllAppend` and `ReassembleLine` fix those characters as `<p>` and `</p>` around it |
| Pipeline.WrapAllAppend | app.py:433 | wrapping a concatenation wraps each part |
| Pipeline.BlankLines | app.py:432-433 | a text is blank exactly when every segment of `split('\n')` is |
| Pipeline.AllBlankCons | app.py:432-433 | a list of segments is all blank exactly when its head and its tail are |
| Pipeline.Reassemble | app.py:430-434 | the rebuilt HTML is empty exactly when the corrected text is blank |
| Pipeline.SplitLinesOfLine | app.py:432 | a text without a newline splits into itself |
| Pipeline.ReassembleAtNewline | app.py:432-434 | the rebuilt HTML of `a + "\n" + b` is that of `a` followed by that of `b` |
| Pipeline.ReassembleLine | app.py:432-434 | a single line becomes `<p>line</p>`, or nothing if it is blank |
| Pipeline.Restructure | app.py:421-434 | a plain input gets the cleaned reply; an HTML input gets nothing exactly when the cleaned reply is blank, and `<p>reply</p>` for a one-line reply |
| Pipeline.CorrectionsCount | app.py:441-443 | 0 exactly when the two texts are equal; otherwise at least 1, at least the difference in word counts, and equal to 1 or to that difference |
| Pipeline.Process | app.py:376-472 | blank plain text gives 400, checked first; an unknown agent gives 400; a failed service call gives 500; on success: the agent's key, the plain text's word count, the correction count against the cleaned and possibly rebuilt reply, which is 0 exactly when nothing changed |
| Pipeline.RejectionsNeverCallCompletion | app.py:390-394 | a blank text or an unknown agent is rejected with 400 whatever the service or the clock would do |
| Pipeline.HtmlReplyIsOneParagraph | app.py:430-443 | in HTML mode a one-line reply comes back as `<p>reply</p>`, and the correction count is taken against that string |
| Pipeline.RestructuredHtmlIsNew | app.py:421-434 | the paragraphs rebuilt from a non-blank text never equal that text |
| Pipeline.ReassembledIsNotSource | app.py:421-434 | a non-blank text is never the `<p>` HTML rebuilt from its own cleaned form |
| Pipeline.ReassembleNoNewline | app.py:432-433 | the rebuilt HTML contains no newline |
| Pipeline.WrapAllNoNewline | app.py:433 | wrapping newline-free segments adds no newline |
| Pipeline.CleanReplyNoNewline | app.py:421-427 | cleaning a reply adds no newline |
| Pipeline.UnchangedHtmlCountsOneCorrection | app.py:430-443 | in HTML mode, any non-blank text the service returns unchanged still counts at least one correction, whatever its lines, whitespace or quotes |
| Documents.Draft | app.py:500-508 | a new row has status `draft`, zero counters and equal creation and update stamps |
| Documents.Owned | app.py:546-550 | the rows of a user are exactly those whose owner is that user |
| Documents.Newest | app.py:550 | picks a row whose `updated_at` no other row exceeds |
| Documents.NewestBeforeRest | app.py:550 | that row, put before a newest-first list of the others, gives a newest-first list of all of them |
| Documents.ByRecency | app.py:550 | `ORDER BY updated_at DESC`: each row once, and stamps never increase along the list |
| Documents.Listing | app.py:242-244 | a user's documents, all theirs and only theirs, newest first |
| Documents.ListingStrictlyNewestFirst | app.py:549-551 | with distinct stamps, the listing order is strict |
| Documents.ListingIsOwnersRows | app.py:549-550 | a document is listed for a user exactly when it is one of that user's rows |
| Documents.PageInRange | app.py:551 | the page count is the ceiling of items over page size; a page holds items exactly when its number is at most the page count |
| Documents.Paginate | app.py:546-557 | page numbers below 1 become 1 and sizes below 1 become 20; the page count is the ceiling; a page past the end is empty; items are the listing from offset `(page-1) * per_page` |
| Documents.FirstPagesArePrefix | app.py:551 | pages 1 to k, end to end, are the first k × per_page items of the listing, with nothing repeated or skipped |
| Documents.ListDocuments | app.py:546-557 | the listing's total is the user's number of documents, and every listed item is theirs |
| Documents.Recent | app.py:242-244 | the dashboard shows at most the ten newest documents of the listing, in order |
| Documents.SumCorrectionsAppend | app.py:247-250 | the total of corrections is additive over concatenation |
| Documents.SumCorrectionsFront | app.py:247-250 | the total of corrections is the first document's count plus the total over the others |
| Documents.SumCorrectionsBounds | app.py:247-250 | with non-negative counts, the total is non-negative and at least each document's count |
| Documents.TotalCorrections | app.py:247-250 | the loop sums the documents' correction counts, a null count counting as 0 |
| Documents.DashboardTotal | app.py:242-250 | the dashboard's total over its ten most recent documents is non-negative, at least each of their counts, and the total over all the user's documents when they have at most ten; its requirement of non-negative stored counts is part of `DocumentTable.Valid` |
| Documents.Summarize | app.py:265-275 | an entry keeps the id and any non-empty title, agent and status; an empty title, agent or status becomes `Sans titre`, `jurifix` or `draft`; null counters become 0 |
| Documents.RecentSummaries | app.py:264-276 | the loop yields one entry per recent document, in order |
| Documents.DocumentTable.constructor | app.py:66-85 | an empty table at time 0 |
| Documents.DocumentTable.Find | app.py:490 | `filter_by(id, user_id).first()`: a row is found exactly when it exists and belongs to the user |
| Documents.DocumentTable.Fetch | app.py:564-581 | `GET` returns exactly the stored row when it is the user's, or 404 for a missing or foreign one |
| Documents.DocumentTable.RecordCorrection | app.py:446-456 | an owned document gets the input, the corrected text, `completed` and the statistics; every other row is unchanged; a missing, empty or foreign id leaves the table unchanged |
| Documents.DocumentTable.Save | app.py:477-519 | a missing or foreign id gives 404 with no change; an owned id updates only title, content, corrected text and stamp, so status and agent are kept and an omitted field falls back to its default rather than its current value; without an id, a `draft` owned by the user is inserted |
| Documents.DocumentTable.Create | app.py:528-543 | inserts a `draft` owned by the user, with no corrected text and with the same defaults for missing fields |
| Documents.DocumentTable.Insert | app.py:508-510 | adds a row under a fresh id, or reports 500 when the id is taken and changes nothing |
| Documents.DocumentTable.Update | app.py:583-591 | a field absent from the request keeps its value; only title, content, status and stamp can change; 404 otherwise |
| Documents.DocumentTable.Delete | app.py:593-596 | removes exactly the owned document, or gives 404 with no change |
| Access.RequireRole | app.py:126-127 | a request passes exactly when the role is the required one or `admin`; otherwise 403 |
| Access.AdminPassesEverything | app.py:126 | `admin` passes every guard, and an `admin` guard admits nobody else |
| Routes.ProcessText | app.py:376-472 | the answer is the pipeline's over the given registry; a rejected or failed request leaves the table untouched; on success with an owned document that row alone is updated and the clock advances by one, otherwise nothing changes |

## Left out

- Flask plumbing is not modelled: routing, sessions, login, templates and JSON encoding, and the error handlers. Only the status codes are kept.
- Password hashing is not modelled. It is a foreign call.
- The completion service is a function-typed parameter. Its failures (an exception, or a reply without content) are its `None`. Retries are not modelled, and the source has none.
- BeautifulSoup's `get_text(separator='\n')` is a function-typed parameter. Only the detection predicate is specified.
- Wall-clock time is not modelled. `updated_at`/`created_at` are a logical clock. `processing_time` is an input. `round(…, 2)`, `time_saved`, `strftime`/`isoformat` and the monthly counts of the dashboard and `/api/stats` are not modelled.
- The default title `Document du …` depends on the date, so the caller supplies it as `defaultTitle`. The uuid4 of a new row is the `newId` parameter.
- `/api/stats`, `/api/agents`, `/api/profile`, the page routes and `User` are outside the modelled core. So are `CorrectionHistory` (declared, never written), the demo-data and health functions, `migrate_database.py` and `start_app.py`.
- `Documents.DocumentTable`: database transactions and commit failures are not modelled. The only 500 kept is an id collision on insertion.
- The `process_text` request is taken with its defaults (`texte` empty, agent `jurifix`) already applied. The document routes take absent fields as `None`. JSON `null` values and ids that are not strings are not modelled.
- The dashboard's total and recent-document counts are modelled. Its fallback to zeros on any exception is not, because the modelled code cannot raise.
- `Anonymiser.IsWordChar`: `\w` covers ASCII alphanumerics, `_`, the Latin-1 alphanumerics and Latin Extended-A. Other Unicode letters and digits are not word characters here.
- `Anonymiser.IsDigit`: `\d` is ASCII digits only.
- `Anonymiser.HonorificLen`: its own contract states only that the honorific lies inside the text. What it recognises is stated by `Anonymiser.HonorificsSound` and `Anonymiser.HonorificsRecognised`, which keep the six case-insensitive comparisons out of every proof that mentions the length.
- `Anonymiser.NameMatch`: IGNORECASE is ASCII case folding plus the listed accented capitals. The Unicode special folds (`ſ`, `ı`, the Kelvin sign) are not modelled.
- `Pipeline.Process`: the processing time in the response is the elapsed time as given, not rounded to two decimals.
- `Documents.Paginate` follows Flask-SQLAlchemy 3 with `error_out=False`, `max_per_page` unset and the count query on.
- `Documents.ListDocuments`: the response's `current_page`, which echoes the raw `page` argument even when it is below 1, is not modelled; only the items, the total and the page count are.
- `Routes.ProcessText` takes the agent registry as a parameter; `Pipeline.OnlyJurifixIsServed` states what `Pipeline.Registry()`, the table the application passes, implies for it.
