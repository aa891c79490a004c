# WinkLink identity, transcript and common-file helpers in Dafny

This project models the helper logic of WinkLink's single-file Flask app
`app.py`, the backend of the WINK teaching assistant. Instructors register with
an e-mail and get a URL slug. Students chat with the assistant, which keeps a
bounded transcript in the session. A shared "common" vector store holds files
for every instructor, and the file manager lists their names.

The model covers:

- **Identity** (`identity.dfy`). `_clean_email` trims an address and lower-cases
  it. `_slugify_base` keeps the `[a-z0-9]` characters of lower-cased text,
  truncates them to 32 and falls back to `"instructor"`. `_unique_slug` takes
  the slug base of the part before the first `@`. When that base is already
  stored, it appends a six-digit hexadecimal suffix, once. The database query
  becomes a set of stored slugs. The `uuid4().hex[:6]` suffix becomes a
  parameter.
- **Python string semantics** (`text.dfy`): `str.strip()`, `str.lower()` and the
  character class of the slug pattern. `string_order.dfy` gives Python's
  ordering of strings by code point and `sorted(set(names))`, with a proof that
  the result depends only on which names occur.
- **Transcript** (`transcript.dfy`). `_safe_session_list` reads a session slot
  and yields `[]` unless it holds a list. `_trim_history` keeps the newest
  `max_messages` entries. Python's slice rules are kept exactly: with bound 0,
  `history[-0:]` is the whole list; with a negative bound, the oldest entries are
  dropped instead.
- **Common files** (`common_files.dfy`). `get_common_filenames` returns `[]`
  without a configured store or when the listing fails. Otherwise it walks the
  listed items in a loop. An item's own non-empty `filename` comes first.
  Failing that, the item's `id` or `file_id` is used for a metadata lookup. An
  item whose lookup fails is skipped. The result is sorted and de-duplicated.
  The HTTP listing is an input that is either a list or a failure. The metadata
  request is a function from file id to an optional filename.

The `slug` column is declared unique (app.py:92), yet `_unique_slug` never
looks up the suffixed slug. `ChosenSlugMayCollide` shows that the suffixed slug
can collide, and the model follows the code. `ChosenSlugFreeIff` states exactly
when the chosen slug is free.

## Model

| member | source | states |
|---|---|---|
| Identity.CleanEmail | app.py:122-123 | the cleaned address has no whitespace at either end and no capital letter |
| Identity.CleanEmailIdempotent | app.py:122-123 | cleaning a cleaned address changes nothing |
| Identity.SlugifyBase | app.py:125-128 | every slug base is non-empty, at most 32 characters, and made only of `a-z` and `0-9` |
| Identity.SlugifyBaseCharacterised | app.py:125-128 | the base is `"instructor"` when the lower-cased text has no `[a-z0-9]` character; otherwise it is the first min(n, 32) of those characters, in input order |
| Identity.SlugifyBaseIdempotent | app.py:125-128 | slugifying a slug base returns it unchanged |
| Identity.LocalPart | app.py:131 | the result is the prefix of the address before its first `@`, or the whole address when it has no `@` |
| Identity.ChosenSlug | app.py:130-135 | a free base is kept; a taken base gets the suffix appended, so the result differs from the base and is 6 longer; the result is always 1 to 38 characters of `[a-z0-9]` |
| Identity.ChosenSlugFreeIff | app.py:133-134 | the chosen slug is free exactly when the base is free or the suffixed base is free |
| Identity.ChosenSlugMayCollide | app.py:133-134 | for every address and suffix, some store holds both candidates, and then the chosen slug is already stored |
| Identity.UniqueSlug | app.py:130-135 | the method, which reassigns `slug` once after the lookup, returns the slug `ChosenSlug` describes |
| Text.Strip | app.py:123 | `str.strip()` leaves no whitespace at either end |
| Text.StripSplit | app.py:123 | the stripped string is a slice of the input with only whitespace cut off on both sides |
| Text.Lower | app.py:123 | `str.lower()` leaves no modelled capital letter |
| Text.LowerKeepsTrimmed | app.py:123 | lower-casing a trimmed string never puts whitespace at its ends |
| Text.KeepSlugChars | app.py:127 | removing every `[^a-z0-9]+` run leaves only slug characters and never lengthens the text |
| Text.StripIrrelevantToSlugChars | app.py:126-127 | stripping before lower-casing and filtering does not change the surviving slug characters |
| Transcript.SafeSessionList | app.py:137-139 | a stored list is returned as it is; a missing key or a non-list value gives `[]` |
| Transcript.SliceFrom | app.py:142 | Python's `s[start:]` is the suffix of length min(-start, n) for a negative start and max(n - start, 0) otherwise |
| Transcript.TrimHistory | app.py:141-142 | the result is a suffix of the history, in order; a history within the bound is returned unchanged; for a bound m >= 1 the length is min(n, m) |
| Transcript.TrimHistoryZeroKeepsAll | app.py:142 | with bound 0 the whole history is kept, because `history[-0:]` is `history[0:]` |
| Transcript.TrimHistoryNegativeDropsOldest | app.py:142 | with a negative bound the oldest `-m` entries are dropped |
| Transcript.TrimHistoryIdempotent | app.py:141-142 | trimming twice with the same non-negative bound equals trimming once |
| Transcript.TrimHistoryAbsorbsAppend | app.py:141-142 | trimming, appending and trimming again equals appending and then trimming once |
| Transcript.AppendEachIsTrimOfAll | app.py:141-142 | trimming after each appended turn equals one trim of the whole transcript |
| Transcript.TranscriptBound | app.py:141-142 | after n turns are appended to an empty transcript, with a trim after each, exactly the newest min(n, 30) turns remain, in their original order |
| StringOrder.SortedUnique | app.py:224 | `sorted(set(names))` is strictly increasing in code-point order and holds exactly the strings of `names` |
| StringOrder.StrictlySortedDetermined | app.py:224 | two strictly sorted sequences holding the same strings are equal |
| StringOrder.SortedUniqueDependsOnlyOnSet | app.py:224 | the sorted de-duplicated names depend only on which names occur, not on their order or repetition |
| CommonFiles.FileIdOf | app.py:213 | the file id is non-empty exactly when `id` or `file_id` is non-empty, and `id` wins when it is non-empty |
| CommonFiles.ItemName | app.py:213-223 | an item's own non-empty filename is used; otherwise a name exists exactly when the item has a file id and its lookup returns a non-empty filename; a contributed name is never empty |
| CommonFiles.Collected | app.py:211-223 | the collected list has at most one name per item, and no name is empty |
| CommonFiles.CollectedMembers | app.py:212-223 | a name is collected exactly when some item contributes it |
| CommonFiles.FailedLookupDropsOnlyThatItem | app.py:217-223 | an item without a filename whose lookup fails is skipped, and every other item contributes what it would without it |
| CommonFiles.FilenameTakesPrecedence | app.py:214-216 | when every item has its own filename, the metadata lookup has no effect on the names |
| CommonFiles.CommonFilenames | app.py:206-226 | the result is `[]` without a configured store or when the listing fails; otherwise it is the sorted de-duplicated set of collected names: strictly increasing, never empty strings, and each name is there exactly when some item contributes it |

## Left out

- The Flask app, its configuration and environment loading (app.py:43-80), and the local run (app.py:242-243). This is process plumbing. The normalisation of `WINK_VECTOR_STORE_ID` (app.py:51-54) is not modelled. Instead the common store id is an optional string, and an empty id counts as unconfigured, as `not COMMON_VECTOR_STORE_ID` does.
- The SQLAlchemy models `Instructor` and `InstructorFile` (app.py:86-112) are declarations with no logic. The single query the helpers make (app.py:133) is a set of stored slugs.
- `OpenAIHttp` (app.py:148-204) and `_require_requests` (app.py:118-120) are network and file I/O. The listing and the per-file metadata request appear only through their results. Because the listing is an input, the `limit=100` page size of the request is not modelled.
- `uuid.uuid4()` (app.py:134) is randomness. The six hexadecimal digits are a parameter.
- The chat logic, routes and templates are not in the file (app.py:232-236 is a placeholder). `Transcript.AppendEach` stands for trimming after each appended turn. It describes how the helper is meant to be used, not code that can be read here.
- Text.Lower: only ASCII capitals, Latin-1 capitals, U+0130 and the Kelvin sign U+212A are lower-cased. These are all the characters whose lower-case form holds an ASCII letter, so slug bases are exact. For other scripts, `CleanEmail` differs from Python's `str.lower()`, and "no capital letter" means no capital in that set.
- Python values of the wrong type are not modelled. Examples: a `None` argument (the model's empty string is the same as `email or ""`), a listing item that is not a dictionary, or a filename that is not a string. In the source, an exception raised inside the outer `try` of `get_common_filenames` by such a value also yields `[]`. Session list elements are values of any type `T`.
- Transcript.TrimHistory: the length min(n, m) is stated only for a bound m >= 1. For m <= 0 Python's slice rules give other lengths, and `TrimHistoryZeroKeepsAll` and `TrimHistoryNegativeDropsOldest` state those.
