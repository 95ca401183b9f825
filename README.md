# Searchable image repository: tag and record bookkeeping

Two near-identical command-line scripts, `keith_data_intern_project_3.py` and
`keith_data_intern_project_2.py`, keep a searchable repository of encrypted images. For each
image they keep a table row with seven text columns: name, ciphertext, keywords, features,
access, password and identifier. This project models the bookkeeping around that table and
proves its properties:

- how an answer typed at the keyword or feature prompt is normalised (split on `,`, every piece
  stripped, joined again);
- the access-permission prompt of each script: in the third script it decides `public` or
  `private`; in the second it always leaves `private`;
- how `image_data` builds a record: the name is the basename without the extension, and the
  password is the constant `12345`;
- the store loop `store_images`:
  - it filters candidates by a case-sensitive extension list;
  - it skips a candidate whose name occurs *inside* a name already in the table, including rows
    added earlier in the same batch;
  - it appends the other candidates in order;
  - it writes the table once;
- `search_images`: lower-cased, stripped query terms are compared exactly with the
  comma-separated tokens of a column;
- the key file, which is absent or holds one key.

The user's answers are a sequence of strings read through a cursor. When that sequence runs out,
Python's `input()` raises `EOFError`; the model gives `EndOfInput` there, and a store that hits it
ends without writing the table. The ciphertext and the `uuid4` identifier of candidate `i` come
from a function `draw`. The key that `Fernet.generate_key()` would produce is a parameter
`generated`. The directory listing `glob` returns and the `isfile` test are parameters too.

Modules:

- `Text`: Python's `strip`, `lower`, `split`, `join`, substring containment, and POSIX
  `basename`/`splitext`.
- `Records`: the row and the name and extension of a path.
- `Dialog`: the answer stream and both permission prompts.
- `Tags`: tag normalisation.
- `Ingest`: `image_data` of each script, as functions.
- `Store`: the store loop, as a function of the table and the candidates.
- `Search`: the matching rule.
- `Storage`: the key file and the table file, as classes.
- `ProjectThree`, `ProjectTwo`: the per-script prompt code, as methods with loops.
- `Repository`: `store_images` and `search_images` as methods over the two files. Both scripts
  share this code except for one `print`, and they differ in which `image_data` they call.

Two consequences of the code are easy to miss:

- The duplicate check is substring containment: with `doggo` in the table, `dog.png` is skipped
  (`Store.SubstringNameSkipped`).
- `''.split(',')` is `['']`, so the empty query finds every row whose column has an empty token
  (`Search.EmptyQueryFindsEmptyToken`).

## Model

| member | source | states |
|---|---|---|
| Text.StripCutsOnlySpace | keith_data_intern_project_3.py:143 | `strip()` removes whitespace only, and only at the two ends: the input is leading whitespace, the result, then trailing whitespace; the result is empty or starts and ends with no whitespace |
| Text.StripIdempotent | keith_data_intern_project_3.py:143 | stripping a stripped string changes nothing |
| Text.StripKeepsCharacters | keith_data_intern_project_3.py:143 | every character of a stripped string was in the string |
| Text.StripUnpadded | keith_data_intern_project_3.py:143 | a string that neither starts nor ends with whitespace is its own strip |
| Text.LowerHasNoUpper | keith_data_intern_project_3.py:185 | `lower()` leaves no upper-case letter |
| Text.LowerUnchanged | keith_data_intern_project_3.py:185 | a string without upper-case letters is its own lower-case form |
| Text.Split | keith_data_intern_project_3.py:142 | `split(',')` always yields at least one piece, so `''` gives `['']` |
| Text.SplitPieces | keith_data_intern_project_3.py:142 | no piece of a split holds the separator, and every character of a piece comes from the input |
| Text.JoinSplit | keith_data_intern_project_3.py:142-143 | joining the pieces of a split with the same separator gives the input back |
| Text.SplitJoin | keith_data_intern_project_3.py:142-143 | splitting a join of separator-free pieces gives the pieces back, empty pieces included |
| Text.SplitNoSeparator | keith_data_intern_project_3.py:142 | a string without the separator splits into itself alone |
| Text.SplitAfterPiece | keith_data_intern_project_3.py:142 | a string that starts with a separator-free piece and then the separator splits into that piece followed by the split of the rest |
| Text.AfterLast | keith_data_intern_project_3.py:118-119 | the position after the last occurrence of a character: no occurrence follows it, and the character sits just before it |
| Text.SplitExtShape | keith_data_intern_project_3.py:118 | `splitext` cuts the path in two, and the two parts put together give the path back; the extension is empty, or it is a `.` followed by neither `.` nor `/`; it is empty exactly when the last component has no `.`, or only dots before its last `.` |
| Records.NameIsBasenameWithoutExtension | keith_data_intern_project_3.py:118-119 | the image name followed by the extension is the basename of the path, and the name holds no `/` |
| Records.AcceptedNameNonEmpty | keith_data_intern_project_3.py:118-119 | a path with an accepted extension has a non-empty image name |
| Dialog.Read | keith_data_intern_project_3.py:46-47 | reading gives the answer at the cursor and moves past it, or the end of the input exactly when no answer is left |
| Dialog.Permission | keith_data_intern_project_3.py:105-110 | the third script's permission answer is only ever `public` or `private`, and it consumes at least one answer and no more than there are |
| Dialog.PermissionDecidedByFirstYesOrNo | keith_data_intern_project_3.py:105-110 | the input runs out exactly when no later answer reads `y` or `n` once lower-cased and stripped; otherwise the first such answer ends the prompt, every answer before it is consumed and ignored, and the result is `public` exactly when that answer reads `y` |
| Dialog.PermissionEndsWhenNoneDecisive | keith_data_intern_project_3.py:105-110 | the prompt runs out of input exactly when no remaining answer is `y` or `n` |
| Dialog.PermissionStopsAtFirstDecisive | keith_data_intern_project_3.py:105-110 | the prompt stops at the first answer that is `y` or `n`, and at none before it |
| Dialog.PermissionPublicOnYes | keith_data_intern_project_3.py:107-110 | the answer is `public` exactly when the deciding answer reads `y` |
| Dialog.RepromptKeepsAccess | keith_data_intern_project_2.py:122-128 | the second script's `while` loop never changes the access value it started with; it stops at once when the current answer is `y` or `n`, and otherwise at the first later answer whose lower-cased form, unstripped, is `y` or `n`; it runs out of input exactly when there is no such answer |
| Dialog.AccessTwoAlwaysPrivate | keith_data_intern_project_2.py:109-128 | the second script's permission prompt always yields `private`; it takes one answer when that answer, lower-cased and stripped, is `y` or `n`, and otherwise stops at the first later answer whose lower-cased form is `y` or `n`; it runs out of input exactly when there is no such answer |
| Dialog.YesAnswerDiffers | keith_data_intern_project_2.py:121-128 | the answer `y` makes the third script store `public` and the second `private` |
| Dialog.RepromptedAnswerNotStripped | keith_data_intern_project_2.py:128 | a re-prompted ` y` is not stripped: the second script keeps asking, while the third script accepts it |
| Tags.GetInputList | keith_data_intern_project_3.py:142-143 | `get_input_list` reads exactly one answer and returns it normalised, or fails exactly when no answer is left |
| Tags.StripAllAt | keith_data_intern_project_3.py:143 | mapping `strip` over the pieces keeps their number, and element `i` is piece `i` stripped |
| Tags.NormalizeKeepsPieces | keith_data_intern_project_3.py:142-143 | splitting a normalised answer on `,` gives as many pieces as splitting the answer, and piece `i` is the answer's piece `i` stripped; empty pieces are kept |
| Tags.NormalizeIdempotent | keith_data_intern_project_3.py:142-143 | normalising a normalised answer changes nothing |
| Tags.StripAllIdempotent | keith_data_intern_project_3.py:143 | stripping every piece twice is stripping them once |
| Tags.NormalizeSingleLetter | test_keith_data_intern_project_2.py:42-43 | the answer `n` normalises to `n` |
| Ingest.ThreeCompletesExactlyWhen | keith_data_intern_project_3.py:126-134 | the third script builds a record exactly when there are keyword and feature answers and, after them, an answer reading `y` or `n` |
| Ingest.RecordOfThree | keith_data_intern_project_3.py:118-134 | the third script's record is named after the extension-less basename, holds the drawn ciphertext and identifier, keywords from the first answer and features from the second, both normalised, and the password `12345`; the access is `public` or `private`, decided by the first later answer reading `y` or `n`, with every answer in between ignored |
| Ingest.RecordOfTwo | keith_data_intern_project_2.py:104-150 | the second script's record is named after the extension-less basename, holds the drawn ciphertext and identifier, keywords from the first answer and features from the answer right after the one that ends the permission prompt, both normalised, access `private` and the password `12345` |
| Ingest.TwoCompletesExactlyWhen | keith_data_intern_project_2.py:115-136 | the second script builds a record exactly when there is a keyword answer, the permission prompt after it ends, and one more answer follows for the features |
| Ingest.RecordOfEither | keith_data_intern_project_3.py:126-134 | both scripts give the record the path's name, the constant password, the drawn ciphertext and the drawn identifier, and they consume answers from the cursor on |
| Ingest.BestImageName | test_keith_data_intern_project_2.py:41 | `./best_image.png` has the extension `.png` and the name `best_image` |
| Ingest.BestImageAllNo | test_keith_data_intern_project_2.py:29-44 | with every answer `n`, `./best_image.png` gives name `best_image`, keywords `n`, features `n` and access `private`, and consumes three answers |
| Ingest.AllNoAnswers | keith_data_intern_project_2.py:115-136 | with the answers `n`, `n`, `n` the second script records keywords `n`, features `n` and access `private`, whatever the path |
| Store.BatchSkips | keith_data_intern_project_3.py:165-172 | a candidate with another extension, or whose name occurs inside a name in the table, is passed over without reading an answer |
| Store.BatchIngests | keith_data_intern_project_3.py:174 | any other candidate has its record appended, or the batch ends when the answers run out |
| Store.BatchFinished | keith_data_intern_project_3.py:164-176 | after the last candidate the table built so far is the result |
| Store.BatchAppendsOnly | keith_data_intern_project_3.py:155-176 | the rows present before the batch stay unchanged and in order at its front; at most one row is added per candidate; every added row has the password `12345` |
| Store.BatchKeepsPrefix | keith_data_intern_project_3.py:164-174 | from any point of the loop on, the rows so far are kept as the prefix, growing by at most one row per remaining candidate |
| Store.BatchAddsOnlyUnseenNames | keith_data_intern_project_3.py:169-174 | no added row's name occurs inside any row before it, whether that row was there before the batch or added earlier in it; so added names differ from each other and from the old names |
| Store.BatchCoversCandidates | keith_data_intern_project_3.py:164-174 | after the batch, the name of every candidate with an accepted extension occurs inside some name of the table |
| Store.NameTakenGrows | keith_data_intern_project_3.py:170 | a name taken in a table stays taken in any table that extends it |
| Store.BatchFollowsCandidateOrder | keith_data_intern_project_3.py:164-174 | the names of the added rows are the names of the accepted candidates with some left out, in candidate order |
| Store.SubstringNameSkipped | keith_data_intern_project_3.py:169-172 | with `doggo` in the table, `dog.png` is skipped: no answer is read and nothing is added |
| Store.DogPath | keith_data_intern_project_3.py:165-169 | `dog.png` has an accepted extension and the name `dog` |
| Store.ExtensionFilterExample | keith_data_intern_project_3.py:152-166 | of `a.png`, `b.txt` and `c.PNG` only `a.png` passes the case-sensitive extension test |
| Store.ExtensionOfShortName | keith_data_intern_project_3.py:165 | a one-character stem, a `.` and an extension free of `.` and `/` make a path whose extension is that `.` and the extension text |
| Search.Terms | keith_data_intern_project_3.py:185 | the lower-cased query splits into at least one term |
| Search.AnyTermInExists | keith_data_intern_project_3.py:191-195 | trying the terms in order with `break` finds a match exactly when some stripped term is one of the tokens |
| Search.MatchIndicesExact | keith_data_intern_project_3.py:189-195 | the matched positions increase strictly, so each row is found at most once and in table order; every position lies in the table; a position is listed exactly when its row matches |
| Search.MatchesAtIndices | keith_data_intern_project_3.py:194 | the rows returned are the table rows at the matched positions, in that order |
| Search.UppercaseTokenNeverMatches | keith_data_intern_project_3.py:185-193 | a stored token with an upper-case letter never equals a query term, because only the query is lower-cased |
| Search.UppercaseRowNeverFound | keith_data_intern_project_3.py:185-193 | a row whose every token holds an upper-case letter is never found |
| Search.DogFound | keith_data_intern_project_3.py:185-195 | keywords `dog,park` are found by the query `Dog` |
| Search.DoggoNotFound | keith_data_intern_project_3.py:185-195 | keywords `dog,park` are not found by the query `doggo`: tokens are compared whole |
| Search.SingleTerm | keith_data_intern_project_3.py:185-192 | a lower-case query with no `,` and no surrounding whitespace is a single term, unchanged by stripping |
| Search.EmptyQueryFindsEmptyToken | keith_data_intern_project_3.py:185-195 | the empty query is one empty term, which finds a row with an empty token |
| Storage.Fetch | keith_data_intern_project_3.py:55-62 | after `get_key` the file holds the returned key; an existing key file is left as it is, and a missing one gets the generated key |
| Storage.FetchStable | keith_data_intern_project_2.py:54-61 | a second `get_key` returns the same bytes as the first, whatever key the generator offers, and leaves the file as the first call left it |
| Storage.FetchKeyLength | test_keith_data_intern_project_2.py:8-10 | the key returned is 44 bytes long when stored and generated keys are |
| Storage.KeyFile.GetKey | keith_data_intern_project_2.py:54-61 | the key file's new state and the returned key are those of `Fetch`, and the file still holds only whole keys |
| Storage.GetKeyTwice | test_keith_data_intern_project_2.py:8-10 | two successive calls return the same 44 bytes, and the key file then exists |
| Storage.DataFile.Load | keith_data_intern_project_3.py:64-84 | the stored table when the file exists, and the empty table otherwise |
| Storage.DataFile.Save | keith_data_intern_project_3.py:176 | writing replaces the whole table, which then loads back unchanged, and counts one more write |
| Storage.Bootstrap | keith_data_intern_project_3.py:64-84 | a fresh repository loads as the empty table, and after one row is saved it loads as that single row |
| ProjectThree.GetPermission | keith_data_intern_project_3.py:105-110 | the prompt loop returns what `Dialog.Permission` states, so only `public` or `private` |
| ProjectThree.ImageData | keith_data_intern_project_3.py:112-134 | the third script's `image_data` returns the record `Ingest.RecordOfThree` describes; the key file ends as one `get_key` call leaves it, even when the answers run out |
| ProjectTwo.CleanTags | keith_data_intern_project_2.py:115-136 | the in-place strip loop over the split list, then the join, gives the third script's normalisation of the same answer |
| ProjectTwo.ImageData | keith_data_intern_project_2.py:98-150 | the second script's `image_data` returns the record `Ingest.RecordOfTwo` describes, with access `private`; the key file ends as one `get_key` call leaves it |
| Repository.StoreImages | keith_data_intern_project_3.py:145-176 | a completed store writes the table once, and the table it writes is the batch result over the loaded table and the candidates, where a file path is the only candidate; when the answers run out the table file is untouched; the key file is left alone when nothing was added, and is otherwise as one `get_key` leaves it |
| Repository.Visit | keith_data_intern_project_2.py:169-178 | one pass of the loop is one step of the batch, and it adds at most one row |
| Repository.ImageData | keith_data_intern_project_2.py:178 | the store calls the chosen script's `image_data`: the result is that script's record, or the end of the input, and the key file ends as one `get_key` call leaves it |
| Repository.SearchImages | keith_data_intern_project_2.py:182-201 | the search reads exactly one answer, and it fails exactly when none is left; it returns the rows `Search.MatchIndicesExact` and `Search.MatchesAtIndices` describe, for the loaded table and that answer |

## Findings

| source | as written | input that shows it | evidently intended | confidence | as-written member | corrected member |
|---|---|---|---|---|---|---|
| keith_data_intern_project_2.py:121-128 | the `while` runs only while the answer is neither `y` nor `n`, but the assignments of `public`/`private` inside it test for exactly those answers, so the default `private` is never changed | the single answer `y` at the permission prompt stores the image as `private` | `y` stores `public` and `n` stores `private`, as in the third script's `get_permission` | not executed | Dialog.YesAnswerDiffers | Dialog.PermissionDecidedByFirstYesOrNo |

The second script's prompt is modelled as written (`Dialog.AccessTwo`, `ProjectTwo.ImageData`), and
`Dialog.AccessTwoAlwaysPrivate` proves that it never yields anything but `private`. The intended
behaviour is the third script's prompt, `Dialog.Permission`. Its property is proved by
`Dialog.PermissionDecidedByFirstYesOrNo`, and the third script's records use it.

## Left out

- Encryption: Fernet encryption and key generation (`encrypt_file`, `Fernet.generate_key`) are a foreign cryptographic library. The ciphertext is an opaque value drawn per candidate, and a generated key is a parameter. The scripts never decrypt, so there is no round trip to state.
- Image codec: `cv2.imread` and `cv2.imencode` are an external codec; their output only feeds the ciphertext. A file the codec cannot read makes `image_data` raise, which ends the store with the table unwritten, as running out of answers does; the model has no such failure.
- CSV persistence: pandas reading and writing (`read_csv`, `to_csv`) is modelled as a table file that loads back exactly what was saved. The index column pandas writes and the NaN read back are file-format artefacts and are not modelled. pandas reads back as NaN an empty cell and, by default, cells such as `NA`, `N/A`, `null`, `NULL`, `nan` and `NaN`. The model keeps those values as the strings they were. In the script, a search over such a cell would fail at `split`. A stored name such as `NA` would never be seen as a duplicate, because `str.contains` gives NaN for it and `.any()` skips it, so `NA.png` would be added again on every store.
- Table append: `DataFrame.append` (removed in pandas 2) is modelled as appending one row to the sequence.
- Store.NameTaken: `str.contains` reads the name as a regular expression; the model reads it as plain text, which agrees when names hold no regular-expression metacharacters.
- Candidates: the order of `glob`'s listing, `os.path.join`, `os.path.exists` and `os.path.isfile` are file-system queries; the listing and the is-a-file flag are inputs.
- Identifiers: `uuid.uuid4` is random; the identifier is drawn per candidate together with the ciphertext.
- A single generated key: the model gives one `generated` key to a whole store. After the first `get_key` creates the file no further key is generated, so one value covers every call.
- Storage.KeyFile.Valid: assumes that only `get_key` writes the key file, so a present file always holds a whole 44-byte key.
- The user interface: `main`, its menu loop, `print` (including "duplicate image not added" and "Image found") and `sys.exit` are not modelled.
- Search columns: a search can be run over the text columns name, keywords, features, access and password. The ciphertext and identifier columns are not strings in the model and cannot be searched.
- Text.Lower: covers ASCII letters only, whereas Python's `str.lower` also folds non-ASCII upper-case letters.
- Text.IsSpace: lists the code points Python's `str.isspace` accepts; Unicode-database updates after this list are not followed.
- Tests: test expectations that do not describe the scripts' behaviour are not modelled: `result.size == 2` counts table cells rather than rows, and one patch replaces `get_input` with a string.
