# Catalog app: the decision logic under the request handlers

The application is a small Flask inventory catalog (`app.py`). Visitors
browse items and search them by category. One administrator logs in and adds,
edits and deletes items, each with an uploaded image. This project models
the logic that decides what those requests do to the stored data. The
routing, templates, ORM and file system are left out.

- `Text` holds the three Python string operations the handlers rely on:
  `str.strip()`, with Python's exact set of whitespace characters,
  `str.lower()` and `str.rsplit('.', 1)`.
- `Upload` holds the `ALLOWED_EXTENSIONS` allow-list and `allowed_file`.
- `SqlLike` models the category search. `Item.category.contains(q)` becomes
  the SQL test `category LIKE '%' || q || '%'`, which SQLite evaluates.
- `Browse` models the `index` handler as a filter over the rows the query
  returns.
- `Catalog` models the item table as a map from row id to row, with the
  handlers `add_item`, `edit_item` and `delete_item`. The class
  `ItemStore` holds the table, and its methods follow the handlers'
  statements. Each method is proved equal to a pure step function
  (`AddStep`, `EditStep`, `DeleteStep`). That function returns the outcome
  (`Ok`, `Rejected(reason)` or `NotFound`) in place of the flash message
  and redirect, together with the table after the request.
- `Users` models the user table, keyed by user name, with `add_admin`
  (an upsert) and the credential decision of `login`. The class
  `UserStore` holds the table.
- `Ids` shows that an unused row id always exists, so the database can
  always assign one to a new row.

Password hashing and hash checking are calls into the hashing library. They
enter the model as function parameters: `hash` stands for
`generate_password_hash` and `check` for `check_password_hash`. The
uploaded file reaches the model as its name and its bytes.

Two points where the code does more than its plain reading suggests; the
model follows the code:

- The search is meant to keep the items whose category contains the
  query. The code passes the search to SQLAlchemy's `contains`,
  and that yields a SQLite `LIKE` test. This test ignores the case of ASCII
  letters. A `%` or `_` typed into the search box also acts as a wildcard,
  because `contains` does not escape them. `SqlLike.ContainsPatternMeaning`
  proves what this means:
  - every category that holds the query, letter case aside, is listed;
  - when the query has no `%` and no `_`, nothing else is listed.
- `str.lower()` is modelled on ASCII letters only. For `allowed_file` this
  gives the same verdict as Python's full Unicode lowering. The only
  non-ASCII characters that Python lowers into ASCII are U+212A (to `k`)
  and U+0130 (to `i` plus a combining dot). Neither can turn a suffix into
  `png`, `jpg`, `jpeg`, `gif` or `jfif`.

## Model

| member | source | states |
|---|---|---|
| `Text.TrimStart` | app.py:61 | the result is a suffix of the input; everything removed is whitespace; the result does not start with whitespace |
| `Text.TrimEnd` | app.py:61 | the result is a prefix of the input; everything removed is whitespace; the result does not end with whitespace |
| `Text.Strip` | app.py:61 | `search.strip()` is `TrimEnd` after `TrimStart`; its meaning is given by those two contracts and by `StripEmptyIffBlank` |
| `Text.StripEmptyIffBlank` | app.py:61-62 | the stripped search is empty exactly when the raw search is empty or whitespace only |
| `Text.Lower` | app.py:160 | same length as the input; each character is lowered independently |
| `Text.RSplitOnce` | app.py:160 | with no separator the text comes back whole; otherwise the two parts rebuild the text around the separator, and the second part holds no separator (the cut is at the last one) |
| `Text.RSplitOnceAt` | app.py:160 | the cut is unique: `before + "." + after` with a dot-free `after` splits into exactly `[before, after]` |
| `Upload.AllowedFile` | app.py:159-160 | `allowed_file`: a dot, and the lowered text after the last dot in the allow-list; its meaning is given by `RejectsWithoutDot` and `AllowedFileBySuffix` (both directions), `AcceptedNameShape` and `AllowedFileIgnoresCase` |
| `Upload.RejectsWithoutDot` | app.py:160 | a name without a dot is refused |
| `Upload.AllowedFileBySuffix` | app.py:159-160 | for any stem, even one with dots, and any dot-free suffix, the name is accepted exactly when the lowered suffix is in the allow-list |
| `Upload.AcceptedNameShape` | app.py:159-160 | an accepted name is non-empty, and the text after its last dot lowers to an allowed extension |
| `Upload.AllowedFileIgnoresCase` | app.py:160 | two suffixes that differ only in letter case get the same verdict |
| `Upload.AcceptedExamples` | app.py:15 | `x.PNG`, `x.b.jpg` and `x.Jfif` are accepted, for any stem `x` |
| `Upload.RejectedExamples` | app.py:159-160 | `x.EXE`, `x.png.exe` and `x.` are refused for any stem `x`, and so are `png` and the empty name |
| `SqlLike.Like` | app.py:63 | SQLite's `LIKE` as `contains` uses it, with `%`, `_` and ASCII letter case ignored; its meaning is given by `LikeAnyRest`, `PrefixMatches`, `MatchIsPrefix`, `LeadingPercent` and, for the pattern `'%' + q + '%'` that `contains` builds, `ContainsPatternMeaning` |
| `SqlLike.LikeAnyRest` | app.py:63 | the pattern `%` matches any text |
| `SqlLike.PrefixMatches` | app.py:63 | a text that starts with `q` (letter case aside) matches `q%`, whatever wildcards `q` holds |
| `SqlLike.MatchIsPrefix` | app.py:63 | if `q` has no wildcards, a text matches `q%` only when it starts with `q` (letter case aside) |
| `SqlLike.LeadingPercent` | app.py:63 | `%r` matches a text exactly when `r` matches one of its suffixes |
| `SqlLike.ContainsPatternMeaning` | app.py:63 | `LIKE '%q%'` accepts every text that contains `q`, letter case aside; without wildcards in `q`, it accepts no other text |
| `SqlLike.LiteralIsIgnoringCase` | app.py:63 | an exact occurrence is also a case-insensitive occurrence |
| `Browse.Search` | app.py:63 | each row whose category matches is kept as often as it is stored, and no other row is kept |
| `Browse.Browse` | app.py:59-66 | the `index` filter; its meaning is given by `BlankSearchListsAll`, `SearchListsMatches`, `SearchIsSubstringMatch` and `BrowseIsSubset` |
| `Browse.BrowseIsSubset` | app.py:61-66 | the page lists only stored rows, none more often than it is stored |
| `Browse.BlankSearchListsAll` | app.py:61-65 | an empty or whitespace-only search lists every row, in order |
| `Browse.SearchListsMatches` | app.py:61-63 | any other search lists each row whose category matches `'%' + stripped search + '%'` as often as it is stored, and no other row |
| `Browse.SearchIsSubstringMatch` | app.py:63 | if the stripped search has no wildcards, it lists each row whose category contains it, letter case aside, as often as it is stored, and no other row |
| `Browse.LiteralMatchIsListed` | app.py:61-65 | a row whose category holds the stripped search verbatim is always listed |
| `Browse.AddedItemIsFound` | app.py:110-112 | a newly added item is listed by any search that its category holds verbatim |
| `Catalog.Screen` | app.py:99-102 | a file part is "no file" exactly when its name is empty, and "accepted" exactly when `allowed_file` holds; accepted parts carry their bytes |
| `Catalog.NewItem` | app.py:110 | the row `add_item` builds from the submitted fields and the image bytes; its meaning is given by `AddStep` and `EditKeepsAddedImage` |
| `Catalog.AddStep` | app.py:98-117 | an empty file name gives `NoImageSelected` and a disallowed one gives `InvalidFileType`, both with the table unchanged; success comes exactly with an allowed name and adds exactly one row: fresh id, the submitted fields and bytes, old rows untouched |
| `Catalog.EditStep` | app.py:123-145 | a missing id gives `NotFound` with the table unchanged; a disallowed file gives `InvalidFileType` with the table unchanged; otherwise the row takes the submitted fields and keeps its image when no file was sent, or takes the new bytes; other rows and the key set never change |
| `Catalog.Edited` | app.py:126-138 | the row after `edit_item`'s assignments: the submitted fields, and the new bytes or else the old image; its meaning is given by `EditStep`, `EditIdempotent` and `EditKeepsAddedImage` |
| `Catalog.DeleteStep` | app.py:152-154 | a missing id gives `NotFound` with the table unchanged; otherwise exactly that id is removed and every other row is kept |
| `Catalog.AddThenDelete` | app.py:149-156 | deleting the row just added restores the earlier table |
| `Catalog.DeletedStaysGone` | app.py:152 | after a delete, deleting or editing the same id is `NotFound` and changes nothing |
| `Catalog.EditIdempotent` | app.py:126-145 | submitting the same edit twice has the same outcome and table as submitting it once |
| `Catalog.EditKeepsAddedImage` | app.py:133-138 | an edit without a file keeps the bytes the item was added with and replaces the text fields |
| `Catalog.ItemStore.AddItem` | app.py:90-118 | the new table and outcome are those of `AddStep`, with an id that was unused before |
| `Catalog.ItemStore.EditItem` | app.py:122-147 | the new table and outcome are those of `EditStep` |
| `Catalog.ItemStore.DeleteItem` | app.py:151-156 | the new table and outcome are those of `DeleteStep` |
| `Ids.FreshIdExists` | app.py:27 | some id is always unused, so a new row can always get a key |
| `Users.Upsert` | app.py:165-176 | the user name is present afterwards with the new hash; an existing row keeps its id; a new row gets the given unused id; other users are unchanged; no other name is added |
| `Users.UpsertWellFormed` | app.py:39-40 | the upsert keeps each row under its own name and keeps ids distinct |
| `Users.UpsertTwice` | app.py:165-176 | a second upsert of the same name adds no user; the table is the one a single upsert with the later password gives |
| `Users.Login` | app.py:73-74 | a session is established exactly when a user of that name exists and the hash check passes; it is for that user |
| `Users.LoginAfterUpsert` | app.py:46-50 | after the upsert, logging in with the same password succeeds for that user, assuming the library accepts each password against its own hash |
| `Users.WrongPasswordAfterUpsert` | app.py:74 | a password the check rejects against the new hash does not log in |
| `Users.UpsertLeavesOtherLogins` | app.py:168-175 | the upsert changes no other user's login result |
| `Users.UserStore.AddAdmin` | app.py:165-176 | keeps the table well formed; the new table is `Upsert` of the old one with `hash(password)`, under the user's existing id or an id that was unused |

## Left out

- Routing, templates, `flash`, `redirect`, `url_for` and the `next` parameter of `login`. Each outcome is an `Outcome` value or an `Option<User>`.
- Reading `request.form` and `request.files`. A missing form key makes the source fail with "400 Bad Request"; the model takes the fields as given.
- `login_required`, `login_user`, `logout_user`, `load_user` and the session cookie. These are framework session handling. `Users.Login` returns the user a session would be opened for.
- `generate_password_hash` and `check_password_hash`. These are library calls and enter the model as function parameters.
- Converting `quantity` and `price` from text. `edit_item` calls `float()` on the price (app.py:130). Text that `float()` rejects makes the source fail before anything is committed. The model takes the converted values as given, and `Price` is an abstract value type.
- The length limits `String(100)` and `String(50)`. SQLite does not enforce them.
- `secure_filename`, `image.save` and reading the saved file back (app.py:103-108). `AddItem` assumes that the bytes read back are the bytes uploaded. A failed save is not modelled; one can happen because the source saves under `uploads` in the working directory but creates `uploads` under the instance folder (app.py:163).
- `Catalog.ItemStore.EditItem`: the source assigns the fields of the ORM object in place and discards them when it returns before the commit. The model builds the updated row and stores it only at the commit. Aliasing of the ORM object within a request is not modelled.
- `SqlLike.Like`: SQLite's own limits are not modelled. (a) SQLite reads the text and the pattern only up to the first NUL character, so for the search `a\0b` the pattern `'%a\0b%'` acts as `'%a'`, and a row whose category is `xa` is listed. (b) SQLite refuses a `LIKE` pattern longer than 50,000 bytes ("LIKE or GLOB pattern too complex"), so a search that long ends in a server error at app.py:63, where the model lists the matches. The model treats `LIKE` as a test on whole strings of any length.
- `Browse.SearchListsMatches` and `Browse.SearchIsSubstringMatch`: for a search holding a NUL character, or one longer than SQLite's pattern limit, the "no other row" part does not hold of the program, for the reasons given under `SqlLike.Like`.
- Row order. `Item.query.all()` returns rows in the database's order. `Browse` keeps whatever order its input has.
- How the database picks a new id. The model only requires that the id is unused.
- Unicode case folding beyond ASCII in `str.lower()`. For `allowed_file` this does not change the verdict; the reason is given above.
- Concurrency between requests, `b64encode` for display, `os.makedirs`, migrations and process start-up (`app.run`).
