# Insights news backend, modelled in Dafny

This project models the request-handling core of a small Express/MySQL
backend. The backend serves "insights news" items. The model covers three
pieces:

- The news controller (`controllers/newsController.js`):
  - `parseTags`, which turns the `tag` field into the tags that are checked,
    stored and returned;
  - the field validation shared by create and update, including the markup
    stripping of the description;
  - the `insights_news` table and the `uploads` directory as the class
    `News.NewsStore`. Its fields are `rows: map<int, Row>` and
    `files: set<string>`. The methods `Create`, `Update`, `Delete` and
    `List` model `createNews`, `updateNews`, `deleteNews` and `getNews`.
- The login handler (`controllers/authController.js`): a pure guard chain,
  `Auth.Decide`. After it comes the token write on the class
  `Auth.UserTable`, whose `users` field is the `users` table in scan order.
- The bearer-header guard (`middleware/authMiddleware.js`): the pure function
  `Guard.VerifyToken`, with three outcomes: 403, 401, or pass with the
  decoded claims.

Each module has its own file:

- `js_values.dfy`: JavaScript values, truthiness and `String()`.
- `text.dfy`: `trim`, `indexOf` and `split` on one character.
- `markup.dfy`: the `<[^>]+>` replacement.
- `tags.dfy`: `parseTags`.
- `validation.dfy`: the field checks and the error map.
- `listing.dfy`: listing order, pages and page count.
- `news_store.dfy`: the news table, the files and the four handlers.
- `auth.dfy`: login.
- `middleware.dfy`: the token guard.

The code calls services that are not modelled. Each one is a parameter of
the model, passed as a function value:

| Service | Parameter |
|---|---|
| `JSON.parse` | `parse`; `None` means it throws |
| `JSON.stringify` | `stringify` |
| `jwt.sign` | `sign` |
| `jwt.verify` | `verify` |
| SQL `LIKE` under the table's collation | `like` |
| SQL `email = ?` under the table's collation | `same` |
| The database's ordering of the `date` column | `dateRank` |
| `process.env.BASE_URL` | `env` |

Store failures at login are the parameter `fault`.

Some behaviours of the code are easy to miss, and the model states them as
they are:

- A client sends `Authorization: Bearer <token>`, but the code never reads
  the first word of the header: any word before the first space will do
  (`Guard.SchemeIgnored`). A header that is a bare token, without a space,
  is refused with 401 (`Guard.BareTokenRejected`).
- Deleting an id that does not exist is still answered "Deleted
  successfully" with status 200 (`News.NewsStore.Delete`).
- A `tag` text that parses as JSON is used as parsed, whatever kind of
  value it is. The result fails the tag check when it is falsy (`null`,
  `0`, `false`, `""`), an empty array, or an object whose `length` is 0
  (`Validation.EmptyJsonFails`, `Validation.ZeroLengthObjectFails`). Any
  other value passes: `"5"` becomes the number 5 and passes
  (`Tags.ScalarTagIsKept`, `Validation.ScalarTagPasses`).
- An update of an id that does not exist is answered 404 before the checks
  run, and its uploaded file is not deleted: `Update` states that `files`
  is unchanged there.

## Model

| member | source | states |
|---|---|---|
| JsValues.Truthy | controllers/newsController.js:9 | JavaScript truthiness: a value is falsy exactly when it is undefined, null, false, 0 or the empty string |
| JsValues.StringOf | controllers/newsController.js:19 | `String(v)` of a string is the string itself, and only a string or an array can print as the empty text |
| JsValues.NatDigits | controllers/newsController.js:19 | The decimal text of a number used by `String()`: at least one character, digits only, and "0" exactly for zero |
| JsValues.IntToString | controllers/newsController.js:51 | `String(n)` of a number is never empty, so a numeric description is never blank text |
| Text.Trim | controllers/newsController.js:21 | `trim` never lengthens a string |
| Text.TrimStartIsSuffix | controllers/newsController.js:21 | Removing leading whitespace keeps a suffix, drops only whitespace, and leaves no leading whitespace |
| Text.TrimEndIsPrefix | controllers/newsController.js:21 | Removing trailing whitespace keeps a prefix, drops only whitespace, and leaves no trailing whitespace |
| Text.TrimBlank | controllers/newsController.js:33 | `s.trim()` is empty exactly when `s` is all whitespace; otherwise it starts and ends with non-whitespace |
| Text.TrimInside | controllers/newsController.js:21 | Every character of `s.trim()` occurs in `s` |
| Text.TrimIdempotent | controllers/newsController.js:21 | Trimming twice equals trimming once |
| Text.TrimOneChar | controllers/newsController.js:21 | A single character trims to itself unless it is whitespace, in which case it trims to "" |
| Text.IndexOf | controllers/newsController.js:20 | The result is the first position at or after `from` holding `c`; None means `c` does not occur there |
| Text.Split | controllers/newsController.js:20 | `split(sep)` yields at least one piece, and no piece contains `sep` |
| Text.JoinSplit | controllers/newsController.js:20 | Joining the pieces of `split(sep)` with `sep` gives the string back |
| Text.SplitUnique | controllers/newsController.js:20 | Any list of separator-free pieces that joins to `s` is exactly `split(sep)` of `s` |
| Text.SplitNoSep | controllers/newsController.js:20 | A string without the separator splits into itself alone |
| Text.SplitCons | controllers/newsController.js:20 | If `a` has no separator, `a + sep + b` splits into `a` followed by the pieces of `b` |
| Markup.TagLength | controllers/newsController.js:51 | Some(k) exactly when the first `k` characters are a match of `<[^>]+>`; there is at most one such `k` |
| Markup.StripMarkup | controllers/newsController.js:51 | The global replacement never lengthens the text |
| Markup.StripInside | controllers/newsController.js:51 | The replacement only removes characters: every character left was in the input |
| Markup.StripLeavesNoTag | controllers/newsController.js:51 | No match of `<[^>]+>` starts anywhere in the result |
| Markup.StripKeepsTagFree | controllers/newsController.js:51 | Text without a match passes through unchanged |
| Markup.StripIdempotent | controllers/newsController.js:51 | Stripping twice equals stripping once |
| Markup.NoAngleIsTagFree | controllers/newsController.js:51 | Text without '<' is unchanged |
| Markup.StripKeepsUnmatchedPrefix | controllers/newsController.js:51 | Text in which no match starts (including a `<` that starts none) is kept unchanged in front of whatever the rest strips to; with StripDropsLeadingTag this fixes the result for every input |
| Markup.StripKeepsPlainPrefix | controllers/newsController.js:51 | Text with no '<' is kept unchanged in front of whatever the rest strips to |
| Markup.StripDropsLeadingTag | controllers/newsController.js:51 | A match at the front is removed whole, and the replacement continues right after it |
| Markup.StripParagraph | controllers/newsController.js:51 | `"<p>d</p>"` strips to `"d"`: both tags are removed and the text between them is kept |
| Markup.StripKeepsEmptyBrackets | controllers/newsController.js:51 | `"<><p>"` strips to `"<>"`: an unmatched `<>` is kept even when markup follows |
| Tags.TrimEach | controllers/newsController.js:21 | `.map(t => t.trim())`: same length, and each element is the trim of the piece at the same position |
| Tags.DropEmpty | controllers/newsController.js:22 | `.filter(Boolean)` keeps only non-empty strings, all taken from the input |
| Tags.DropEmptyAppend | controllers/newsController.js:22 | Filtering distributes over concatenation |
| Tags.SplitTags | controllers/newsController.js:19-22 | The comma fallback yields at most one tag per comma-separated piece |
| Tags.DropEmptyNil | controllers/newsController.js:22 | Filtering leaves nothing exactly when every string was empty |
| Tags.TrimEachAppend | controllers/newsController.js:21 | Trimming each piece distributes over concatenation |
| Tags.SplitTagsClean | controllers/newsController.js:19-22 | Every tag from the comma fallback is non-empty, already trimmed, and contains no comma |
| Tags.SplitTagsNone | controllers/newsController.js:19-22 | The comma fallback yields no tag exactly when every comma-separated piece is blank |
| Tags.SplitTagsOne | controllers/newsController.js:19-22 | Text without a comma gives no tag if it is blank, and otherwise exactly its trimmed self |
| Tags.SplitTagsCons | controllers/newsController.js:19-22 | The tags of `a + "," + b` are the tags of `a` followed by the tags of `b` |
| Tags.StrArray | controllers/newsController.js:19-22 | The array of the split strings: same length, and element `i` is the string `xs[i]` |
| Tags.ParseTags | controllers/newsController.js:13-17 | A falsy tag gives `[]`, an array is returned unchanged, and any other tag whose text parses as JSON gives the parsed value, whatever its kind |
| Tags.ParseTagsFallback | controllers/newsController.js:16-23 | When JSON.parse throws, the result is the array of comma-split, trimmed, non-empty, comma-free pieces of `String(tag)` |
| Tags.BlankPieceDropped | controllers/newsController.js:19-22 | A blank piece before a comma contributes no tag |
| Tags.WordPieceKept | controllers/newsController.js:19-22 | A trimmed, non-empty piece before a comma is the first tag |
| Tags.SplitTagsExampleText | controllers/newsController.js:19-22 | The shape of `"x, ,y"` splits to the tags `["x", "y"]` |
| Tags.SplitTagsBlankThenWord | controllers/newsController.js:19-22 | The shape of `" ,y"` splits to the one tag `["y"]` |
| Tags.SplitTagsExample | controllers/newsController.js:13-23 | A text of the shape `"x, ,y"` that is not JSON parses to `["x", "y"]` |
| Tags.ScalarTagIsKept | controllers/newsController.js:16-17 | Example of the JSON branch: the text `"5"` gives the number 5, not a list |
| Validation.HasTags | controllers/newsController.js:46 | The negation of the tag failure test: among the truthy values, exactly an empty array and an object whose `length` is the number 0 fail |
| Validation.SharedFailuresExact | controllers/newsController.js:31-55 | A shared field is in the failure set exactly when its own check fails; no check masks another |
| Validation.Record | controllers/newsController.js:33-35 | One check step adds the field's key with its message exactly when the check fails, and keeps the other keys |
| Validation.CheckSharedFields | controllers/newsController.js:164-188 | All five shared checks run, and the error map's keys are exactly the failing fields, each with its message |
| Validation.CheckCreateFields | controllers/newsController.js:31-59 | The create error map's keys are exactly the failing shared fields, plus `image` when no file was uploaded |
| Validation.RequiredText | controllers/newsController.js:33 | The negation of the name/title failure test: the value is a string with a character that is not whitespace |
| Validation.DescriptionText | controllers/newsController.js:50-53 | The text left of the description is empty exactly when the description is falsy or only whitespace remains after removing every `<[^>]+>` span |
| Validation.DescriptionWithText | controllers/newsController.js:50-55 | The description `"<p>d</p>"` yields the text `"d"` and passes |
| Validation.DescriptionOnlyMarkup | controllers/newsController.js:50-55 | The description `"<p> </p>"` yields no text and fails |
| Validation.TagRule | controllers/newsController.js:45-48 | A falsy tag fails the tag check, and an array passes exactly when it is non-empty |
| Validation.TagRuleText | controllers/newsController.js:45-48 | Text that is not JSON passes the tag check exactly when some comma-separated piece is not blank |
| Validation.ScalarTagPasses | controllers/newsController.js:45-48 | The tag text `"5"`, which parses to the number 5, passes the tag check |
| Validation.EmptyJsonFails | controllers/newsController.js:45-48 | Tag text that parses to `null`, `0`, `false`, `""` or `[]` fails the tag check |
| Validation.ZeroLengthObjectFails | controllers/newsController.js:45-48 | Tag text that parses to an object whose `length` is 0, such as `{"length":0}`, fails the tag check |
| Validation.EmptyCreateFailsEverywhere | controllers/newsController.js:31-59 | An empty create request fails on all six fields at once |
| Listing.FirstExists | controllers/newsController.js:111 | Every non-empty set of rows has a row that `ORDER BY date DESC, id DESC` puts before all the others |
| Listing.First | controllers/newsController.js:111 | The chosen row comes before every other candidate |
| Listing.Ordered | controllers/newsController.js:111 | The listing has one entry per selected row, and every entry is a selected row |
| Listing.OrderedComplete | controllers/newsController.js:111 | Every selected row appears in the listing |
| Listing.OrderedSorted | controllers/newsController.js:111 | Each listed row has a later date than every row after it, or the same date and a larger id |
| Listing.OrderedDistinct | controllers/newsController.js:111 | No row is listed twice |
| Listing.Window | controllers/newsController.js:111-112 | `LIMIT limit OFFSET offset` returns at most `limit` rows: exactly the rows at positions `offset`, `offset + 1`, and so on |
| Listing.Offset | controllers/newsController.js:95 | `(page - 1) * limit` is a whole number of pages: divisible by `limit`, with quotient `page - 1` |
| Listing.CeilDiv | controllers/newsController.js:123 | `Math.ceil(total / limit)` is the fewest pages of `limit` rows that hold `total` rows |
| Listing.PageSorted | controllers/newsController.js:111-112 | A page lists its rows in listing order |
| Listing.PageOfPosition | controllers/newsController.js:95 | Position `i` lies in the window at `(page - 1) * limit` for page `i / limit + 1`, and that page is at most `totalPages` |
| Listing.PageWindowsDisjoint | controllers/newsController.js:95 | Offsets of different pages are at least `limit` apart |
| Listing.PositionInWindow | controllers/newsController.js:95 | The row at position `i` is in the window of page `i / limit + 1` |
| Listing.EveryRowOnAPage | controllers/newsController.js:95-123 | Every selected row is on a page numbered from 1 to `totalPages` |
| Listing.WindowsShareNothing | controllers/newsController.js:95 | In a listing without repeats, two different pages share no entry |
| Listing.PagesDisjoint | controllers/newsController.js:95-112 | Two different pages share no row |
| News.BaseUrl | controllers/newsController.js:6 | The configured base URL if it is non-empty, otherwise a non-empty default |
| News.ImageUrl | controllers/newsController.js:8-11 | A URL exactly when there is a truthy filename, and the URL starts with `base + "/uploads/"` (the filename after it is pinned by ImageUrlNamesFile) |
| News.ImageUrlNamesFile | controllers/newsController.js:8-11 | The filename read back from an image URL is the filename it was built from |
| News.Pattern | controllers/newsController.js:102 | The trimmed search term sits between two `%` wildcards, and nothing else is added |
| News.RowMatches | controllers/newsController.js:103 | A row matches exactly when one of its four searched columns (name, title, tag text, description) is LIKE the pattern |
| News.Selected | controllers/newsController.js:101-107 | A blank search selects every row, and any search selects only existing rows |
| News.SelectedMatch | controllers/newsController.js:101-107 | A non-blank search selects exactly the rows where name, title, tag text or description matches `%term%` |
| News.Items | controllers/newsController.js:114-117 | Each listed item carries its row's columns and the image URL derived from the row's image |
| News.NewsStore.Create | controllers/newsController.js:26-88 | On any failure: 400 "Validation failed" with every failing field, the upload deleted, and rows unchanged. Otherwise: 201 "News created successfully" and exactly one row added under a fresh id, holding the JSON text of the parsed tags, the original description and the upload; no file deleted. Both keep the store invariant |
| News.NewsStore.Update | controllers/newsController.js:151-228 | Unknown id: 404 "News not found" with nothing changed (the upload is kept). Shared-check failure: 400 "Validation failed", the upload deleted, rows unchanged. Otherwise: 200 "News updated successfully" and the row rewritten; a new file replaces the old one, which is deleted; without a new file the old one is kept. Keeps the store invariant |
| News.NewsStore.DiscardUpload | controllers/newsController.js:62-65 | A rejected upload is removed from `uploads` and nothing else changes; the store invariant holds |
| News.NewsStore.Insert | controllers/newsController.js:69-72 | The row is added under the next auto-increment id, which no row had, and the counter moves on; files unchanged; the store invariant holds |
| News.NewsStore.Rewrite | controllers/newsController.js:199-211 | The saved image is the new upload if there is one, else the old image; the old file is deleted only when replaced; the row is rewritten with the checked fields; the store invariant holds |
| News.NewsStore.Delete | controllers/newsController.js:132-149 | The row's file (if any) and the row are removed, nothing else changes, and the answer is 200 "Deleted successfully" even for an unknown id. Keeps the store invariant |
| News.NewsStore.List | controllers/newsController.js:90-130 | `total` counts the rows the same filter selects, `totalPages` is its ceiling division by `limit`, and the data is at most `limit` selected rows, in listing order, at `(page - 1) * limit`, each with its image URL |
| News.NewsStore.ImageUrlResolves | server.js:16 | Under the store invariant, every image URL the store hands out names a file in `uploads` |
| News.StoredTagsRoundTrip | controllers/newsController.js:71 | Stored tag text sent back as a tag yields the same tags, when JSON.parse undoes JSON.stringify on them |
| Auth.FirstMatch | controllers/authController.js:15-19 | `results[0]`: the first row in scan order whose email matches; None means no row matches |
| Auth.Decide | controllers/authController.js:11-24 | A missing field gives the 400 outcome exactly when email or password is falsy. An unknown email gives the 401 outcome exactly when both are present and no row matches. Acceptance means the first matching row's password equals the given value. A wrong password means it does not |
| Auth.OnlyTheStoredStringIsAccepted | controllers/authController.js:21 | Only the stored password string itself is accepted, never a value that merely coerces to it |
| Auth.SetToken | controllers/authController.js:27 | Rows with that id get the token; every other row, and every other column, is unchanged |
| Auth.SetTokenFrame | controllers/authController.js:27 | A row with another id is unchanged by the token write |
| Auth.SetTokenTwice | controllers/authController.js:26-27 | Logging in twice leaves only the second token |
| Auth.Reject | controllers/authController.js:11-24 | A refused login is answered 400 exactly for missing fields and 401 exactly for a wrong email or password, each with its own message |
| Auth.UserTable.Login | controllers/authController.js:9-38 | 400 for a missing field, 401 for an unknown email or a wrong password, and 500 for a store failure, all with the table unchanged. On success the token signed over the first match's id and email is written to the rows with that id and returned with the redirect |
| Guard.TokenOf | middleware/authMiddleware.js:12 | `split(" ")[1]` is undefined exactly when the header has no space; otherwise it is a space-free word |
| Guard.VerifyToken | middleware/authMiddleware.js:7-18 | 403 exactly when the header is missing or empty. 401 exactly when there is a header but no token, or the token does not verify. Pass exactly with the claims the verifier returns whenever the extracted token verifies |
| Guard.TokenAfterFirstSpace | middleware/authMiddleware.js:12 | The token is the first piece of whatever follows the first space |
| Guard.SchemeIgnored | middleware/authMiddleware.js:12 | The first word of the header is never checked: `scheme + " " + token` yields `token` |
| Guard.TrailingWordsIgnored | middleware/authMiddleware.js:12 | Words after a second space are ignored |
| Guard.AnySchemeSameOutcome | middleware/authMiddleware.js:12-16 | Two headers with different schemes and the same token get the same outcome |
| Guard.BareTokenRejected | middleware/authMiddleware.js:12-14 | A header without a space is refused with 401, even when its text would verify |
| Guard.BearerPasses | middleware/authMiddleware.js:12-16 | `Bearer <token>` passes with the verified claims exactly when the token verifies, and gets 401 otherwise |

## Left out

- I/O and the framework:
  - HTTP, Express routing and response writing are not modelled; replies are values.
  - `console` logging is not modelled.
  - `next(err)` error propagation in the news handlers is not modelled.
  - Process start-up (`server.js`, `App.js`) is not part of this model.
- The upload middleware (`routes/news.js`) is not part of this model:
  - its `Date.now()` filenames;
  - its MIME-type allow-list;
  - creating the `uploads` directory.
  
  What the handlers rely on from it is the precondition `NewsStore.UploadReady`: an uploaded file is already in `uploads`, under a name no row uses.
- News.NewsStore.List and News.Items: column values are listed as they were sent; the database's type conversion on store and read (a `DATE` column read back as a date object, other values read back as the column's text) is not modelled.
- The query defaults of `getNews` (`page = 1`, `limit = 10`, `search = ""`) are not modelled: `List` takes all three as given.
- The order of the keys in the error object is not modelled: the model's error map says which fields failed, not in which order they were added.
- Numbers are integers. Floating point, `NaN` and `parseInt` are not modelled, so `List` requires `page >= 1` and `limit >= 1`.
- `JsValues.StringOf` models `String()` for integers, strings, arrays, booleans, null and undefined. Every plain object prints as `[object Object]`.
- JSON, JWT, SQL `LIKE`, SQL email equality and date ordering are parameters of the model, not definitions:
  - case-insensitive search comes from the database collation, through `like`;
  - token expiry and `iat` come from `sign` and `verify`.
- `search` given as an array in the query string makes `search.trim` throw. The model takes `search` as a string.
- Store failures in the news handlers are not modelled: a failed INSERT, UPDATE, DELETE or unlink ends in `next(err)`. The model also does not cover a crash between the file deletion and the row write.
- `fs.existsSync` before `unlinkSync` is modelled as removing the name from `files`, which does nothing when the file is already gone. Races with other requests are not modelled.
- Concurrency between requests is not modelled: each method runs alone.
- News.NewsStore.Update: the 404 path keeps an orphaned upload in `files`. The model states this, and does not claim that every file in `uploads` belongs to some row.
- Auth.UserTable.Login: a failure of `jwt.sign` is folded into `UpdateFails`. Both end in 500 with the table unchanged.
