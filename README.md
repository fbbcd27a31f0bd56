# Content backend: a verified model

This project models the core of a small Express/MySQL content backend. The backend serves news items, community art, a featured YouTube video and the two category lists. Authenticated editors maintain that content, and Admins also manage the editor accounts. The MySQL tables are held as sequences of rows in one `Database` object. The image store (the local upload directory and the FTP server) is a `FileStore` object holding two sets of paths. Each HTTP handler becomes a method that changes those objects. The method's contract gives the response and the new state for every branch the handler takes.

Modules, one per source file plus shared helpers:

- `Users` (routes/users.js): the Admin-only account handlers. The proved invariant is that usernames stay unique and at least one Admin account always remains.
- `Categories` (routes/categories.js): news and art categories, handled by the same code with a `Kind` parameter. Names are stored trimmed and kept unique. A rename relabels every dependent row in one all-or-nothing step. A category still in use cannot be deleted.
- `Arts` (routes/communityArts.js):
  - `cleanArtistName` and a model of the regular expression `/\s+ART\s*$/i` with JavaScript's leftmost-match semantics;
  - the community-art handlers;
  - the rule for when an update deletes the old image.
- `Upload` (routes/upload.js): the generated filename (`sanitize`, truncation, defaults), the MIME filter, and what the upload handler leaves on disk and on the FTP server.
- `Files` (utils/fileUtils.js): how a stored image path becomes a filename, a remote path or a local path. It also models the best-effort delete, which answers with a boolean and never fails.
- `Youtube` (routes/youtube.js):
  - `extractVideoId`: three regular expressions tried in order, with ordered alternation, greedy captures and `.` stopping at line terminators, then a bare 11-character id;
  - the Admin-only update of the single video row.
- `News` (routes/news.js): required fields, defaults, the listing order and the 404 behaviour.
- Shared modules:
  - `Schema`: the tables of config/initDatabase.js and the state they start in.
  - `Table`: the SQL statements over keyed rows.
  - `Ordering`: `ORDER BY` as a sort by a total preorder.
  - `Text`: the JavaScript string primitives.
  - `Paths`: POSIX `path.join`, `basename` and `extname`.
  - `Wrappers`: `Option` and the reply type.

Inputs the handlers get from outside are method parameters:

- the authenticated `req.user`;
- the clock;
- whether FTP is configured;
- whether an FTP transfer or an unlink fails;
- whether a statement of the rename transaction fails.

## Model

| member | source | states |
|---|---|---|
| Schema.ParseRole | routes/users.js:66-68 | `user_role` names a role exactly when it is the string `Admin` or `Editor`, in both directions |
| Schema.Database.constructor | config/initDatabase.js:95-131 | initial state: the single account `admin` with role Admin and the configured or default password, the default video in row 1, every other table empty; the table invariants hold |
| Schema.Database.Usage | routes/categories.js:161-166 | the usage count of a category name is 0 exactly when no dependent row is filed under it |
| Users.Views | routes/users.js:17-21 | the listing shows every account in order, each without its password hash |
| Users.ListUsers | routes/users.js:10-21 | 403 for a non-Admin caller; otherwise a permutation of all accounts, newest first |
| Users.GetUser | routes/users.js:29-45 | 403 for a non-Admin; 404 exactly when no account has the id; 200 exactly when an Admin asks for an existing id, with the view of the account with that id |
| Users.CreateUser | routes/users.js:53-94 | 403, then 400 without username or password, then 400 for a role other than Admin/Editor, then 400 when the username is taken (each an iff, table unchanged); otherwise exactly one row with the hashed password and given role is appended under the next id and 201 returns it; invariants kept |
| Users.UpdateUser | routes/users.js:102-178 | 403; 404 iff the id is unknown; 400 iff another account holds the new username; 400 iff the body demotes the only Admin; 400 iff no valid field is given; 200 exactly when none of these applies (so renaming an account to its own username is allowed), and then only the given fields of that row change, an unrecognised role is ignored, and usernames stay unique with an Admin remaining |
| Users.AssembleChanges | routes/users.js:121-166 | the `SET` list is empty exactly when the body names no username, no password and no recognised role, and applying it in order gives the account with just those fields replaced |
| Users.ChangesInOrder | routes/users.js:121-176 | applying the `SET` list in the order the handler pushes it gives the row with exactly the provided fields replaced |
| Users.HoldersFound | routes/users.js:127-134 | the duplicate-username query finds a row exactly when an account with another id holds the name |
| Users.StoreUpdate | routes/users.js:171-176 | the assembled `UPDATE` replaces that one row and keeps the table invariants, given the handler's checks |
| Users.UpdateKeepsUsersValid | routes/users.js:124-165 | an update that passed the duplicate and last-Admin checks keeps keys unique, usernames unique and an Admin present |
| Users.DeleteUser | routes/users.js:186-221 | 403; 400 iff the id is the caller's own (checked before existence); 404 iff unknown; 400 iff it is the only Admin; 200 exactly when none of these applies (so an Admin can go while another remains), and then exactly that row is removed and the invariants hold |
| Users.UpdateKeepsAnAdmin | routes/users.js:148-165 | an update that does not demote the only Admin leaves at least one Admin |
| Users.DemotingSoleAdminLeavesNone | routes/users.js:150-160 | without the guard, demoting the only Admin would leave none |
| Users.DeleteKeepsAnAdmin | routes/users.js:210-219 | a deletion that does not remove the only Admin leaves at least one Admin |
| Users.DeletingSoleAdminLeavesNone | routes/users.js:211-216 | without the guard, deleting the only Admin would leave none |
| Categories.RequestedName | routes/categories.js:44-50 | no name iff the field is missing, empty or white space only; otherwise a non-empty trimmed name |
| Categories.RequestedNamePadded | routes/categories.js:46-50 | white space around a name does not change the name stored |
| Categories.HoldersFound | routes/categories.js:103-110 | the duplicate-name query finds a row exactly when another category holds the name |
| Categories.ByNameIsTotalPreorder | routes/categories.js:12-14 | `ORDER BY name` is a total preorder on categories |
| Categories.ListCategories | routes/categories.js:10-15 | a permutation of the kind's categories sorted by name (the art list at 184-189 is the same code) |
| Categories.GetCategory | routes/categories.js:23-34 | 404 iff no category of the kind has the id; otherwise that row |
| Categories.CreateCategory | routes/categories.js:42-71 | 400 iff no usable name; 409 iff the trimmed name exists; 201 exactly when the name is usable and unheld, and then exactly one row with the trimmed name is appended under the next id; the other kind's table is untouched; names stay unique and trimmed |
| Categories.RenameCategory | routes/categories.js:82-137 | 400, 404, 409 (another id holds the name) and 500 (a failing statement) as iffs, each leaving categories, news and art unchanged; 200 exactly when none applies (so keeping a category's own name is allowed), and then only that row is renamed and every dependent row under the old name, and only those, carries the new one |
| Categories.CommitRename | routes/categories.js:113-127 | both statements of the transaction: the category row renamed, the dependent table relabelled, the other tables untouched |
| Categories.RenameRow | routes/categories.js:116-119 | `UPDATE … SET name = ? WHERE id = ?`: only that row of the kind's category table is renamed, the other table is untouched and the tables stay valid (the new name is clean and held by no other id) |
| Categories.RelabelDependents | routes/categories.js:121-125 | `UPDATE … SET category = new WHERE category = old` on the kind's dependent table only, moving the old name's usage to the new name |
| Categories.RenameKeepsCategoriesValid | routes/categories.js:102-119 | a rename to a trimmed, non-empty name no other id holds keeps keys and names unique |
| Categories.RelabelNewsUsage | routes/categories.js:121-125 | after relabelling, no news item is under the old name and the new name counts the items of both |
| Categories.RelabelArtUsage | routes/categories.js:295-299 | the same for community art |
| Categories.DeleteCategory | routes/categories.js:148-174 | 404 iff unknown; 409 carrying the usage count iff some dependent row uses the name; 200 exactly when the category exists and is unused, and then exactly that category is removed; neither id counter changes |
| Files.ExtractFilename | utils/fileUtils.js:59-67 | a path with `community_art/` gives the text after its FIRST occurrence up to the next one or the end; a path without it but with `/` gives its `basename`; a path without `/` is its own filename; the filename never contains `community_art/` |
| Files.FirstMarkerDecides | utils/fileUtils.js:45 | with several markers, the filename is exactly the text between the first and the next one, not the text after the last |
| Files.FtpFilename | utils/fileUtils.js:44-46 | the FTP branch's test (marker or `basename`) extracts the same filename as the local branch |
| Files.RemotePath | utils/fileUtils.js:41-48 | the remote path always starts with `assets/`: a path already starting with it is kept, any other becomes `assets/community_art/` plus the extracted filename |
| Files.ImagePath | utils/fileUtils.js:97-110 | null exactly for an empty path; otherwise the directory joined with the extracted filename |
| Files.StoredPathRoundTrip | routes/upload.js:110 | for a filename without the marker, the stored path `assets/community_art/<name>` gives the name back and is its own remote path |
| Files.StoredImageLocation | utils/fileUtils.js:69-72 | under a canonical directory, the local target of a stored plain filename, and the file it resolves to, is the file `path.join` names, `dir/filename` |
| Files.StoredPathClimbs | utils/fileUtils.js:59-72 | a stored path whose filename is `../<name>` makes the local delete under `/<a>/<b>` reach `/<a>/<name>`, outside the art directory |
| Files.ServerFileOfSlashFree | utils/ftpUtils.js:83-90 | when the directory part of a remote path holds no backslash, the FTP delete removes the file the whole path resolves to |
| Files.RemoteBackslashSeparates | utils/ftpUtils.js:83 | a backslash in the directory part is a separator for the FTP delete: `assets/a\b/<name>` removes `<name>` in `assets/a/b` |
| Files.StoredRemoteFile | utils/ftpUtils.js:83-90 | the FTP delete of a stored path `assets/community_art/<name>` removes the file that path resolves to |
| Files.StoredPathClimbsRemote | utils/ftpUtils.js:83-90 | in FTP mode a stored path `assets/community_art/../../<name>` makes the delete reach `<name>` at the FTP root, a file no upload writes |
| Files.DeleteCommunityArtImage | utils/fileUtils.js:32-90 | false and no change on an empty path; in FTP mode the file the remote path resolves to on the server (backslashes in its directory part read as `/`) is removed and the answer is true unless FTP fails; locally the file the target resolves to (`.`, `..` and repeated `/` resolved) is removed and true returned iff it exists and the unlink succeeds; it never fails |
| Paths.Basename | utils/fileUtils.js:46 | the basename has no `/`, and a path without `/` is its own basename |
| Paths.ExtName | routes/upload.js:43 | the extension is empty or a `.` followed by neither `.` nor `/` |
| Paths.JoinPlainName | utils/fileUtils.js:110 | joining a plain filename to a canonical directory is `dir + "/" + name` |
| Paths.JoinClimbs | utils/fileUtils.js:110 | `path.join` resolves a `..` in the filename, so a name can climb out of the directory |
| Text.Trim | routes/categories.js:46-50 | the result has no white space at either end, is empty exactly for white-space-only input, and leaves a trimmed string alone |
| Text.TrimPadded | routes/categories.js:50 | trimming removes exactly the padding around a trimmed core |
| Text.SecondPiece | utils/fileUtils.js:45 | `split(sep)[1]`: the separator occurs at `i` and nowhere before, the result is the text from the end of that occurrence up to the next occurrence or the end of the string, and it holds no separator |
| Text.ReplaceChar | utils/fileUtils.js:71 | `replace(/\\/g, '/')` replaces every backslash, one for one |
| Text.NatToStringRoundTrip | routes/upload.js:42-53 | the decimal rendering of the timestamp reads back as the timestamp |
| Ordering.SortBy | routes/categories.js:12-14 | an `ORDER BY` result is a permutation of the table |
| Ordering.SortBySorted | routes/categories.js:12-14 | sorting by a total preorder yields an ordered sequence |
| Upload.ReplaceNonAlnum | routes/upload.js:48 | every character of the result is an ASCII letter, a digit or `_` |
| Upload.LowerAscii | routes/upload.js:48 | each character is lower-cased in place |
| Upload.Prefix | routes/upload.js:48 | `substring(0, n)` keeps the first `min(n, length)` characters |
| Upload.Sanitize | routes/upload.js:46-49 | the result is non-empty, at most 30 characters from `[a-z0-9_]`, and `unknown` for an empty string |
| Upload.ReplaceNonAlnumSafe | routes/upload.js:48 | the replacement leaves a string of `[a-z0-9_]` unchanged |
| Upload.SanitizeSafe | routes/upload.js:46-49 | a non-empty string of at most 30 characters from `[a-z0-9_]` is its own sanitisation |
| Upload.SanitizeIdempotent | routes/upload.js:46-49 | sanitising twice is sanitising once |
| Upload.ReplaceNonAlnumBmp | routes/upload.js:48 | for text in the Basic Multilingual Plane, each character maps to itself if alphanumeric, else to one `_` |
| Upload.AstralTakesTwo | routes/upload.js:48 | a character outside the BMP is two UTF-16 code units and becomes `__` |
| Upload.ArtistSegment | routes/upload.js:40-50 | the artist segment is non-empty, at most 30 characters, from `[a-z0-9_]` |
| Upload.CategorySegment | routes/upload.js:41-51 | the category segment is non-empty, at most 20 characters, from `[a-z0-9_]` |
| Upload.ArtistDefault | routes/upload.js:40-50 | a missing or white-space-only artist gives `unknown` |
| Upload.CategoryDefault | routes/upload.js:41-51 | a missing or empty category gives `art`; a non-empty white-space-only one gives `unknown` |
| Upload.Stem | routes/upload.js:39-53 | the name before the extension is non-empty and from `[a-z0-9_]` |
| Upload.SafeStemWithExt | routes/upload.js:43-53 | appending the extension introduces no `/` (nor `\` if the extension has none) and `extname` gives the extension back |
| Upload.FilenameKeepsExtension | routes/upload.js:43-53 | the generated filename has the extension of the original name |
| Upload.FilenameIsPlain | routes/upload.js:53 | the generated filename is a plain name with no directory part and no `community_art/` marker |
| Upload.UploadCommunityArt | routes/upload.js:90-135 | no file gives 400 and a non-image 400, both changing nothing; an image is stored under the generated name with the outcome below |
| Upload.Receive | routes/upload.js:104-135 | locally the file is written and 200 returns `assets/community_art/<name>`; in FTP mode a failed transfer or unlink gives 500 and keeps the local file, and only a completed transfer and unlink removes it, answering 200 with the same path |
| Upload.UploadedImageIsDeletable | routes/upload.js:110 | the stored path of an upload leads the delete helper and `getCommunityArtImagePath` to the remote path and the local file the upload wrote |
| Arts.SuffixMatch | routes/communityArts.js:11 | finds the leftmost position where `/\s+ART\s*$/i` matches, or reports that it matches nowhere |
| Arts.CleanArtistName | routes/communityArts.js:9-12 | null or empty input comes back unchanged; any other input gives a trimmed name |
| Arts.CleanStripsSuffix | routes/communityArts.js:11 | padding, a trimmed name, a white-space gap, `ART` in any case and trailing space give back the name |
| Arts.CleanKeepsGluedArt | routes/communityArts.js:11 | `ART` not preceded by white space (as in `JaneART`, or `ART` alone) is kept |
| Arts.CleanStripsArt | routes/communityArts.js:11 | `<name> ART` gives `<name>` |
| Arts.CleanStripsOnce | routes/communityArts.js:11 | one suffix goes per call: `<name> ART ART` gives `<name> ART`, and a second call gives `<name>` |
| Arts.CleanEmpty | routes/communityArts.js:10-11 | a cleaned name is empty exactly when the input is white space only |
| Arts.Published | routes/communityArts.js:21-24 | an answered row is the stored row with only its artist cleaned (trimmed; empty iff blank) |
| Arts.PublishedAll | routes/communityArts.js:21-24 | every listed row is cleaned, in order |
| Arts.Written | routes/communityArts.js:69-71 | the written row keeps image and category, cleans the artist, defaults the title to `''` and xHandle, xUrl and description to null |
| Arts.ListArts | routes/communityArts.js:15-25 | a permutation of all rows with cleaned artists, newest first |
| Arts.GetArt | routes/communityArts.js:33-50 | 404 iff no row has the id; 200 exactly when one does, with that row and its artist cleaned |
| Arts.CreateArt | routes/communityArts.js:58-80 | 400 iff image, category or artist is missing, inserting nothing; otherwise exactly one row with the defaults is appended and 201 answers it cleaned |
| Arts.UpdateArt | routes/communityArts.js:88-120 | 404 iff unknown, changing nothing; the old image is deleted iff old and new image are both non-empty and differ; 500 iff a `NOT NULL` column is missing from the body (after that delete); 200 exactly when the row exists and every `NOT NULL` column is given, and then exactly that row is rewritten |
| Arts.DeleteArt | routes/communityArts.js:128-145 | 404 iff unknown, changing nothing; 200 exactly when the row exists, and then exactly that row is removed and then its image file is deleted as the helper does |
| Youtube.Run | routes/youtube.js:17 | the capture `[^&\n?#]+` is the longest run from its start without `&`, `\n`, `?` or `#` |
| Youtube.FirstAlt | routes/youtube.js:17 | at a position, the first alternative in order that matches is taken |
| Youtube.LiteralSearch | routes/youtube.js:17-18 | the match is at the leftmost position where some alternative occurs |
| Youtube.LineEnd | routes/youtube.js:19 | `.*` cannot cross a line terminator |
| Youtube.LastQuery | routes/youtube.js:19 | the greedy `.*` backtracks to the last `?v=` or `&v=` before the bound that an id character follows |
| Youtube.QueryFrom | routes/youtube.js:19 | the last `[?&]v=` followed by an id on the line of `youtube.com/` is the one captured |
| Youtube.QuerySearch | routes/youtube.js:19 | the leftmost `youtube.com/` with such a parameter, and the last parameter after it, are chosen |
| Youtube.Search | routes/youtube.js:16-20 | a capture is non-empty and contains none of `&`, `\n`, `?`, `#` |
| Youtube.FirstMatch | routes/youtube.js:22-27 | patterns are tried in order and the first capture wins; it is non-empty and free of stop characters |
| Youtube.VideoId | routes/youtube.js:9-35 | null for missing or empty input; any id returned is non-empty and contains no `&`, `\n`, `?` or `#` |
| Youtube.ExtractVideoId | routes/youtube.js:22-34 | the loop over the patterns computes the same id as the pattern-by-pattern definition |
| Youtube.VideoIdIgnoresPadding | routes/youtube.js:13 | white space around the URL does not change the id |
| Youtube.NoMatchWithoutDot | routes/youtube.js:16-20 | no pattern matches text without a `.` |
| Youtube.BareIdAccepted | routes/youtube.js:30-32 | an 11-character `[A-Za-z0-9_-]` string is accepted as its own id |
| Youtube.LiteralCapture | routes/youtube.js:17 | a literal alternative followed by a stop-free id captures exactly that id |
| Youtube.ShortLinkId | routes/youtube.js:17 | `https://youtu.be/<id>` gives `<id>` |
| Youtube.WatchLinkId | routes/youtube.js:17 | `https://www.youtube.com/watch?v=<id>` gives `<id>` |
| Youtube.GetVideo | routes/youtube.js:38-46 | answers the stored row |
| Youtube.UpdateVideo | routes/youtube.js:54-85 | 403 for a non-Admin; 400 iff the URL is missing; 400 iff no id can be extracted (each leaving the row unchanged); 200 exactly when an Admin gives a URL with an id, and then row 1 holds the extracted id and the raw URL, and the answer carries both |
| News.Written | routes/news.js:48-51 | the timezone defaults to `(UTC)`, the link to null and `featured` to false; the required columns are taken as given |
| News.LaterFirstIsTotalPreorder | routes/news.js:11 | the order the listing evidently intends, latest date first and newest first within a date, is a total preorder |
| News.ListedFirstIsTotalPreorder | routes/news.js:11 | the order the query applies, `ORDER BY date DESC, created_at DESC` with `date` the `"%M %d, %Y"` alias, is a total preorder |
| News.ListingNotChronological | routes/news.js:11 | the listing puts an item of 2023-05-10 above one of 2024-05-01 (as text, "May 10, 2023" follows "May 01, 2024"), while the date order puts the 2024 item first |
| News.ListNews | routes/news.js:8-13 | a permutation of all items, sorted descending by the rendered date text "Month DD, YYYY" and newest first among equal texts |
| News.ListNewsByDate | routes/news.js:8-13 | the corrected listing: a permutation of all items, latest date first and newest first within a date |
| News.GetNews | routes/news.js:21-32 | 404 iff no item has the id; 200 exactly when one does, with that item |
| News.CreateNews | routes/news.js:40-54 | 400 iff date, category, title or excerpt is missing, inserting nothing; otherwise exactly one row with the defaults is appended and 201 answers it |
| News.UpdateNews | routes/news.js:62-78 | 404 iff unknown; no required-field check, but a body without a `NOT NULL` column is refused by the database (500); both leave the table unchanged; 200 exactly when the item exists and every `NOT NULL` column is given, and then every column of that row is rewritten with the create defaults |
| News.DeleteNews | routes/news.js:86-94 | 404 iff unknown, changing nothing; 200 exactly when the item exists, and then exactly that row is removed |

## Left out

- Authentication (routes/auth.js, the token middleware): the authenticated `req.user` is a parameter. The routes for arts, news and categories check no role.
- bcrypt: a password hash is modelled as the password it hashes.
- config/database.js and server.js: pool configuration, CORS, rate limiting and startup are library configuration. They are not part of this model.
- utils/ftpUtils.js: the FTP client is I/O. `isFTPEnabled()` is a boolean (the code returns the last truthy environment string), and FTP and unlink failures are parameters.
- Concurrency: every handler runs as one atomic step. The `ER_DUP_ENTRY` fallbacks, which only a concurrent request can reach, are not modelled, and neither is the transaction engine beyond all-or-nothing.
- Collation: `utf8mb4_unicode_ci` compares names case-insensitively and ignores trailing spaces. The model compares exact strings and orders them lexicographically by code point.
- Column widths (`VARCHAR(n)`), `updated_at` and the categories' `created_at` are not modelled.
- DATE values:
  - a news date is kept as the request's string, taken to be `YYYY-MM-DD`; the listing renders it as `"%M %d, %Y"` and sorts that text, and a date in another spelling MySQL accepts is not re-rendered;
  - `DATE_FORMAT` rendering in the listing and in the single-item answer is SQL-side and not modelled;
  - News.CreateNews and News.UpdateNews: a date string MySQL cannot parse is refused with 500, which is not modelled.
- Youtube.GetVideo: the 404 for a missing row is not modelled, because initialisation always creates row 1 and no handler deletes it.
- Non-numeric path ids: an id is an integer, and MySQL's coercion of other strings is not modelled.
- Responses re-read the row just written. The model answers the written row, which is the same data.
- Arts.DeleteArt: the image delete runs after the row delete. The order is not observable, because the helper never fails.
- multer internals:
  - the size limit and its error text;
  - the resolution and creation of the upload directory (the directory is a canonical absolute path given as a parameter);
  - the filter's error message.
- Files.DeleteCommunityArtImage: a file is identified by its lexically resolved path (`path.posix.normalize`), a remote one relative to the FTP root, after the backslashes of its directory part became `/`. Symbolic links, the working directory of a relative local path, a remote path that climbs above the FTP root, and the server's handling of a trailing `/` or a final `..` after `cd(dirname)` are not modelled.
- Paths: only POSIX `path.join` is modelled. On a Unix host the directory starts with `/`, so the local delete's `path.join` branch for Windows roots is out of scope.
- Upload.Sanitize: characters are Unicode scalar values. A character outside the Basic Multilingual Plane counts as the two UTF-16 code units it is in JavaScript, so it becomes `__`.
- Logging (`console.log`/`console.error`) is left out.
- Arts.UpdateArt and News.UpdateNews: the 500 for a missing `NOT NULL` column assumes MySQL's strict SQL mode (the default since MySQL 5.7, and the pool sets no `sql_mode`). In non-strict mode the column would take its implicit default with a warning and the handler would answer 200; that mode is not modelled.
- Upload.UploadCommunityArt: multer fills `req.body` in stream order. The model takes `artist` and `category` as known when the file arrives. A form that sends them after the `image` part, so that the name falls back to `unknown`/`art`, is not modelled.
- Request fields are strings (and `featured` a boolean). A JSON value of another type, which makes `.trim()` throw (answering 500) or reaches MySQL as it is, is not modelled.

## Findings

| source | as written | input that shows it | evidently intended | confidence | as-written member | corrected member |
|---|---|---|---|---|---|---|
| routes/news.js:11 | `ORDER BY date DESC` resolves `date` to the select-list alias `DATE_FORMAT(date, "%M %d, %Y")`, so items are sorted by the text "Month DD, YYYY" | items dated 2023-05-10 and 2024-05-01: "May 10, 2023" is listed first | latest date first, sorting on the `news.date` column | high, not executed | News.ListingNotChronological | News.ListNewsByDate |
