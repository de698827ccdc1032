# Photo gallery: a Dafny model of the upload, delete and gallery logic

The application is a small photo gallery for a school. Visitors browse one gallery per class group
(`turma`): 7th, 8th and 9th year and the first two years of secondary school. A password-gated
admin uploads and deletes images. This project models the logic behind the web routes:

- the fixed group catalog and the extension allow-list;
- the file-name check `allowed_file` and the database-URL rewriting `normalize_database_url`;
- the image table. It is a map from primary key to record: file name, original name, optional
  caption, optional group and upload time;
- the upload directory, modelled as a set of file names;
- the session's admin flag, the login and logout actions, and the guard in front of the admin
  actions;
- the upload and delete workflows, with their checks in the source's order;
- the read-only queries: per-group counts and newest image, the gallery of one group, and the
  admin listing with its permissive filter.

Files:

- `wrappers.dfy`: `Option`.
- `catalog.dfy` (module `Catalog`): the catalog, the allow-list, `AllowedFile`, `Strip` (Python's
  `str.strip`), `Lower` and `NormalizeDatabaseUrl`.
- `records.dfy` (module `Records`): the `Image` record, listing order and the queries as functions
  over the table, each with a contract stating what it returns.
- `store.dfy` (module `Store`): the class `Gallery`. Its fields `images`, `blobs` and `isAdmin` are
  updated in place by the request handlers, which return an `Outcome` naming where the request
  ends up.

## Model

| member | source | states |
|---|---|---|
| `Catalog.CatalogShape` | app.py:11-18 | the catalog has five distinct keys, and the ordered key list holds exactly the catalog's keys |
| `Catalog.TurmaKeyIndex` | app.py:18 | every catalog key stands somewhere in the ordered key list |
| `Catalog.LastDot` | app.py:22 | the position of the last '.', absent exactly when the name has no '.' |
| `Catalog.LastDotUnique` | app.py:22 | any '.' with no '.' after it is the one `rsplit(".", 1)` splits at |
| `Catalog.Extension` | app.py:22 | the second part of `rsplit(".", 1)`: absent exactly when the name has no '.', otherwise the text after the last '.', which holds no '.' |
| `Catalog.AllowedFile` | app.py:21-22 | a name is accepted iff it has a '.' and the lower-cased text after its last '.' is in the allow-list (both directions) |
| `Catalog.AllowedFileExamples` | app.py:8 | `photo.JPG` and `photo.gif.png` are accepted; `doc.pdf`, `noext`, `photo.jpg.exe` and `photo.` are rejected |
| `Catalog.IsSpace` | app.py:150 | on ASCII, exactly the blank, tab to carriage return, and the separators 0x1C to 0x1F count as white space |
| `Catalog.TrimStart` | app.py:150 | removes exactly the leading white space |
| `Catalog.TrimEnd` | app.py:150 | removes exactly the trailing white space |
| `Catalog.Strip` | app.py:150-151 | the result is a slice of the input that neither starts nor ends with white space, and everything cut off is white space |
| `Catalog.StripIdempotent` | app.py:138 | stripping twice is stripping once |
| `Catalog.ReplaceFirst` | app.py:30 | when the text starts with the pattern, only that leading occurrence is replaced |
| `Catalog.NormalizeDatabaseUrl` | app.py:24-31 | a URL starting with `postgres://` becomes `postgresql://` plus the original remainder; any other URL, the empty one included, is returned unchanged |
| `Catalog.NormalizeIdempotent` | app.py:29-31 | normalising a normalised URL changes nothing |
| `Catalog.NormalizeExamples` | app.py:45-46 | the legacy Postgres URL is rewritten; Postgres, SQLite and empty URLs are kept |
| `Records.FirstExists` | app.py:114 | every non-empty set of rows has a first row in newest-first order |
| `Records.Ordered` | app.py:114 | lists each given key exactly once, each row strictly before the next (newer, or as new with a larger id) |
| `Records.OrderedRecords` | app.py:142 | the rows of a key set, newest first: exactly the stored rows of that set, none twice, with non-increasing upload time |
| `Records.GroupSize` | app.py:99-102 | a group value's row count is zero exactly when no row has that value, and never exceeds the table's size |
| `Records.Latest` | app.py:104-105 | the newest row of a group is absent iff no row has that group; otherwise it is a stored row of the group at least as new as every row of the group |
| `Records.Galeria` | app.py:109-115 | a key outside the catalog gives no listing (redirect); a catalog key gives exactly that group's rows, as many as the group counts, newest first |
| `Records.AdminListing` | app.py:138-142 | the filter applies only when it is a catalog key; otherwise every row is listed; newest first in both cases |
| `Records.GroupSizeAfterInsert` | app.py:175-177 | inserting a row adds one to its group's count and leaves every other count alone |
| `Records.GroupSizeAfterRemove` | app.py:197-199 | removing a row takes one from its group's count and leaves every other count alone |
| `Records.NewestUploadListedFirst` | app.py:114 | a row uploaded later than every row of its group heads that group's gallery, which grows by one |
| `Store.UploadFilename` | app.py:168-170 | a stored name is the stamp, a '.', and the client name's lower-cased extension, which is also the text after the stored name's last '.', and is on the allow-list when the client name is accepted |
| `Store.UploadFilenameExample` | app.py:169-170 | `photo.JPG` is stored as the stamp followed by `.jpg` |
| `Store.StoredCaption` | app.py:175 | the caption is stored stripped, and as None exactly when it is all white space |
| `Store.Gallery.constructor` | app.py:35 | a fresh gallery has no rows, no files, no admin flag and the configured password |
| `Store.Gallery.Guard` | app.py:57-63 | a request is refused iff the admin flag is unset, and the refusal carries the requested path |
| `Store.Gallery.Auth` | app.py:117-127 | the right password sets the flag and redirects to `next` (the admin listing when `next` is absent or empty); a wrong one leaves the flag as it was |
| `Store.Gallery.Logout` | app.py:129-133 | the flag is cleared |
| `Store.Gallery.SaveBlob` | app.py:172-173 | the upload directory gains exactly the saved name |
| `Store.Gallery.RemoveBlob` | app.py:192-195 | the named file is gone afterwards; whether it existed is reported, and a missing file is not an error |
| `Store.Gallery.Upload` | app.py:145-180 | without the flag: refused, nothing changes. Otherwise an invalid group is reported first, a missing or unnamed file second, a disallowed extension third, and each failure leaves rows and files unchanged. On success the directory then holds the stored name, exactly one row is added, and every existing row is unchanged |
| `Store.Gallery.Delete` | app.py:184-201 | without the flag: refused, nothing changes; an absent id: not found, nothing changes; otherwise exactly that row and its file are removed, whether or not the file existed, and the former group is reported |
| `Store.Gallery.Admin` | app.py:135-143 | without the flag: refused; otherwise exactly the filter group's rows (a stripped catalog key) or all rows, newest first |
| `Store.Gallery.Index` | app.py:92-107 | for every catalog key and no other: its row count and its newest row |
| `Store.Gallery.CountByGroup` | app.py:96-102 | every catalog key gets the number of rows of its group, zero when there are none; rows outside the catalog are counted nowhere |
| `Store.Gallery.LatestByGroup` | app.py:104-105 | every catalog key gets its group's newest row |
| `Store.UploadThenDelete` | app.py:165-199 | an accepted upload followed by deleting its row both succeed, and leave the table and the upload directory as they were when the stored name was new |

## Left out

- Web framework and presentation: routing, templates, flash messages, redirects and URL building.
  Each handler returns an `Outcome` naming the redirect or page instead. The GET forms of the login
  and upload routes only render a page and are not modelled. Serving stored files (app.py:86-88) is
  not modelled either.
- Bootstrap and configuration (app.py:33-49, 67-75): environment reading, directory creation, the
  lazy one-time table creation with its module-level flag, and the upload size limit. These happen
  in the framework, before any handler runs. The admin password is a constructor parameter.
- The clock: the upload time and the file-name stamp are inputs of `Upload`. The stamp's freshness
  is a precondition, standing for the unique `filename` column (app.py:79); stamp uniqueness is not
  proved. The new row's id is an input as well, chosen by the database and required to be unused.
- `secure_filename`: the library is not part of this model. The stored extension comes from the
  client's name rather than the sanitised one. For names such as `..jpg`, where sanitising removes
  the '.', the source fails while this model stores the upload.
- Tie order: the source orders by upload time and lets the database order equal times. The model
  settles ties by the larger id first, and its lemmas promise only non-increasing upload time.
- `Catalog.Lower`: only ASCII letters are lower-cased, where Python lower-cases all of Unicode.
  This cannot change a verdict of the allow-list. Python lowers two non-ASCII characters to text
  with an ASCII letter: the Kelvin sign becomes `k`, and the capital I with dot above becomes `i`
  followed by a combining dot, so the length can change. No allowed extension contains a `k` or a
  combining dot, so such names are rejected either way.
- `original_name` is a nullable column (app.py:80). The model keeps it as a plain string, because
  the only writer, the upload handler, always sets it to the client's file name.
- Column length limits (255 and 200 characters) are not enforced. SQLite does not enforce them
  either.
- Filesystem and database failures: removal errors other than a missing file, a failed commit
  after the file was saved (an orphan file), and concurrent requests.
- Session signing and expiry. The password check is plain string equality, as in the source.
- Two behaviours of the code that a reader might expect otherwise; the model follows the code:
  - a wrong password leaves an already set flag set, rather than clearing it;
  - an empty caption is stored as None, not as an empty string.
