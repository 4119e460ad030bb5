# Mercari build-training backend: image store, path guard and item repository

This project models and verifies the decision logic of the Go backend of the
Mercari build-training item listing service. The backend accepts items over
HTTP, stores each uploaded image under a name derived from its content, serves
images back from an image directory, and keeps the items in a SQLite table.

The model covers the following parts of the backend:

- `parseAddItemRequest`: validates the add-item form.
- `storeImage`: names an image by the lower-case hexadecimal SHA-256 of its
  bytes plus `.jpg`, then looks in the image directory before writing.
- `buildImagePath`: joins a requested name onto the image directory, refuses
  directory traversal and non-JPEG names, and reports whether the file exists.
- `GetImage`: serves `default.jpg` when an image is missing.
- `GetItem`: looks an item up by its position in the listing.
- `itemRepository`: `Insert`, `GetAll` and `GetByID` over a table of rows with
  auto-increment ids.

The library behaviour these handlers depend on is modelled exactly where it
decides an outcome, and each piece is its own module:

- `FilePath`: Go's `path/filepath` `Clean`, `Join` and `Rel` on a Unix system.
  They work lexically, on the sequence of path elements, with the stack walk
  that `Clean` performs.
- `Hex`: `hex.EncodeToString`.
- `Strconv`: `strconv.Atoi` and `strconv.Itoa` for 64-bit ints. `Atoi` has
  both of its paths: the fast path for inputs shorter than 19 bytes, and
  `ParseInt` otherwise. On the `ParseInt` path, a digit run that overflows
  64 bits is a range error clamped to the int64 bound, even when junk
  follows it.
- `OsFiles`: the file system, as a class. Its fields are the stored files, the
  paths whose `os.Stat` fails for a reason other than absence, and the paths
  `os.WriteFile` cannot write.
- `Infra`: the item repository, as a class. It holds the rows, the next
  AUTOINCREMENT id, an optional store failure that makes every statement
  fail, and an optional row at which the cursor of a listing stops because
  stepping failed.
- `Server`: the handlers' decisions.

SHA-256 is a parameter `sum256` that returns 32 bytes. The model never computes
it. `EmptyImageName` takes as its hypothesis that `sum256` maps the empty
message to the digest FIPS 180-4 gives for it.

## Model

| member | source | states |
|---|---|---|
| FilePath.CleanElements | go/app/server.go:306 | `filepath.Clean` never returns "", keeps a path rooted exactly when it was rooted, and keeps its element sequence |
| FilePath.CleanIdempotent | go/app/server.go:306 | cleaning a cleaned path changes nothing |
| FilePath.JoinCleanElements | go/app/server.go:306 | joining a cleaned name onto a directory walks the name's elements starting from the directory's elements; for a non-empty directory the result is the printed form of that walk, rooted as the directory is |
| FilePath.RelWithoutDotDot | go/app/server.go:309-310 | `Rel(dir, p)` succeeds without a leading ".." if and only if p's elements extend dir's and the first extra element does not start with ".." |
| FilePath.CommonPrefixLength | go/app/server.go:309 | the shared leading elements that `Rel` skips are a common prefix, and the first elements after it differ |
| FilePath.DotDotPrefixOfJoin | go/app/server.go:310 | a joined element list starts with ".." exactly when its first element does (the prefix test is on characters, so "..a.jpg" counts) |
| FilePath.JoinSplit | go/app/server.go:306 | joining the pieces that splitting at '/' produces gives back the string |
| FilePath.SplitJoin | go/app/server.go:306 | splitting the join of separator-free pieces gives back the pieces |
| FilePath.SplitConcat | go/app/server.go:306 | splitting `a + "/" + b` is splitting a, then b |
| FilePath.JoinPartsLast | go/app/server.go:315 | a joined element list ends with its last element |
| FilePath.WalkAppend | go/app/server.go:306 | the Clean walk over two element lists is the walk over the first, continued over the second |
| FilePath.WalkKeepsClean | go/app/server.go:306 | each step of the Clean walk leaves no empty or "." element and keeps every ".." at the front of a relative path |
| FilePath.WalkOverCleanStack | go/app/server.go:306 | walking over elements that are already clean appends them unchanged |
| FilePath.WalkOverFormat | go/app/server.go:306 | walking over the printed form of a clean element list is walking over the list |
| Hex.HexDigitTable | go/app/server.go:229 | the digit computed for each nibble is that nibble's entry in Go's table "0123456789abcdef" |
| Hex.EncodeToString | go/app/server.go:229 | the encoding has two characters per byte, all of them lower-case hex digits |
| Hex.DecodeEncode | go/app/server.go:229 | decoding the encoding gives back the bytes |
| Hex.EncodeInjective | go/app/server.go:229 | distinct byte strings have distinct encodings |
| Hex.EncodeConcat | go/app/server.go:229 | the encoding of a concatenation is the concatenation of the encodings |
| Hex.EncodeWord | go/app/server.go:229 | four bytes encode to their eight digits, high nibble first |
| Strconv.Atoi | go/app/server.go:193 | the value is always within the int64 range |
| Strconv.AtoiCases | go/app/server.go:193 | a syntax error (value 0) exactly when the text is not an optionally signed digit run and its leading digits fit in 64 bits; no error exactly when it is such a run within the int64 range of its sign, and then the value is the signed number; otherwise a range error whose value is the bound of the sign |
| Strconv.ParseUintCases | go/app/server.go:193 | the unsigned parse is a range error when the leading digit run exceeds 2^64 - 1, whatever follows it; otherwise it is the number for an all-digit text and a syntax error for anything else |
| Strconv.FastPathAgrees | go/app/server.go:193 | below 19 bytes, Atoi's fast path gives the same value and error as `ParseInt` |
| Strconv.AtoiItoa | go/app/server.go:193 | `Atoi(Itoa(n))` is n with no error for every int64 n |
| OsFiles.FileSystem.WriteFile | go/app/server.go:250 | the write succeeds exactly when the path is writable, and then the file at that path holds the data; otherwise nothing changes |
| Infra.FindRow | go/app/infra.go:106 | the first row whose id matches, or none when no row matches |
| Infra.ScanAllOk | go/app/infra.go:90-99 | the scan of every row succeeds exactly when each row scans, and then it lists the scanned rows in table order |
| Infra.ScanAllErr | go/app/infra.go:90-95 | a failed scan reports the error of the first row that does not scan |
| Infra.ScanAllPrefixFailure | go/app/infra.go:90-95 | once a prefix of the rows fails to scan, the later rows change nothing |
| Infra.SelectByIdAgreesWithListing | go/app/infra.go:103-115 | on a table with increasing ids, `GetByID(id)` hits exactly when the listing holds an item with that id, and returns that item |
| Infra.InsertedRowFound | go/app/infra.go:64-75 | after inserting with the next auto-increment id k, selecting k returns the inserted name, category and image |
| Infra.InsertedRowListed | go/app/infra.go:64-75 | inserting adds exactly the new item at the end of the listing and leaves the earlier items as they were |
| Infra.ItemRepository.Insert | go/app/infra.go:64-75 | with a working store, exactly one row is appended with the next id and the item's fields; a store failure is returned unchanged and nothing changes; the table invariant is kept |
| Infra.PartialListing | go/app/infra.go:90-99 | as written: when the cursor stops on a step error at row n, the listing holds exactly the first n items, fewer than the table has |
| Infra.ItemRepository.GetAll | go/app/infra.go:78-100 | as written: either the scanned rows the cursor reached, in table order, with no error even when the cursor stopped on a step error, or an empty list and the store or scan error; the table is not changed |
| Infra.CheckedListingComplete | go/app/infra.go:90-99 | as intended: a listing that reports no error is the listing of the whole table, and there is no error exactly when the cursor never stops early and every row scans |
| Infra.ItemRepository.GetAllChecked | go/app/infra.go:78-100 | as intended: `GetAll` followed by the check of `rows.Err()`; a stopped cursor is reported as an error with an empty list; the table is not changed |
| Infra.ItemRepository.GetByID | go/app/infra.go:103-115 | an item exactly when there is no error; it is the scanned row with that id; "no rows" exactly when no row has the id; a store failure is passed on; the table is not changed |
| Server.ParseAddItemRequest | go/app/server.go:99-119 | fails if and only if the name or the category is empty, with the name checked first; on success it copies name and category verbatim and leaves the image empty |
| Server.ParseIgnoresOtherFields | go/app/server.go:99-104 | fields other than name and category never affect the result |
| Server.ParseAddItemRequestCases | go/app/server_test.go:31-50 | the valid form gives jacket/fashion; the empty form gives "name is required" |
| Server.ImageFileName | go/app/server.go:228-233 | the content name is 68 characters long, ends in ".jpg", and its first 64 characters are lower-case hex |
| Server.ImageFileNameByContent | go/app/server.go:228-233 | two images get the same name if and only if their digests are equal |
| Server.ImageFileNameIsPlain | go/app/server.go:228-233 | a content name is a single path element that neither guard of `buildImagePath` refuses |
| Server.EmptyImageName | go/app/server_test.go:156 | an empty upload is named e3b0c44298fc1c149afbf4c8996fb92427ae41e4649b934ca495991b7852b855.jpg |
| Server.BuildImagePath | go/app/server.go:305-326 | every path it returns is `Join(dir, Clean(name))` and ends in .jpg or .jpeg; "found" exactly when `os.Stat` succeeds on it; a non-JPEG refusal means the joined path lacks both suffixes |
| Server.BuildImagePathConfined | go/app/server.go:308-312 | a traversal refusal happens if and only if the joined path leaves the directory or reaches an element starting with ".." directly under it; every returned path lies inside the directory |
| Server.TraversalUp | go/app/server.go:306-312 | "../../etc/passwd" under "images" is refused as the traversal "../etc/passwd" |
| Server.TraversalThroughSubdirectory | go/app/server.go:306-312 | "x/../../a.jpg" under "images" is refused as the traversal "a.jpg" |
| Server.JoinPlainName | go/app/server.go:306 | joining a plain element onto a directory appends exactly that element, keeps the rootedness and ends with the element |
| Server.PlainJpegResolves | go/app/server.go:305-326 | a plain ".jpg" name always yields its joined path: found when `os.Stat` succeeds, otherwise `errImageNotFound` |
| Server.ContentNameResolves | go/app/server.go:233-235 | `storeImage`'s own name is never refused; it resolves to the directory's elements plus the name |
| Server.StoreImage | go/app/server.go:225-257 | as written: if the file already exists, the name is returned and nothing is written; otherwise the name is "" and the error is `errImageNotFound`; the file system is never changed |
| Server.StoreImageIntoEmptyDirectory | go/app/server.go:235-239 | as written, storing into an empty directory returns `errImageNotFound` and leaves the directory empty |
| Server.StoreImageFixed | go/app/server.go:222-257 | as intended: an existing file makes it return the name without writing; another stat error is reported; an absent file is written under the content name unless the write fails; after success, the path resolves as "found" |
| Server.StoreImageFixedIntoEmptyDirectory | go/app/server.go:222-224 | as intended, storing into an empty directory returns the content name and the directory then holds exactly that file |
| Server.GetImage | go/app/server.go:264-302 | 400 exactly when the name is empty or `buildImagePath` refuses it; otherwise it serves the found path, or `dir/default.jpg` exactly on `errImageNotFound` |
| Server.GetImageConfined | go/app/server.go:287-301 | every file served lies inside the image directory |
| Server.DefaultImageWithin | go/app/server.go:296 | the default image path lies inside the image directory |
| Server.GetImageFallsBack | go/app/server.go:295-297 | a well-formed .jpg name whose `os.Stat` fails falls back to the default image |
| Server.PositionalLookup | go/app/server.go:192-212 | an empty id is 400; a listing failure is 500; the response is an item exactly when the parsed value is a position in the listing, and then it is the item at that position; every other case is 404 |
| Server.GetItem | go/app/server.go:188-220 | the handler answers what the positional lookup gives for the current listing |
| Server.NonNumericIdIsFirstItem | go/app/server.go:193 | a non-numeric id whose leading digits fit in 64 bits, such as "abc", answers with the first item instead of an error |
| Server.OverflowingIdNotFound | go/app/server.go:193-212 | an id whose leading digits exceed 64 bits, such as "99999999999999999999x", is clamped to the int64 bound and answers 404 |
| Server.PositionalLookupMissesIds | go/app/server.go:206-212 | with ids 1, 2, ... the id k answers with the item whose id is k + 1, and the last item's own id is "not found" |
| Server.ByIdLookup | go/app/server.go:206-212 | as intended: an item exactly when the select by id succeeds; "no rows" is 404 |
| Server.GetItemById | go/app/server.go:188-220 | as intended: an empty id is 400, a malformed id is 400, and otherwise the answer is the select-by-id result for the parsed id |
| Server.ByIdLookupFindsId | go/app/server.go:206-212 | as intended, on a valid table the id k answers exactly with the listed item whose id is k, and 404 when no item has it |

## Left out

- HTTP routing, form and multipart decoding, JSON encoding, `http.ServeFile`, CORS, and the logger set up in `Run` together with the `slog` calls in the handlers (server.go:135, 148, 153, 236, 282, 290, 296, 300): I/O plumbing. Logging decides no outcome. The handlers are modelled as their decisions.
- `Hello`: it returns a fixed message and decides nothing.
- `AddItem`: its composition of parse, store and insert is not modelled as one operation. Each of its steps is modelled.
- `parseGetImageRequest`: only its empty-name check is modelled, inside `GetImage`.
- `getDB`, `sync.Once`, the package-level `db` and `log.Fatalf`: process-wide one-time initialisation and concurrency.
- SQL, the SQLite driver and the table schema: the rows are abstract. A statement failure is the repository's `failure` field. A scan failure is a NULL in the name, category or image_name column. That is how a column can fail to become a Go string.
- The schema mismatch between `Insert`'s `category` column and the test schema's `category_id` is not modelled, because the rows are abstract.
- SHA-256 itself: it is the parameter `sum256`, of which the model uses two things. One is its 32-byte result length. The other is the empty-message digest, as the hypothesis of `EmptyImageName`.
- `os.Stat` and `os.WriteFile`: reduced to three stat outcomes and a map update. File modes, directories, symbolic links and partial writes are not modelled.
- Concurrency: the model is sequential. A file that appears or vanishes between the two `os.Stat` calls of `storeImage` is not modelled.
- The empty `StoreImage` stub and the commented-out `loadItems` in infra.go: they do nothing.
- The Go test scaffolding (`setupDB`, gomock, httptest). It serves only as evidence for the expected behaviour.
- The TypeScript front end: UI and network fetches.
- Infra.Item: the id is an unbounded integer, not Go's 64-bit int. Auto-increment overflow is not modelled.
- Strconv: Go's `strconv` package is not part of this model. `Atoi` is written after that package's fast path and `ParseInt`/`ParseUint` loop for base 10. The `NumError` wrapper holding the function name and input is reduced to its error kind.
- Infra.ItemRepository.GetByID: `QueryRow(...).Scan` reports any step error itself, so no separate step failure is modelled for it.
- FilePath.Rel: for a target of "." under a longer base, Go keeps a trailing "." (`Rel("a", ".")` is "../."), which the model drops. Both results start with "..", and the model only looks at that prefix.
- FilePath: paths are Unix paths. Volume names and Windows separators are not modelled.

## Findings

| source | as written | input that shows it | evidently intended | confidence | as-written member | corrected member |
|---|---|---|---|---|---|---|
| go/app/server.go:235-239 | `storeImage` returns every error of `buildImagePath`. That includes `errImageNotFound`, which `buildImagePath` returns for any file not stored yet (server.go:320-323). So the `os.WriteFile` at server.go:250 is never reached, and a new image can never be added | an upload whose content is not in the image directory yet, for example the empty upload with image directory "" in the add-item handler test: the case at server_test.go:134-146 expects 200, and the case at server_test.go:147-162 expects `Insert` to receive the name e3b0…b855.jpg (server_test.go:156) | pass over `errImageNotFound` and go on to the existence check and the write, as the doc comment at server.go:222-224 says | high (not executed) | Server.StoreImage, Server.StoreImageIntoEmptyDirectory | Server.StoreImageFixed, Server.StoreImageFixedIntoEmptyDirectory |
| go/app/infra.go:90-99 | `GetAll` ends its loop when `rows.Next()` returns false and never checks `rows.Err()`. `rows.Next()` also returns false when stepping to the next row fails | a table whose cursor fails while stepping to its second row: `GetAll` returns the first item alone with a nil error, so `GetItem` answers 404 for the id "1" instead of 500 | check `rows.Err()` after the loop and return its error | medium (not executed) | Infra.PartialListing, Infra.ItemRepository.GetAll | Infra.ItemRepository.GetAllChecked, Infra.CheckedListingComplete |
| go/app/server.go:193-212 | `GetItem` drops the `strconv.Atoi` error and uses the parsed value as a position in the listing, not as an item id | ids given by AUTOINCREMENT start at 1, so `/items/1` returns the item with id 2, and the last item cannot be reached by its own id; `/items/abc` returns the first item instead of 400 | answer 400 for a malformed id and look the item up by its id (`GetByID`) | high (not executed) | Server.PositionalLookupMissesIds, Server.NonNumericIdIsFirstItem | Server.GetItemById, Server.ByIdLookupFindsId |
