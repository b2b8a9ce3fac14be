# Inventory service handlers and search builder, in Dafny

This project models the decision logic of an inventory web service written in Go. There are three parts:

- **The search-statement builder.** `searchForProductData` turns a report filter (name, manufacturer and SKU substrings) into a SQL text and its positional arguments.
- **The HTTP handlers.** These are the product collection and item handlers, the report handler and the receipt upload/list/download handlers. Each one becomes a pure function from a request and an environment to a `Handled` value: the `Response` together with the store or filesystem operations invoked, in order. The download handler returns a `DownloadOutcome`, which is either a panic or such a value. The environment holds what the store, the filesystem, the JSON encoder and the template library answer. A `Response` records:
  - the status passed to `WriteHeader`, or none;
  - the header entries set;
  - what was written.
- **The pieces of Go's standard library the code calls.** These are written out so their edge cases are explicit:
  - `strings.Split` and ASCII `strings.ToLower`;
  - `strconv.Atoi` and `strconv.FormatInt`;
  - the truncating `%` behind the template helper `mod`.

  `Index`, `LastIndex`, `Join` and `Contains` are modelled too, although the code never calls them. The properties of `Split` and of the builder are stated with them.

Modules:

- `Wrappers`: `Option`.
- `GoStrings`: the Go string functions the handlers use, plus lemmas about Split and Join.
  - `Split(s, sep)` cuts at each occurrence of `sep`, left to right, with no overlaps. It returns one more piece than there are occurrences.
  - `FirstCharUnique(sep)` says the first character of `sep` does not appear again in `sep`. For such separators, occurrences cannot overlap. This holds for `"products/"` and `"receipts/"`, but not for `" AND "`, which starts and ends with a space; `JoinThenSplit` asks instead that the parts avoid the separator's second character.
- `GoStrconv`: `Atoi` for a 64-bit `int`, `FormatInt(n, 10)` and the round trip between them.
- `Http`: method and status constants, request bodies that may fail to read or decode, and the response record.
- `ProductModel`: the `Product` row and the `ReportFilter`. A price is an opaque `float32` bit pattern.
- `ProductData`:
  - `BuildSearchQuery` is the builder as the source writes it, step by step, with the `len(queryArgs) > 0` test before each `" AND "`.
  - It is proved equal to the reference `SearchQuery`: the prefix, then the clauses of the non-empty filters joined by `" AND "`, and one `"%" + lower(filter) + "%"` argument per non-empty filter.
  - Lemmas prove the listed properties of `SearchQuery`.
- `ProductService`, `ProductReport`, `ReceiptService`: the handlers and their properties.

A status of `None` means the handler never called `WriteHeader`. `net/http` then sends 200 once the handler writes or returns (`Http.SentStatus`).

## Model

| member | source | states |
|---|---|---|
| ProductData.BuildSearchQuery | src/product/product.data.go:158-186 | the statement and arguments the builder produces equal `SearchQuery(f)`: prefix + active clauses joined by " AND ", and one pattern per active filter |
| ProductData.AppendCondition | src/product/product.data.go:173-186 | one manufacturer/SKU step extends the statement by `" AND " + clause` exactly when an argument already exists, and extends the arguments by the pattern, only when the filter is non-empty |
| ProductData.SearchQuery | src/product/product.data.go:158-186 | every statement begins with the fixed `SELECT ... FROM products WHERE ` text, and there is one argument per clause, at most three |
| ProductData.PrefixEndsInWhere | src/product/product.data.go:168 | the fixed prefix ends in `WHERE ` |
| ProductData.PrefixHasNoPlaceholder | src/product/product.data.go:160-168 | the fixed prefix holds no `?` |
| ProductData.ArgsCount | src/product/product.data.go:169-186 | the argument count equals the number of non-empty filters, so it is at most 3 |
| ProductData.ArgsInOrder | src/product/product.data.go:169-186 | the arguments are, in the order name, manufacturer, SKU, `"%" + ToLower(filter) + "%"` for each non-empty filter |
| ProductData.ActiveMembers | src/product/product.data.go:169-186 | a filter's clause is kept exactly when its text is non-empty |
| ProductData.PlaceholdersMatchArgs | src/product/product.data.go:169-186 | the statement holds exactly as many `?` placeholders as there are arguments |
| ProductData.SeparatorsBetweenClauses | src/product/product.data.go:173-186 | with k > 0 filters set, the text after the prefix splits on " AND " into exactly the k clauses: no leading, trailing or doubled separator |
| ProductData.ClausePresence | src/product/product.data.go:169-186 | each filter's `col LIKE ? ` clause is present if and only if that filter is non-empty |
| ProductData.NoFiltersLeavesDanglingWhere | src/product/product.data.go:158-186 | the statement is the bare prefix ending in `WHERE `, with no arguments, if and only if every filter is empty |
| ProductService.ProductsHandler | src/product/product.service.go:23-71 | GET always asks the store for the list, once, and answers 500 when encoding fails, else the encoded list with the implicit 200. POST answers 400 for an unreadable or undecodable body or a non-zero id, without calling the store. Otherwise it answers 500 on store failure, or 201 with the new id in decimal. OPTIONS writes nothing. Any other method gets 405. Each status holds if and only if its condition does |
| ProductService.ItemIdText | src/product/product.service.go:74-75 | the last piece of the path split on "products/" is the text after the last "products/", or the whole path when there is none |
| ProductService.ProductHandler | src/product/product.service.go:73-136 | 404 if and only if the id text is not an int64 or the store has no such product, for every method. A PUT answers 400 for a bad body or an id mismatch, then 500 or 200 depending on the store. DELETE answers 200 after asking to remove the path's id. OPTIONS writes nothing. Any other method gets 405. A saved product always carries the path's id |
| ProductService.ParseItemId | src/product/product.service.go:74-79 | an id is accepted only when the id text is an optional sign followed by digits, and it is an int64 |
| ProductService.ItemIdRoundTrip | src/product/product.service.go:74-75 | the path `base + "products/" + FormatInt(n)` yields the id text `FormatInt(n)` and parses to `n` exactly when `n` is an int64 |
| ProductService.UnresolvedIgnoresMethod | src/product/product.service.go:74-85 | a path that resolves to no product gives the same 404 for every method and body |
| ProductService.CreatedBodyIsNewId | src/product/product.service.go:55-62 | the body of a 201 parses back, as a decimal integer, to the id the store assigned |
| ProductService.DeleteAlwaysOK | src/product/product.service.go:124-127 | DELETE of a stored product is 200 with exactly a lookup and a removal of that id |
| ProductReport.ReportHandler | src/product/product.report.go:23-72 | POST answers 400 for a filter that fails to decode, before any search. It answers 500 on a search error or on a template that does not parse; the template is checked before the row count. It answers 404 for no rows. Otherwise the report is served as `report.html` with `Content-Disposition: attachment` and `Content-Type: text/html`. The query run is `SearchQuery(filter)`. OPTIONS writes nothing. Any other method gets 405 |
| ProductReport.EmptyResultWithBrokenTemplate | src/product/product.report.go:47-58 | no rows together with an unparsable template gives 500, not 404 |
| ProductReport.QueryIsConsistent | src/product/product.report.go:35 | the statement sent to the database starts with the fixed prefix and has one placeholder per argument, with at most three arguments |
| ProductReport.GoRem | src/product/product.report.go:44 | Go's `%`: the remainder of the division truncated toward zero (`x == GoQuo(x, y) * y + r`), smaller than the divisor in magnitude and with the dividend's sign |
| ProductReport.Mod | src/product/product.report.go:43-45 | `mod(x, y)` with y != 0 holds if and only if the Euclidean remainder of x by y is 0 |
| ProductReport.ModIffDivides | src/product/product.report.go:43-45 | `mod(x, y)` with y != 0 holds if and only if x is a multiple of y, and the sign of neither operand changes the answer |
| ProductReport.GoRemTruncates | src/product/product.report.go:44 | concrete remainders where Go's truncated `%` and the Euclidean one differ (`-7 % 2`, `-7 % -2`) or agree (`7 % -2`), and concrete `mod` answers |
| ReceiptService.ReceiptsHandler | src/receipt/receipt.service.go:27-75 | GET always lists the directory, once, and answers 500 if listing or encoding fails, else the encoded listing. A POST without a receipt file gets 400 and creates nothing. A POST whose destination cannot be opened gets 400. Otherwise it gets 201 after the copy, whatever the copy does. OPTIONS writes nothing. Any other method gets 405 |
| ReceiptService.ExtractFileName | src/receipt/receipt.service.go:78-85 | two or more "receipts/" give the 400 case, none gives the out-of-range index, and exactly one gives the text after it |
| ReceiptService.DownloadHandler | src/receipt/receipt.service.go:77-110 | 400 if and only if "receipts/" occurs twice. The handler panics if and only if it does not occur. An unopenable file gets 404 and a stat failure gets 500. Otherwise it sets Content-Disposition `attachment; filename=<name>`, the sniffed Content-Type and Content-Length `FormatInt(size)`, then streams the file. Every file operation is on the file the path names, and the first is opening it |
| ReceiptService.DownloadPathRoundTrip | src/receipt/receipt.service.go:78-85 | the path `base + "receipts/" + name` yields `name` when neither part contains "receipts/" |
| ReceiptService.DownloadIgnoresMethod | src/receipt/receipt.service.go:77-110 | the outcome depends on the path only, never on the method or body |
| ReceiptService.DownloadHeader | src/receipt/receipt.service.go:103-107 | exactly three entries: Content-Disposition is `attachment; filename=` followed by exactly the file name, Content-Type is the sniffed type, and Content-Length parses back to the int64 file size |
| GoStrconv.FormatInt | src/receipt/receipt.service.go:103 | a minus sign exactly for negative values, then digits only, with no leading zero except in `0` itself |
| GoStrconv.Atoi | src/product/product.service.go:75-79 | an accepted text is an optional sign followed by at least one digit and nothing else; the value is an int64, negative only after a `-` |
| GoStrconv.AtoiFormatInt | src/product/product.service.go:75 | `Atoi(FormatInt(n))` is `n` for every int64 value and an error for every other integer |
| GoStrconv.FormatIntAlphabet | src/receipt/receipt.service.go:103 | a decimal rendering uses only digits and `-` |
| GoStrconv.AtoiRejects | src/product/product.service.go:75-79 | the empty text, `5a`, a bare `-` and a word are rejected, so the item handler answers 404 |
| GoStrconv.AtoiAccepts | src/product/product.service.go:75 | leading zeros and an explicit `+` or `-` are accepted |
| GoStrings.Contains | src/receipt/receipt.service.go:78-85 | the empty text and any prefix of a text occur in it; nothing longer than the text does |
| GoStrings.SplitFirstPiece | src/product/product.service.go:74 | without an occurrence the split is the whole text; otherwise its first piece is the text before the first occurrence and at least one piece follows |
| GoStrings.JoinShape | src/product/product.data.go:173-186 | a join of no parts is empty; otherwise it starts with the first part, followed by the separator when a second part follows, and ends with the last part |
| GoStrings.SplitThenJoin | src/product/product.service.go:74 | joining the pieces of a split with the separator gives back the string |
| GoStrings.SplitPiecesFree | src/product/product.service.go:74 | no piece of a split contains the separator |
| GoStrings.SplitCases | src/receipt/receipt.service.go:78-85 | for a first-character-unique separator, one piece means it does not occur, three or more mean it occurs at least twice, and two mean exactly one occurrence with the second piece after it |
| GoStrings.LastPieceAfterLastIndex | src/product/product.service.go:74-75 | the last piece of a split is the text after the last occurrence of the separator |
| GoStrings.JoinThenSplit | src/product/product.data.go:173-186 | parts free of the separator's second character, joined and then split, give back the parts |
| GoStrings.Index | src/product/product.service.go:74 | the first occurrence, with none before it; no result if and only if the separator does not occur |
| GoStrings.LastIndex | src/product/product.service.go:74 | the last occurrence, with none after it; no result if and only if the separator does not occur |
| GoStrings.ToLower | src/product/product.data.go:171 | each ASCII upper-case letter becomes its own lower-case letter (code point + 32), and every other character and the length are unchanged |
| GoStrings.ToLowerIdempotent | src/product/product.data.go:171 | lowered text has no ASCII upper-case letter and lowering it again changes nothing |
| ProductService.CollectionAnswers | src/product/product.service.go:25-65 | the client of a GET on the collection receives 200 with the encoded list exactly when encoding succeeds, otherwise 500 with nothing written; an OPTIONS request receives 200 with nothing written |
| ProductService.ItemAnswers | src/product/product.service.go:76-130 | the client of a GET on an item receives 404 when the path names no stored product, otherwise 200 with the encoded product or 500; OPTIONS on a stored product receives 200 with nothing written |

## Left out

- SQL execution and row scanning. The query's rows are an input (`ReportEnv.runQuery`). So are the answers of `getProduct`, `getProductList` and `addOrUpdateProduct` (`ProductService.Env`). `removeProduct` returns nothing the handler looks at, so the model takes no input for it and records only the `RemoveProduct(id)` call. The service calls these with signatures different from the data layer's, and `addOrUpdateProduct` is not part of this model. Whether `LIKE` matches case-insensitively depends on the database collation and is not stated.
- The 15-second context timeouts, the database connection and pool settings, the websocket handler and the server bootstrap in `main.go` are wall-clock behaviour, configuration or I/O loops with no decisions.
- `GetReceipts` (reading the upload directory) is an input: the listing or an error.
- JSON encoding and decoding are inputs.
  - A request body is `Unreadable`, `Malformed` or `Decoded(value)`.
  - An encoding is `Some(text)` or `None`.
  - A receipt upload without a `receipt` form file is a `Malformed` body.
  - The encoding of an int is decimal, so the 201 body is written as `FormatInt(id)`.
- Filesystem effects are recorded as calls, not performed. These are creating, copying, opening, reading the first 512 bytes, stat and streaming. `filepath.Join` path cleaning is not applied to names. The sniffed content type is an input (`DownloadEnv.contentType`).
- `ParseMultipartForm(5 << 20)` sets how much of the form is held in memory. It does not limit the upload's size, and its error is ignored, so it has no effect on the decision tree.
- ProductReport.ReportHandler: for a served report, `http.ServeContent` chooses the status. It is 200 for a plain request, with range and conditional-request answers possible, and the model records only `Served("report.html")`. The template's execution error is ignored by the source and not an input here.
- ReceiptService.DownloadHandler: the panic when the path has no "receipts/" is a `Panicked` outcome. `net/http` recovering from it is not modelled. The route that `SetupRoutes` in `receipt.service.go` registers for the handler always supplies "receipts/". `main.go` never calls that `SetupRoutes`, so no request reaches the receipt handlers in the program as written.
- The `log.Println` calls on the error branches are left out: they write to the log, not to the response.
- For a served report, `http.ServeContent` adds headers of its own, such as `Last-Modified`, `Accept-Ranges` and `Content-Length`. These are left out; the model records only the two headers the handler sets.
- CORS middleware is not part of this model. The handlers' OPTIONS branches write nothing, which is what the model states.
- GoStrings.ToLower: ASCII only, no Unicode case mapping.
- GoStrings.Split: only non-empty separators. Every separator the handlers use is a non-empty constant.
- Go's `int` is 64 bits wide. Ids parsed from paths are bounded by `Atoi`'s range check. Ids already inside decoded `Product` values are unbounded integers.

Behaviour of the code worth knowing, which the model reproduces:

- DELETE of an id that is not stored gets 404. The existence check comes before the method switch.
- An all-empty report filter yields the bare prefix ending in `WHERE `, which is not valid SQL. The builder neither rejects the filter nor adds a condition that always holds. `ProductData.NoFiltersLeavesDanglingWhere` pins this behaviour.
- The upload handler adds no check of its own on the uploaded file name. `filepath.Join` always cleans the joined path. Since Go 1.17 the multipart library also reduces the uploaded file name to its base name; earlier versions pass it through. Neither step is modelled. The destination is opened without truncation, so replacing a file leaves the tail of a longer old one. Neither effect is modelled beyond the `CreateFile(name)` call.
- The 5 MB multipart threshold limits memory use, not the size of an upload.
