# web3storage client core, modelled in Dafny

The `web3storage` Python package is a small client for the web3.storage HTTP
API. Almost all of it is HTTP calls. This project models the part that is
actual logic, with the I/O taken out:

- **The configuration-file reader** (`Client._read_config`). It takes the
  lines of a `KEY: value` file. A line is used only if it holds a colon. The
  line is stripped and split once at its first colon, and the value is
  stripped again. The pair is kept when `key in ("ACCESS_TOKEN")` holds. That
  right-hand side is a parenthesised string, not a tuple, so the test is a
  substring test: `""`, `"TOKEN"` and `"ACCESS"` are all accepted keys. When
  several accepted lines share a key, the last one wins. The reader is a
  method with a loop that fills a `map`, proved equal to a recursive
  specification `ConfigOf`. That specification is in turn characterised
  without recursion: which keys it holds, and which line's value each key
  gets.
- **Token choice** (`Client.__init__` and `_read_from_config`). A token passed
  to the constructor is used verbatim; only `None` makes the client read the
  configuration file. The file's dictionary entry for `ACCESS_TOKEN` is then the
  token, and it may be absent. The file system is a parameter: a map from
  each existing path to that file's lines. The environment is a parameter too.
- **Bearer authentication** (`BearerAuth.__call__`). It is a class method
  that updates a request's header map in place. It sets `authorization` to
  `"Bearer " + token` and leaves every other header as it was. When the
  client has no token, `"Bearer " + None` raises `TypeError` before anything
  is stored.
- **Request construction** for `user_uploads`, `upload`, `retrieve`,
  `metadata` and `http_header`. Each operation yields the request it would
  hand to the HTTP library: the verb, the URL (endpoint plus route plus cid),
  the token its `BearerAuth` carries, and the body. Otherwise it yields "no
  request" or the exception the call raises. Preparing any request runs
  `BearerAuth`, so a client without a token raises `TypeError` wherever it
  would have made a request.

Python's `str.strip()` is modelled with the exact character set
`str.isspace()` accepts. `needle in hay` on strings and `split(":", 1)` are
modelled as functions, and each is proved to mean what Python means by it.

Three behaviours of the code that are easy to misread:
- A missing cid makes no request: `retrieve`, `metadata` and `http_header`
  print a message and return `None`.
- No configuration file, or no `ACCESS_TOKEN` line in it, leaves the token
  `None`.
- The `ACCESS_TOKEN` environment variable is read as the *path* of the
  configuration file (`os.environ.get("ACCESS_TOKEN", default_path)`,
  web3storage.py:89). Its value is never used as the token.

Files: `wrappers.dfy` (Option), `text.dfy` (string built-ins), `config.dfy`
(the configuration reader), `credentials.dfy` (token choice), `auth.dfy`
(bearer authentication), `client.dfy` (client, URLs, operations).

## Model

| member | source | states |
|---|---|---|
| Text.Strip | src/web3storage/web3storage.py:76 | the result has no whitespace at either end and is the block of the input that follows its longest whitespace prefix |
| Text.StripUnique | src/web3storage/web3storage.py:76 | whitespace, then a block with no whitespace at its ends, then whitespace: stripping gives exactly that block |
| Text.StripIdempotent | src/web3storage/web3storage.py:78 | stripping an already stripped value changes nothing |
| Text.StripKeeps | src/web3storage/web3storage.py:75-76 | a non-whitespace character such as `:` is in the stripped line iff it is in the raw line, so the two-way unpacking of the split never fails |
| Text.Contains | src/web3storage/web3storage.py:77 | a needle that starts the haystack is found, and a needle found is no longer than the haystack |
| Text.ContainsIffOccurs | src/web3storage/web3storage.py:77 | `key in "ACCESS_TOKEN"` holds iff the key occurs as a contiguous block of `ACCESS_TOKEN` |
| Text.FirstIndex | src/web3storage/web3storage.py:76 | the index found holds the separator and no earlier index does |
| Text.SplitOnce | src/web3storage/web3storage.py:76 | with a separator present, two parts whose join with the separator is the input, the first part free of separators; otherwise the input alone |
| Config.ParseLine | src/web3storage/web3storage.py:75-78 | a line without a colon contributes nothing; a contributed key is accepted and colon-free, and its value is stripped |
| Config.ParseLineIff | src/web3storage/web3storage.py:75-78 | a line yields `(key, value)` iff the stripped line is `key + ":" + rest` with no colon in key, key a substring of ACCESS_TOKEN, and value = strip(rest) |
| Config.ParseLineOfShape | src/web3storage/web3storage.py:76-78 | a stripped line `key:rest` with an accepted key yields key and strip(rest), whatever colons `rest` holds |
| Config.SplitAtFirst | src/web3storage/web3storage.py:76 | a string has one split into colon-free head, colon, tail: the split at the first colon |
| Config.KeyHasNoLeadingSpace | src/web3storage/web3storage.py:75-76 | for any line with a colon, the split of the stripped line has two parts and the key candidate does not start with whitespace, accepted or not |
| Config.ExampleSpaceBeforeColonRejected | src/web3storage/web3storage.py:76-77 | `ACCESS_TOKEN : x` gives key `ACCESS_TOKEN ` (not stripped again), which is rejected |
| Config.ExampleSubstringKeyAccepted | src/web3storage/web3storage.py:77 | `TOKEN: x` is stored as `TOKEN` to `x` because the key test is a substring test |
| Config.ExampleEmptyKeyAccepted | src/web3storage/web3storage.py:77 | `: x` is stored under the empty key |
| Config.Store | src/web3storage/web3storage.py:77-78 | storing an entry sets its key to its value and keeps every other key and value; storing nothing keeps the dictionary |
| Config.ConfigOf | src/web3storage/web3storage.py:72-79 | the lines processed first to last, storing each accepted entry; every key of the result is accepted |
| Config.ReadConfig | src/web3storage/web3storage.py:72-79 | the loop over the lines builds exactly `ConfigOf(lines)`, and every key it stores is a substring of ACCESS_TOKEN |
| Config.ConfigOfKeysOccur | src/web3storage/web3storage.py:77 | every key the reader stores is a contiguous block of ACCESS_TOKEN |
| Config.ConfigOfSnoc | src/web3storage/web3storage.py:74-78 | one more line stores its entry, if any, onto the dictionary read so far |
| Config.LineWithoutColonIgnored | src/web3storage/web3storage.py:75 | a line without a colon leaves the dictionary unchanged |
| Config.AcceptedLineOverwrites | src/web3storage/web3storage.py:78 | an accepted line sets its key to its value and leaves every other entry as it was |
| Config.ConfigOfDomain | src/web3storage/web3storage.py:74-78 | a key is in the dictionary iff some line stores it |
| Config.ConfigOfLastWins | src/web3storage/web3storage.py:74-78 | the dictionary maps key to value iff some line stores that pair and no later line stores the key |
| Credentials.ChooseToken | src/web3storage/web3storage.py:48 | an explicit token is used verbatim; otherwise there is a token iff the file was read and holds `ACCESS_TOKEN`, and then it is that entry |
| Credentials.ConfigPath | src/web3storage/web3storage.py:89 | the ACCESS_TOKEN environment variable, when set, is the configuration path; otherwise the default path is |
| Credentials.ConfigFile | src/web3storage/web3storage.py:89-93 | a dictionary is read iff a file exists at the configuration path, and it is what the reader gives for that file's lines, all its keys blocks of ACCESS_TOKEN |
| Credentials.EnvironmentVariableIsPath | src/web3storage/web3storage.py:89 | a set ACCESS_TOKEN environment variable is used as the configuration path: the default path stops mattering, and the token is what a file at that path gives |
| Credentials.ResolveToken | src/web3storage/web3storage.py:48 | an explicit token is kept whatever the file system and environment hold |
| Credentials.TokenFromFile | src/web3storage/web3storage.py:89-94 | without an explicit token, the token is `v` iff the chosen file exists and its last line that stores ACCESS_TOKEN stores `v` |
| Credentials.NoTokenWithoutEntry | src/web3storage/web3storage.py:91-96 | no file, or no line storing ACCESS_TOKEN, gives no token |
| Credentials.OtherKeysIgnored | src/web3storage/web3storage.py:93 | a line whose key is not exactly ACCESS_TOKEN does not change the token |
| Auth.BearerValue | src/web3storage/web3storage.py:21 | the header value is the `Bearer ` prefix followed by the unchanged token |
| Auth.BearerRoundTrip | src/web3storage/web3storage.py:21 | a header value and a token determine each other: reading the token back gives it iff the value is `Bearer <token>` |
| Auth.WithBearer | src/web3storage/web3storage.py:20-22 | `authorization` carries the token, and every other header is present and equal iff it was before |
| Auth.WithBearerLastWins | src/web3storage/web3storage.py:21 | applying two tokens one after the other leaves the headers that the second one alone gives |
| Auth.Authenticate | src/web3storage/web3storage.py:20-22 | fails iff there is no token; otherwise the headers with the bearer value set |
| Auth.BearerAuth.constructor | src/web3storage/web3storage.py:17-18 | the authentication object keeps the token it is given |
| Auth.BearerAuth.Call | src/web3storage/web3storage.py:20-22 | updates the request's headers in place to `WithBearer` of the old ones, as `Authenticate` says; with no token, it fails with TypeError and the headers stay the same |
| Web3Storage.NewClient | src/web3storage/web3storage.py:46-49 | the endpoint (by default `https://api.web3.storage`) is kept; an explicit token is kept verbatim, otherwise the token is chosen from the configuration file |
| Web3Storage.DefaultClient | src/web3storage/web3storage.py:46-48 | a client built without endpoint or token uses the default endpoint and the token chosen from the configuration file |
| Web3Storage.UserUploadsUrl | src/web3storage/web3storage.py:118 | the endpoint followed by `/user/uploads/` |
| Web3Storage.UploadUrl | src/web3storage/web3storage.py:140 | the endpoint followed by `/upload` |
| Web3Storage.CarUrl | src/web3storage/web3storage.py:159 | starts with the endpoint, and reading the cid back out of it under `/car/` gives the cid |
| Web3Storage.StatusUrl | src/web3storage/web3storage.py:182 | starts with the endpoint, and reading the cid back out of it under `/status/` gives the cid |
| Web3Storage.CidUrl | src/web3storage/web3storage.py:159 | the URL starts with the endpoint, then the route, and ends with the cid |
| Web3Storage.UserUploads | src/web3storage/web3storage.py:118-119 | raises TypeError (from `BearerAuth`) iff the client has no token; otherwise a GET with that token of the endpoint followed by `/user/uploads/` |
| Web3Storage.Upload | src/web3storage/web3storage.py:132-144 | no path raises TypeError; a path with no file makes no request; a file with no token raises TypeError; otherwise a POST of the file to `endpoint/upload` with the token |
| Web3Storage.Retrieve | src/web3storage/web3storage.py:156-160 | no request iff no cid; TypeError iff a cid but no token; otherwise a GET of `endpoint/car/cid` with the token |
| Web3Storage.Metadata | src/web3storage/web3storage.py:179-183 | no request iff no cid; TypeError iff a cid but no token; otherwise a GET of `endpoint/status/cid` with the token |
| Web3Storage.HttpHeader | src/web3storage/web3storage.py:197-201 | no request iff no cid; TypeError iff a cid but no token; otherwise a HEAD of `endpoint/car/cid` with the token |
| Web3Storage.OutcomeIsBearerAuth | src/web3storage/web3storage.py:20-22 | once an operation prepares its request, it raises iff bearer authentication with the client's token fails, and an issued request's headers are the authenticated ones with `authorization` = `Bearer <token>` |
| Web3Storage.CidUrlRoundTrip | src/web3storage/web3storage.py:182 | reading the cid back out of a URL gives `cid` iff the URL is endpoint + route + cid |
| Web3Storage.CidUrlInjective | src/web3storage/web3storage.py:159 | two cids with the same URL under one route are the same cid |
| Web3Storage.CarAndStatusDiffer | src/web3storage/web3storage.py:159-182 | no CAR URL equals a status URL of the same endpoint |
| Web3Storage.RetrieveAndHeaderShareUrl | src/web3storage/web3storage.py:159-200 | `retrieve` and `http_header` request the same URL with the same token, by GET and by HEAD, and raise in the same cases |
| Web3Storage.EveryRequestAuthenticated | src/web3storage/web3storage.py:118-201 | every request made carries the client's token, so a client without a token makes none, and every URL starts with the endpoint |

## Left out

- Sending requests, responses and the `r.ok` check are left out because they are network I/O. An operation ends with the request it would send.
- Opening and reading files, `Path.exists`, `os.path.exists` and `os.path.expanduser` are left out because they are file-system I/O. The configuration file arrives as its lines, after `readlines()` split them. The file to upload arrives as its contents. The default configuration path arrives already expanded.
- `upload` runs its existence check on the expanded path but opens the unexpanded one. The model does not capture that mismatch, because the file system is a parameter.
- Reading the `ACCESS_TOKEN` environment variable is I/O. Its value is a parameter.
- `_read_config` with a `None` path or a path with no file behind it is left out. Its only caller passes a path that exists.
- The `print` diagnostics and `json_print` are left out because they are console output.
- Header names are compared as exact strings. The HTTP library's case-insensitive header dictionary is not part of this model.
- Uploading a CAR archive and packaging a directory into one are not part of this model. Neither exists in the modelled source file.
- Exceptions raised by dependencies are left out, except the `TypeError`s from a `None` token or upload path. One example is a configuration path that names a directory.
