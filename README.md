# offat utilities in Dafny

A model of the helper functions in offat's `utils` module. offat is an API
security tester that reads an OpenAPI description, works out the server URL,
and builds request URLs and headers from it. The model covers:

- reading the API description file: `read_yaml`, `read_json` and
  `read_openapi_file` (module `OpenApiFile`). The file system and the JSON and
  YAML deserialisers are an `Environment` supplied by the caller.
- turning `key:value` strings into dictionaries: `str_to_dict` and
  `headers_list_to_dict` (module `KeyValues`). Both are loops, modelled as
  methods proved against a fold over the strings' entries. The first skips a
  string without `:`. The second raises `IndexError` on one.
- the URL check `is_valid_url` (module `UrlValidation`). Its regular
  expression is decided by a prefix test, which is proved to agree with the
  pattern's language written out.
- `parse_server_url` (module `ServerUrl`): scheme, host, port and base path.
  It relies on a model of `urllib.parse.urlparse` (module `UrlParsing`) that is
  exact on printable ASCII URLs without query, fragment, parameters or IPv6
  brackets, not starting with a space, and not starting with a scheme-like
  prefix whose first character is not a letter. Outside that subset `urlparse` is a function the caller supplies.
  It answers either the parts or the message of the `ValueError` that
  `urlparse` raises, and `parse_server_url` passes that error on.
- `join_uri_path` (module `UriJoin`): a loop over the arguments, modelled as a
  method proved against a fold. It relies on a model of `urljoin` that is
  exact in three cases. An empty base gives the reference, and an empty
  reference gives the base. The third case is an `http`/`https` base with a
  nonempty host whose path ends in `/` and has plain segments, and a plain
  relative reference; that case is the merge of section 5.2.3 of RFC 3986. Outside that case
  `urljoin` is a function the caller supplies. It answers either the joined
  URL or the message of a `ValueError`, which ends `join_uri_path` with that
  error.
- the Python string operations these use: `split`, `strip`, `removeprefix`,
  `endswith`, ASCII `lower`, and `int()` on decimal text (module `Strings`).
  `Option` and `Result` are in module `Wrappers`.

The docstring of `join_uri_path` gives the example
`join_uri_path('https://example.com:443', '/v2/', '/pet/findByStatus/')` with
the output `https://example.com:443/pet/findByStatus/`. The code keeps the
middle argument and yields `https://example.com:443/v2/pet/findByStatus/`.
The model follows the code. `UriJoin.MiddleSegmentKept` proves that a middle
argument is kept when the base is resolvable and every argument, once
stripped, is a plain relative path. An argument that is still an absolute
path after stripping replaces the path: `join_uri_path('https://example.com',
'/v2/', '//pet')` gives `https://example.com/pet`.

A value read from a `key:value` string stops at its second `:`. For example,
`Host: example.com:8080` gives the value `example.com`. `KeyValues.EntryOfPair`
states this behaviour.

## Model

| member | source | states |
|---|---|---|
| Strings.SplitJoinsBack | src/offat/utils.py:141 | joining the pieces of `s.split(sep)` with `sep` gives `s` back |
| Strings.Split | src/offat/utils.py:141 | `s.split(sep)` has at least one piece, and no piece holds `sep` |
| Strings.SplitJoinWith | src/offat/utils.py:141 | splitting pieces that lack `sep`, once joined with it, gives those pieces back |
| Strings.SplitCount | src/offat/utils.py:143-145 | a string without the separator splits into one piece, a string with it into at least two |
| Strings.SplitFirst | src/offat/utils.py:143-144 | the first piece is the text before the first separator, or the whole string when there is none |
| Strings.SplitSecond | src/offat/utils.py:143-145 | when the separator occurs, the second piece is the text between its first and its second occurrence |
| Strings.SplitLastPiece | src/offat/utils.py:82 | the last piece is the text after the last separator |
| Strings.StripWith | src/offat/utils.py:144-145 | `strip()` returns a middle slice of its argument, after its leading whitespace, that neither starts nor ends with whitespace |
| Strings.StripRemovesSpaces | src/offat/utils.py:144-145 | everything `strip()` removes is whitespace |
| Strings.RemovePrefix | src/offat/utils.py:268 | `removeprefix` drops the prefix exactly when the string starts with it, and otherwise returns the string unchanged |
| Strings.Lower | src/offat/utils.py:214 | lower-casing keeps the length, maps every character and leaves no capital |
| Strings.ParseInt | src/offat/utils.py:222 | `int()` accepts only text that is not blank once stripped of the whitespace `int()` skips, and a negative value only after a `-` sign |
| Strings.ParseIntDigits | src/offat/utils.py:222 | `int()` reads a run of at most 4300 digits, signed or not, as its decimal value |
| Strings.ParseIntTooLong | src/offat/utils.py:222 | `int()` refuses a run of more than 4300 digits, signed or not |
| Strings.ParseIntPadded | src/offat/utils.py:222 | whitespace `int()` skips around the text does not change what it reads |
| Strings.ParseIntRefusesSeparator | src/offat/utils.py:222 | a leading U+001C..U+001F is whitespace to `strip()` but makes `int()` refuse the text |
| UrlParsing.SplitNetloc | src/offat/utils.py:214-216 | after a leading `//` the network location runs up to the next `/` and is followed by a path that is empty or starts with `/`; without a leading `//` the location is empty and all of the text is the path |
| UrlParsing.UrlParse | src/offat/utils.py:214 | the parse is defined exactly on the modelled subset; the scheme has no capitals, and is empty when the URL has no scheme |
| UrlParsing.UrlParseCompose | src/offat/utils.py:214-216 | `scheme://netloc/path` parses into the lower-cased scheme, that network location and that path |
| UrlParsing.UrlParseRecompose | src/offat/utils.py:214-216 | conversely, a parsed URL with a network location is the scheme text, `://`, the location and the path |
| UrlParsing.UrlParseNetloc | src/offat/utils.py:216 | a parsed network location never holds `/` |
| ServerUrl.DefaultPort | src/offat/utils.py:217 | the default port is 443 exactly for `https`, and 80 otherwise |
| ServerUrl.PortOr | src/offat/utils.py:218-228 | the port is the integer `int()` reads from the token, or the default when `int()` raises; a port other than the default comes from a token that is not blank |
| ServerUrl.HostPort | src/offat/utils.py:218-228 | without `:` the host is the whole network location and the port the default; with one, the host is the text before the first `:` and the port is read from the text between the first and the second `:` |
| ServerUrl.FromParts | src/offat/utils.py:216-235 | succeeds exactly for the schemes `http` and `https`, otherwise fails with the scheme `ValueError`; on success it passes the scheme and path through and takes host and port from the network location |
| ServerUrl.ParseServerUrl | src/offat/utils.py:201-235 | a `ValueError` raised by `urlparse` is passed on unchanged; once the URL is parsed, success comes exactly for `http` and `https` and the scheme error otherwise, and on success the result holds the parsed scheme and path, with host and port from the network location |
| ServerUrl.FromPartsNoColon | src/offat/utils.py:217-230 | without `:` the host is the whole network location and the port is the default |
| ServerUrl.FromPartsColon | src/offat/utils.py:218-228 | with `:`, the host is the text before the first `:`, and the port is read from the next token or falls back on the default |
| ServerUrl.HostPortColon | src/offat/utils.py:218-228 | splitting `host:token...` gives the host and the port `int()` reads from the token |
| ServerUrl.ParseServerUrlDefaultPort | src/offat/utils.py:214-235 | `scheme://host/path` parses to the lower-cased scheme, the host (possibly empty), the default port and the path |
| ServerUrl.ParseServerUrlExplicitPort | src/offat/utils.py:214-235 | `scheme://host:token/path` parses to the host and to the port read from the token, or to the default port when `int()` refuses the token |
| ServerUrl.ParseServerUrlOtherScheme | src/offat/utils.py:232-233 | any other scheme is refused with the scheme error, whatever the network location, the empty one included |
| UrlValidation.IsValidUrl | src/offat/utils.py:182-198 | a valid URL starts with `http://` or `https://` followed by a host letter, `.`, `-` or digit; any such URL whose host starts with `a-z`, `.` or `-` is valid |
| UrlValidation.IsValidUrlIsRegexMatch | src/offat/utils.py:195-198 | the prefix test holds exactly when some prefix of the URL is in the language of the pattern, in both directions |
| UrlValidation.ValidMatches | src/offat/utils.py:195-198 | a URL that passes the prefix test is matched by the pattern |
| UrlValidation.MatchIsValid | src/offat/utils.py:195-198 | a URL the pattern matches passes the prefix test |
| UrlValidation.IsValidUrlExtends | src/offat/utils.py:196-198 | with only the start of the URL anchored, text appended to a valid URL keeps it valid |
| UrlValidation.UpperCaseSchemeRefused | src/offat/utils.py:196 | `HTTP://` and `HTTPS://` are refused, because the scheme is case-sensitive |
| UrlValidation.UnlistedHostStartRefused | src/offat/utils.py:196 | a host that starts with a capital or `_` is refused |
| UrlValidation.DottedQuadAccepted | src/offat/utils.py:196 | a dotted quad of one-to-three-digit groups after the scheme is accepted, whatever follows it |
| UriJoin.EnsureSlash | src/offat/utils.py:262-263 | a `/` is appended exactly when the URL lacks one, and the result always ends in `/` |
| UriJoin.Directory | src/offat/utils.py:268 | the directory of a base path is its prefix up to and including its last `/` |
| UriJoin.UrlJoin | src/offat/utils.py:268 | an empty base gives the reference, an empty reference the base, and a resolvable base with a plain relative path gives the normalised base followed by the path; none of these cases raises |
| UriJoin.JoinedUrl | src/offat/utils.py:238-270 | `IndexError` is raised exactly when there is no argument; one argument gives it with a `/` appended when it lacks one; otherwise a `ValueError` from an earlier `urljoin` is raised, or else the last stripped argument is resolved by `urljoin` against the URL the earlier ones built, with a `/` appended, and its `ValueError` is raised when it raises one |
| UriJoin.JoinedSnoc | src/offat/utils.py:265-268 | once a `urljoin` has raised, a further argument changes nothing; otherwise the loop resolves its last argument against the URL the earlier iterations built |
| UriJoin.JoinUriPath | src/offat/utils.py:238-270 | the loop returns the fold of `urljoin` over the stripped arguments, raises `IndexError` when no argument is given, and stops with the `ValueError` of the first `urljoin` that raises |
| UriJoin.JoinedUrlOf | src/offat/utils.py:265-270 | the call raises the `ValueError` of the first `urljoin` that raised, and otherwise returns the URL the loop built |
| UriJoin.JoinBaseOnly | src/offat/utils.py:261-263 | the base alone gives the base with a `/` appended exactly when it lacks one, and feeding that result back returns it unchanged |
| UriJoin.JoinPrefixOnly | src/offat/utils.py:265-268 | an argument equal to `remove_prefix` leaves the URL as it was |
| UriJoin.UnparseResolvable | src/offat/utils.py:268 | a URL written from resolvable parts parses back into those parts and is resolvable |
| UriJoin.UrlJoinUnparsed | src/offat/utils.py:268 | `urljoin` appends a plain relative path to a URL written from resolvable parts |
| UriJoin.ExtendParts | src/offat/utils.py:265-268 | appending a plain path, with a `/` after it when it lacks one, keeps the URL resolvable |
| UriJoin.JoinedPlain | src/offat/utils.py:265-268 | over plain arguments, the loop appends every stripped argument, each followed by `/` except the last |
| UriJoin.JoinUriPathPlain | src/offat/utils.py:238-270 | `join_uri_path` over a resolvable base and plain arguments is the base followed by all stripped arguments |
| UriJoin.MiddleSegmentKept | src/offat/utils.py:256-268 | with a resolvable base and two arguments that strip to plain relative paths, the first is kept, as in `https://example.com:443/v2/pet/findByStatus/`, so the result differs from the base followed by the last argument |
| KeyValues.Entry | src/offat/utils.py:143-145 | a string has an entry exactly when it holds a `:`; the key is the stripped text before the first `:` and the value the stripped text between the first and the second |
| KeyValues.StrToDict | src/offat/utils.py:127-150 | the loop builds the fold of the comma-separated pieces' entries, later keys winning and malformed pieces skipped |
| KeyValues.HeadersListToDict | src/offat/utils.py:153-179 | the nested loops return the fold over all strings, or the `IndexError` of the first string without `:` |
| KeyValues.EntryOfPair | src/offat/utils.py:143-145 | `key:value...` maps the stripped key to the stripped value and drops the text after a second `:` |
| KeyValues.StrToDictOfEmpty | src/offat/utils.py:140-150 | the empty string gives the empty dictionary |
| KeyValues.FoldKeys | src/offat/utils.py:146 | a key is in the dictionary exactly when some entry has it |
| KeyValues.FoldLastWins | src/offat/utils.py:146 | the last entry with a key decides its value |
| KeyValues.FoldOrRaiseAgrees | src/offat/utils.py:172-177 | raising succeeds exactly when no entry is missing; it then builds what skipping builds, and otherwise raises `IndexError` |
| KeyValues.RaisedStays | src/offat/utils.py:172-177 | once an entry has raised, later entries change nothing |
| KeyValues.Collect | src/offat/utils.py:140-150 | a key is in `str_to_dict`'s result exactly when some piece's entry has it |
| KeyValues.CollectLastWins | src/offat/utils.py:141-146 | the last piece with a key decides its value |
| KeyValues.HeadersToDict | src/offat/utils.py:167-179 | `None` and `[]` give `{}`; otherwise the result is an `IndexError` exactly when some string lacks `:`, and is the same dictionary as `str_to_dict`'s fold when none does |
| KeyValues.RaiseCarriesOn | src/offat/utils.py:172-177 | a string that raises inside the loops makes the whole call raise |
| OpenApiFile.ReadYaml | src/offat/utils.py:26-46 | an empty path is refused first, then a missing file; otherwise the result is the YAML document, or the YAML error exactly when the loader fails |
| OpenApiFile.ReadJson | src/offat/utils.py:49-66 | a missing file is reported; otherwise the result is the JSON document, or the JSON error exactly when the loader fails |
| OpenApiFile.Extension | src/offat/utils.py:82 | the extension holds no `.` and is a suffix of the path |
| OpenApiFile.ReadOpenapiFile | src/offat/utils.py:79-80 | a missing file is reported before the extension is looked at |
| OpenApiFile.ExtensionAfterDot | src/offat/utils.py:82 | the extension is the text after the last `.` |
| OpenApiFile.ExtensionWithoutDot | src/offat/utils.py:82 | a path without `.` is its own extension |
| OpenApiFile.ExtensionIsSuffix | src/offat/utils.py:82 | the last piece of the split ends the path |
| OpenApiFile.JsonFileReadAsJson | src/offat/utils.py:79-85 | an existing `*.json` file is read by the JSON reader, and yields a document exactly when the JSON loader succeeds |
| OpenApiFile.YamlFileReadAsYaml | src/offat/utils.py:79-87 | an existing `*.yaml` file is read by the YAML reader, yields a document exactly when the YAML loader succeeds, and never meets the empty-path error |
| OpenApiFile.OtherExtensionRefused | src/offat/utils.py:88-89 | any other extension, `yml` and `JSON` included, gives the extension error |
| OpenApiFile.ReaderChoice | src/offat/utils.py:79-89 | for an existing file, the extension alone picks the reader, and the extension error comes exactly when it is neither `json` nor `yaml` |
| OpenApiFile.NoNonePathError | src/offat/utils.py:26-89 | `read_openapi_file` never returns the empty-path error |

## Left out

- `get_package_version`, `write_json_to_file` and the logger are not modelled. They are package metadata, file output and logging.
- OpenApiFile.ReadOpenapiFile: files, `isfile`, reading and the two deserialisers are parameters. An `OSError` or a decoding error while reading is not modelled.
- OpenApiFile.ReadYaml: a document that is itself a dictionary `{'error': ...}` looks the same as a reported error in Python. The model keeps the two apart.
- OpenApiFile.ReadYaml: a `None` path is not modelled, only the empty string. Both are falsy in Python.
- OpenApiFile.ReaderChoice: states that a `json` or `yaml` extension picks that reader, not the converse. The two readers can return equal values.
- UrlParsing.UrlParse: only printable ASCII URLs without `?`, `#`, `;`, `[` or `]` are modelled. Outside that subset `urlparse` is a parameter that answers either the parts or the message of a `ValueError`, such as the one raised on unbalanced IPv6 brackets. Which URLs raise is up to that parameter.
- UrlParsing.UrlParse: a URL starting with a scheme-like prefix that does not begin with a letter is outside the subset. Python releases disagree on those URLs.
- UrlParsing.UrlParse: a URL starting with a space is outside the subset, and goes to the parameter. Current Python strips leading spaces, so `urlparse(" http://h/")` gives scheme `http` and host `h`, while older releases do not strip them.
- UriJoin.UrlJoin: exact only when the base ends in `/` and parses as `http`/`https` with a nonempty host, and the reference is a plain relative path without dot segments. In every other case `urljoin` is a parameter that answers either the joined URL or the message of a `ValueError`, such as the one `urlsplit` raises on an invalid IPv6 location. That parameter covers the removal of dot segments and of empty segments too.
- ServerUrl.ParseServerUrl: no range check on the port is modelled, because the source has none. A port `int()` reads may be negative or above 65535.
- Strings.ParseInt: reads ASCII digits only. Python's `int()` also accepts other Unicode decimal digits.
- Strings.ParseInt: the 4300-digit limit is CPython's default. It can be changed at run time with `sys.set_int_max_str_digits`, and releases before 3.10.7 have no limit.
- UrlValidation.IsValidUrl: `\d` is read as ASCII digits. Python's `re` on `str` also matches other Unicode decimal digits.
- KeyValues.StrToDict: the `KeyError` in the `except` clause cannot occur for a dictionary store and is not modelled.
- KeyValues.StrToDict: a Python dictionary remembers the order in which its keys were first inserted, and iterating over the headers later sees that order. The model's `map` has no order, so the result states the keys and their values but not the order of the keys. The same holds for KeyValues.HeadersListToDict.
