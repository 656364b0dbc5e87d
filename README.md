# alerting_mail, modelled in Dafny

alerting_mail turns a folder layout `<root>/<child>/completed/*` and
`<root>/<child>/errorFile/*` into a per-child count report
(`item,processed,error,total`) and can email that report. The layout can live
in a cloud bucket or in a local folder.

- The **cloud-bucket scanner** (`gcs_scan_and_send.py`) does the following:
  - it obtains an access token and normalises the prefix;
  - it discovers the children from the delimiter listing, falling back to a
    plain listing of every object name when that listing fails;
  - it counts the objects under both sub-prefixes of each child, in ascending
    order, with paginated listings;
  - it writes the CSV table.
- The **local scanner** (`scan_and_send.py`) counts the files directly inside
  each child's `completed` and `errorFile` folders. It writes one text row per
  child directory, and writes no table when there is none.
- The **mailer** (`main.py`) does the following:
  - it loads a `.env` file into the environment without overwriting;
  - it composes a message with a plain body and, when the table has rows, an
    HTML table as an alternative;
  - it sends the message with credentials from the environment and a bounded
    retry loop;
  - its command line chooses the subject, body and table.

## Files

The model is split into these files:

- `outcome.dfy`: `Option` and `Result`, plus Python truthiness of an optional string.
- `seqs.dfy`: small facts about slices of sequences.
- `strings.dfy`: `str.strip` (with the `str.isspace` character set), `split(c)[0]`, `str(n)` and its read-back, and `"\n".join`.
- `order.dfy`: Python's ordering on `str`, and `sorted()` of a set of names. `sorted()` is given as a specification function. `SortNames` computes it by selection.
- `csv_table.dfy`: rows, tables and the fixed header.
- `gcs_scan.dfy`: the cloud-bucket scanner.
- `local_scan.dfy`: the local scanner.
- `dotenv.dfy`: `load_dotenv`, and `os.environ` as an object updated in place.
- `html_table.dfy`: the HTML rendering of `build_message`, and a parser that reads the table back.
- `mailer.dfy`: `build_message`, `send_email_from_env` and `_cli_main`.

## What replaces the I/O

- **Paginated listings.** A listing is a sequence of replies, one per request,
  in the order the `while True` loop sends them. A reply is either a page or a
  request that raised. A page holds its names or sub-prefixes and an optional
  continuation token.
  - The loop reads up to and including the first reply without a non-empty
    token (`Served`).
  - A bucket maps each queried prefix to the replies of its delimiter listing
    and of its plain listing.
- **The access token.** Its three sources are given as optional strings.
- **The local filesystem.** It is a tree: a file, or a directory mapping names
  to entries.
- **Files read by the mailer.** Each is a map from path to what `csv.reader`
  yields with either dialect; None means reading raised.
- **The SMTP server.** It is the sequence of outcomes its attempts would have.
- **The `.env` file.** It is its list of lines, or None when it does not exist.

## Model

| member | source | states |
|---|---|---|
| Strings.StripLeft | main.py:22 | the result is a suffix of the input; everything removed is in the strip set; the result does not start with a strip character |
| Strings.StripRight | gcs_scan_and_send.py:106 | the result is a prefix of the input; everything removed is in the strip set; the result does not end with a strip character |
| Strings.StripChars | main.py:26 | neither end of the result is a strip character (with `StripCharsWindow`, this pins the result down) |
| Strings.StripCharsWindow | main.py:26 | the result is a window of the input, and every character outside it is in the strip set: only the runs at both ends are removed |
| Strings.StripWindow | main.py:22 | `str.strip()` keeps a window of the input, and removes whitespace at the two ends and nothing else |
| Strings.StripCharsWrapped | main.py:26 | stripping a character from a value that it encloses gives the value back when neither end of the value is that character |
| Strings.StripLeftWrapped | main.py:26 | `lstrip` removes the opening character and stops at the value |
| Strings.StripRightAppended | main.py:26 | `rstrip` removes the closing character and stops at the value |
| Strings.StripCharsUnchanged | main.py:26 | stripping a string whose ends are outside the set leaves it unchanged |
| Strings.StripKeepsOut | main.py:25-26 | stripping never introduces a character; in particular the key keeps no `=` |
| Strings.FirstIndex | main.py:25 | the index of the first occurrence of the character, or the length when it does not occur |
| Strings.FirstSegment | gcs_scan_and_send.py:106 | `split(c)[0]` holds no `c`, is a prefix of the input, and is either the whole input or followed by `c` |
| Strings.NatToString | scan_and_send.py:45 | `str(n)` is non-empty decimal digits without a leading zero |
| Strings.IntToString | gcs_scan_and_send.py:192 | a leading minus sign exactly for a negative value |
| Strings.NatToStringRoundTrip | scan_and_send.py:45 | `int(str(n)) == n` |
| Order.LessIrreflexive | gcs_scan_and_send.py:175 | no string is below itself |
| Order.LessTransitive | gcs_scan_and_send.py:175 | the string order is transitive |
| Order.LessTotal | gcs_scan_and_send.py:175 | any two different strings are ordered one way or the other |
| Order.LeastExists | gcs_scan_and_send.py:175 | every non-empty set of names has a least member |
| Order.LeastUnique | gcs_scan_and_send.py:175 | the least member is unique |
| Order.ConsSorted | gcs_scan_and_send.py:175 | putting the least member in front of the sorted others stays strictly sorted |
| Order.HeadIsLeast | gcs_scan_and_send.py:175 | the head of a strictly sorted listing of a set is its least member |
| Order.TailMembers | gcs_scan_and_send.py:175 | the tail of a strictly sorted listing lists the set without its head |
| Order.SortedUnique | scan_and_send.py:39 | a strictly increasing sequence with the members of `s` is `sorted(s)` |
| Order.SortNames | gcs_scan_and_send.py:175 | the computed order equals `sorted(s)`, which is strictly increasing and holds exactly the members of `s` |
| GcsScan.FiniteTail | gcs_scan_and_send.py:109-111 | a listing that ends still ends after a page that asks for more |
| GcsScan.Served | gcs_scan_and_send.py:96-111 | the replies read are a non-empty prefix of the listing; every one but the last carries a non-empty token, and the last does not |
| GcsScan.LastServed | gcs_scan_and_send.py:109-111 | the first reply without a token (or that failed) is the last one read |
| GcsScan.EntriesStep | gcs_scan_and_send.py:102-103 | reading one more page appends its entries and adds its size |
| GcsScan.PageSizesCountEntries | gcs_scan_and_send.py:128-129 | the sum of `len(items)` over the pages is the number of names listed |
| GcsScan.PageSizesAppend | gcs_scan_and_send.py:122-133 | page sizes add up across consecutive runs of pages |
| GcsScan.NormalizePrefix | gcs_scan_and_send.py:143-144 | an empty prefix stays empty; a non-empty one ends with `/`; one already ending with `/` is unchanged; at most one `/` is added |
| GcsScan.StripPrefix | gcs_scan_and_send.py:105 | the prefix is removed exactly when it is non-empty and the name starts with it |
| GcsScan.SubPrefixChild | gcs_scan_and_send.py:105-106 | the child of a sub-prefix holds no `/`; it starts what remains after the prefix with trailing `/` removed, and is either all of it or followed there by `/` |
| GcsScan.ObjectChild | gcs_scan_and_send.py:167-168 | the child of an object name holds no `/`; it starts what remains after the prefix, and is either all of it or followed there by `/` |
| GcsScan.StripPrefixOf | gcs_scan_and_send.py:105 | removing the prefix from `prefix + rest` leaves `rest` |
| GcsScan.FirstSegmentWhole | gcs_scan_and_send.py:106 | a text without `/` is its own first segment |
| GcsScan.SubPrefixNamesFolder | gcs_scan_and_send.py:105-108 | the sub-prefix `prefix + c + "/"` yields the folder `c` |
| GcsScan.ObjectNamesFolder | gcs_scan_and_send.py:165-170 | every object `prefix + c + "/" + rest` yields the folder `c` |
| GcsScan.PageChildren | gcs_scan_and_send.py:103-108 | at most one child per sub-prefix; each child is non-empty and free of `/` |
| GcsScan.PageChildrenAppend | gcs_scan_and_send.py:96-112 | the children of two runs of pages are those of the first run followed by those of the second; duplicates are kept |
| GcsScan.PageChildrenSnoc | gcs_scan_and_send.py:103-108 | one more sub-prefix at the end appends its child when that child is non-empty |
| GcsScan.PageChildrenStep | gcs_scan_and_send.py:103-108 | one more sub-prefix appends its child when that child is non-empty |
| GcsScan.LooseObjectIsChild | gcs_scan_and_send.py:165-170 | in the fallback, an object lying directly under the prefix is taken as a child of its own name |
| GcsScan.ObjectChildren | gcs_scan_and_send.py:165-170 | the set holds exactly the non-empty first segments of the names after the prefix |
| GcsScan.ObjectChildrenStep | gcs_scan_and_send.py:165-170 | one more name adds its first segment when that segment is non-empty |
| GcsScan.AppendPageChildren | gcs_scan_and_send.py:103-108 | the loop over one page's sub-prefixes extends the children of the earlier pages to those of all pages so far |
| GcsScan.AddObjectChildren | gcs_scan_and_send.py:165-170 | the loop over one page's items extends the set of the earlier pages to that of all pages so far |
| GcsScan.ListPrefixes | gcs_scan_and_send.py:89-112 | it fails exactly when a request among the replies read raised; otherwise it returns the children of every page read, concatenated in page order |
| GcsScan.CountObjects | gcs_scan_and_send.py:115-133 | it fails exactly when a request among the replies read raised; otherwise it returns the sum of the page sizes up to the first page without a token |
| GcsScan.FallbackChildren | gcs_scan_and_send.py:149-173 | it fails exactly when a request among the replies read raised; otherwise it returns the set of non-empty first segments of every listed name |
| GcsScan.AccessToken | gcs_scan_and_send.py:48-86 | the metadata token wins when non-empty, then the environment token, then the `gcloud` output stripped of whitespace; the result is an error exactly when none of the three is non-empty, and a token is never empty |
| GcsScan.DelimitedListing | gcs_scan_and_send.py:89-112 | the delimiter listing of any prefix comes to an end |
| GcsScan.PlainListing | gcs_scan_and_send.py:115-133 | the plain listing of any prefix comes to an end |
| GcsScan.DiscoveredChildren | gcs_scan_and_send.py:149-173 | every discovered child is non-empty and free of `/` |
| GcsScan.ProcessedPrefix | gcs_scan_and_send.py:176 | the queried prefix is `prefix + child + "/completed/"`, which is `child + "/completed/"` when the prefix is empty |
| GcsScan.ErrorPrefix | gcs_scan_and_send.py:177 | the queried prefix is `prefix + child + "/errorFile/"`, which is `child + "/errorFile/"` when the prefix is empty |
| GcsScan.CountDict | gcs_scan_and_send.py:181-182 | the keys are exactly `processed`, `error` and `total`, and the total is the sum of the other two |
| GcsScan.ReportEntries | gcs_scan_and_send.py:175-184 | a successful report has one entry per child in visiting order; each entry is well formed and holds its child's two listing counts |
| GcsScan.ReportItems | gcs_scan_and_send.py:175-182 | the entries' items are the children, in order |
| GcsScan.ReportCounts | gcs_scan_and_send.py:179-182 | every entry has non-negative counts, total = processed + error, and the counts its child's listings report |
| GcsScan.ReportFailureSticks | gcs_scan_and_send.py:179-180 | once one count request fails, the whole scan fails |
| GcsScan.ReportErrorIsRequestFailed | gcs_scan_and_send.py:179-180 | a failed report failed on a request |
| GcsScan.ScanReport | gcs_scan_and_send.py:136-184 | the report's items are exactly the discovered children, strictly ascending; every entry holds its two counts and their sum |
| GcsScan.SortedReport | gcs_scan_and_send.py:175-184 | a report over `sorted(children)` lists each child once, in ascending order, with well-formed counts |
| GcsScan.ItemsInOrder | gcs_scan_and_send.py:175 | entries that follow `sorted(found)` item for item hold the members of `found` in ascending order |
| GcsScan.EmptyPrefixEmptyReport | gcs_scan_and_send.py:141-184 | a prefix with nothing under it gives an empty report, not an error |
| GcsScan.ScanBucket | gcs_scan_and_send.py:136-184 | the imperative scan returns exactly the report `Scan` specifies |
| GcsScan.CountChildren | gcs_scan_and_send.py:175-184 | the counting loop returns exactly `Report`, including its first failure |
| GcsScan.ReportStep | gcs_scan_and_send.py:175-182 | one more child adds its entry, or fails when either of its counts fails |
| GcsScan.WriteCsv | gcs_scan_and_send.py:187-192 | the header, then one row per report entry in report order, with a missing count written as 0 |
| GcsScan.WrittenTotalAdds | gcs_scan_and_send.py:190-192 | in a written row the three counts are decimal numbers and the last is the sum of the other two |
| LocalScan.FileNames | scan_and_send.py:30 | the files directly inside a folder are among its entries |
| LocalScan.DirNames | scan_and_send.py:39-41 | the child directories are among the folder's entries |
| LocalScan.CountFiles | scan_and_send.py:26-30 | a missing folder, or one that is a file, counts 0; otherwise at most the number of entries |
| LocalScan.CountFilesAddFile | scan_and_send.py:30 | a new file directly inside the folder adds one to the count |
| LocalScan.CountFilesIgnoresDirs | scan_and_send.py:29-30 | a subdirectory, whatever it holds at any depth, leaves the count unchanged |
| LocalScan.CountsRow | scan_and_send.py:45 | a row has four fields and starts with the child's name |
| LocalScan.ChildRow | scan_and_send.py:42-45 | a child's row has four fields and starts with the child's name |
| LocalScan.RowsFor | scan_and_send.py:39-46 | one row per given name, in the given order, each being that child's row |
| LocalScan.DirsAmong | scan_and_send.py:39-41 | the names kept are exactly those of directories |
| LocalScan.DirsAmongStep | scan_and_send.py:39-41 | one more name is kept exactly when it is a directory |
| LocalScan.DirsAmongSorted | scan_and_send.py:39-41 | keeping only the directories of a sorted listing keeps it sorted |
| LocalScan.Scan | scan_and_send.py:33-47 | the imperative scan returns exactly `ScanRows`: no rows for a missing or non-directory base, otherwise the rows of the sorted child directories |
| LocalScan.DirRows | scan_and_send.py:39-46 | the loop over the sorted entries yields the rows of the directories among them, in order, skipping files |
| LocalScan.DirsOfSorted | scan_and_send.py:39-41 | the directories among the sorted entries are the sorted directory names |
| LocalScan.ScanRowsShape | scan_and_send.py:33-47 | no rows for a missing or non-directory base; otherwise exactly one row per child directory, names strictly ascending, files skipped |
| LocalScan.RowsForSorted | scan_and_send.py:39-46 | the rows of the sorted directory names are exactly the child rows, ascending and covering every child directory |
| LocalScan.RowsForChildren | scan_and_send.py:42-45 | every row is the row of the child it names |
| LocalScan.RowsForAscending | scan_and_send.py:39 | rows follow ascending child names |
| LocalScan.RowsForCovers | scan_and_send.py:39-41 | every child directory has a row, and only those do |
| LocalScan.ChildRowTotal | scan_and_send.py:42-45 | the row's counts read back as the two folders' file counts, and the total as their sum |
| LocalScan.CountsRowReadsBack | scan_and_send.py:45 | `str(p)`, `str(e)` and `str(p+e)` read back as `p`, `e` and `p+e` |
| LocalScan.WriteTableCsv | scan_and_send.py:50-55 | the header, then the given rows unchanged and in order |
| LocalScan.ScanAndWrite | scan_and_send.py:65-72 | no table is written exactly when the scan yields no rows; otherwise the table is the header followed by the rows |
| Dotenv.Environment.SetDefault | main.py:26 | a key already present keeps its value; an absent key is added when the system accepts it; otherwise the call fails and nothing changes |
| Dotenv.EnvGet | main.py:84-86 | present exactly when the key is set, with its value |
| Dotenv.Assignment | main.py:25-26 | the key holds no `=` and has no surrounding whitespace |
| Dotenv.ParseLine | main.py:22-26 | a line is skipped exactly when, once stripped, it is blank, a `#` comment, or has no `=`; the key holds no `=` and has no surrounding whitespace |
| Dotenv.StripClean | main.py:26 | stripping a key without surrounding whitespace leaves it unchanged |
| Dotenv.UnquoteClean | main.py:26 | a value without surrounding whitespace or quotes is stored as it is |
| Dotenv.SplitAfterKey | main.py:25 | the first `=` of `key=value` is the one after a key free of `=`, even when the value holds `=` |
| Dotenv.AssignmentOf | main.py:25-26 | `key=value` splits back into the key and the value |
| Dotenv.ParseLineRoundTrip | main.py:22-26 | writing `key=value` and parsing it gives back the pair, for a non-comment key and a value free of surrounding whitespace and quotes; later `=` stay in the value |
| Dotenv.UnquoteDoubleQuoted | main.py:26 | a value in double quotes is stored without them, keeping everything between them, whitespace included |
| Dotenv.UnquoteSingleQuoted | main.py:26 | a value in single quotes is stored without them, keeping everything between them |
| Dotenv.ParseQuotedLine | main.py:22-26 | `key=` followed by a value that does not start or end with whitespace parses to the key and the unquoted value |
| Dotenv.ParseLineDoubleQuoted | main.py:22-26 | `KEY="value"` stores `value` |
| Dotenv.ParseLineSingleQuoted | main.py:22-26 | `KEY='value'` stores `value` |
| Dotenv.ParseLines | main.py:21-26 | each line is parsed on its own, in order |
| Dotenv.LoadDotenv | main.py:14-29 | the environment afterwards is `Loading` of the file: unchanged for a missing file, otherwise the parsed lines applied in order |
| Dotenv.SkippedLine | main.py:22-24 | a blank, comment or `=`-less line changes nothing |
| Dotenv.AppliedKeepsExisting | main.py:26 | a variable already set is never overwritten or removed |
| Dotenv.AppliedKeysFromFile | main.py:21-26 | every variable the loading adds is named by a line of the file, so keys not in the file stay unset |
| Dotenv.AppliedAppend | main.py:21-29 | loading the file in two parts equals loading the second part after the first, when no line of the first part is refused |
| Dotenv.FirstOccurrenceWins | main.py:26 | among lines naming the same unset variable, the first one sets its final value |
| HtmlTable.Wrap | main.py:54-55 | one line per cell, in order, each being the cell between the opening and closing tag |
| HtmlTable.CellLines | main.py:54-55 | the loop over the cells yields exactly `Wrap` |
| HtmlTable.RenderHtml | main.py:50-63 | the imperative rendering yields exactly `HtmlLines`: the body paragraph, one `<th>` line per header cell, then one `<tr>` block per later row with one `<td>` line per cell |
| HtmlTable.TakeCells | main.py:54-61 | reading cell lines never lengthens what remains |
| HtmlTable.InnerOf | main.py:55 | a wrapped cell is a cell line whose text is the cell |
| HtmlTable.TakeWrapped | main.py:54-61 | the wrapped cells of a row read back as that row's cells, in order |
| HtmlTable.BodyRowsFront | main.py:58-62 | the body lines are the first row's lines followed by the rest's |
| HtmlTable.NotTdLine | main.py:61-62 | a short line such as `</tr>` is not a `<td>` cell line |
| HtmlTable.ParseOneRow | main.py:59-62 | one row's lines read back as that row |
| HtmlTable.ParseBodyRowsOf | main.py:58-62 | the body lines read back as the later rows, in order |
| HtmlTable.ParseHeader | main.py:52-57 | the header lines read back as the first row |
| HtmlTable.RenderParseRoundTrip | main.py:50-63 | the rows read back from the rendered document are exactly the rows rendered, so every cell appears once, in order and unescaped |
| Mailer.LastIndex | main.py:40 | the index of the last occurrence of the character, or -1 when there is none |
| Mailer.FinalComponent | main.py:40 | the final path component holds no `/`, ends the path, and is either the whole path or preceded by `/` |
| Mailer.CsvSuffixIff | main.py:40 | `Path.suffix` of a file name is `.csv` exactly when the name is longer than `.csv` and ends with it |
| Mailer.CommaDialectIff | main.py:40 | the comma dialect is used exactly for a file name longer than `.csv` that ends in `.csv`; any other file uses the tab dialect |
| Mailer.TableRows | main.py:39-48 | no rows without a path, or for a path that does not exist |
| Mailer.MessageFor | main.py:32-70 | the addresses and subject are as given and the plain body is the body; there is an HTML alternative exactly when the table has rows |
| Mailer.BuildMessage | main.py:32-70 | the composed message is `MessageFor` of the rows read with the chosen dialect |
| Mailer.MessageCarriesTable | main.py:50-66 | the HTML alternative is the newline join of lines that read back as the table's rows |
| Mailer.Or | main.py:86 | Python's `a or b`: `a` when it is a non-empty string, otherwise `b` |
| Mailer.FirstDelivered | main.py:97-104 | the first delivered attempt among the first `limit`, with no delivery before it; none when no attempt in range delivers |
| Mailer.Sending | main.py:73-116 | missing sender or receiver, then missing password, are reported before any attempt; otherwise the first delivered attempt within `max_retries` wins, with the composed message; the error after retries means no attempt in range delivered |
| Mailer.SendEmailFromEnv | main.py:73-116 | the checks and the retry loop return exactly `Sending` of the environment |
| Mailer.ChooseText | main.py:128-129 | a non-empty argument wins, then the environment variable (even when empty), then the default |
| Mailer.FirstExisting | main.py:136-139 | the first existing candidate, with none existing before it; none when no candidate exists |
| Mailer.DetectedTable | main.py:136-139 | `table.csv` is preferred to `table.tsv`; with neither there is no table |
| Mailer.ChooseTable | main.py:132-139 | an explicit non-empty `--table` wins; otherwise the first existing candidate |
| Mailer.CliMain | main.py:119-149 | the environment is loaded from `.env` first; the subject, body and table are chosen from it; without `--send` the result is the preview, otherwise the result of `Sending` with three attempts |

## Left out

- HTTP requests, URL building and encoding, and JSON decoding. A listing is the
  sequence of replies it yields.
- A reply whose `items` field is JSON `null`. In the fallback listing,
  `resp.get("items", [])` then raises a `TypeError` that is not caught; the
  model's pages always hold a list.
- Item objects without a `name`. The model lists names; a missing name would be
  the empty string, which yields no child either way.
- The token value and the `gcloud` subprocess. The sources are given as
  optional strings, and the token itself is never used by the model.
- No relation is proved between the children of the delimiter listing and those
  of the plain listing of the same bucket. They are two independent inputs. The
  two can differ on the same bucket. The fallback takes an object lying
  directly under the prefix as a child of its own name (`GcsScan.LooseObjectIsChild`).
  The delimiter listing reports such an object as an item, not as a sub-prefix.
- Listings that never end. Every listing is assumed to reach a reply without a
  token (`GcsScan.Finite`, `GcsScan.Answers`). A server that always returned a
  token would keep the source's `while True` loops running forever.
- Real filesystem calls, and the resolution of paths (`.`, `..`, symbolic
  links, trailing `/`) by `Path`.
- Windows ordering of `Path` objects, which ignores case. Names are ordered by
  code point, as `sorted()` orders paths of one folder on POSIX systems.
- Upper-casing of environment keys on Windows, and encoding errors when a key or
  value is passed to the operating system.
- Reading errors in the middle of a `.env` file. The file is the list of its
  lines, and an existing file is read completely.
- CSV quoting and escaping, and `csv.reader` itself. A read table is given as
  its rows, or as a failure.
- The HTML document as one string. It is kept as its list of lines, and the
  `"\n".join` is not inverted; a cell holding a newline would make the join
  ambiguous.
- MIME construction by `EmailMessage`, SMTP itself, TLS, login, the host, port
  and timeout parameters, the `time.sleep` backoff and logging.
- The exception chained from the last failure. Only the kind of error is kept.
- Mailer.SendEmailFromEnv: requires an outcome for every attempt the loop may
  make (`max_retries` of them), because the attempts are an input sequence.
- Mailer.CliMain: likewise requires three attempt outcomes.
- The preview `print` calls, argument parsing, the exit code, the two
  scanners' command lines and their subprocess call to `main.py`, and
  `test_login.py`. These are process plumbing.
- Dotenv.Unquote: it has no contract of its own. Its effect is stated by lemmas
  for three kinds of value: a value with nothing to strip (`Dotenv.UnquoteClean`),
  one in double quotes (`Dotenv.UnquoteDoubleQuoted`) and one in single quotes
  (`Dotenv.UnquoteSingleQuoted`). The fact that a stored value never starts or
  ends with `'` is not stated for every value.
