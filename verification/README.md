# telefonbuch scraper and export tools, modelled in Dafny

This project models the data paths of the telefonbuch-deutschland scraper and its post-processing scripts. Each piece is a pure function over sequences and trees, and the properties the code relies on are proved about it.

- **Scraper** (`telefonbuch-scraper.py`), in modules `QueryKeys`, `SearchClient`, `Xml`, `Flatten` and `Scraper`:
  - the two-letter search keys;
  - the search request for a page offset;
  - the poll loop that waits out "still computing" replies, and the hit-count and session-id extraction;
  - `parse_address`, which flattens an `<address>` tree into rows with predicted ids;
  - the numbering pass that gives each row its `query_offset` and `query_child_num`;
  - the page loop with its page-size check and the failure on a body that is not well-formed XML;
  - the store: the `telefonbuch_scrape` table as a sequence of rows, with its primary key and unique index;
  - the key loop, which commits once per key, skips keys already stored and stops at the first fatal error.
- **Export** (`sqlite2csv.py`), in modules `PayloadCodec`, `StrOrder` and `Export`:
  - newline escaping, `bool_to_int` and `recordtype_to_int`;
  - the `;`-separated payload string with minimal quoting, and the CSV reader that splits it again;
  - the payload columns;
  - the stages of the second `convert_sqlite_to_csv`, as functions on the temp table's rows: copying, the `parent_map` with its primary key, deduplication of parents, children and singles by payload, and the output order.
- **CSV import** (`csv2sqlite.py`), in module `CsvImport`: reading a `;`-separated CSV whose header has a `recordtype_int` column. `process_batch` predicts rowids and parent links, and the batch loop carries its state from batch to batch and fails when a record has fewer fields than the header.
- **Column check** (`check-column-types.py`), in module `ColumnCheck`: the generated `WHERE` clause under SQL's three-valued logic, the 100-row limit and the exit status.
- **Address pairs and labels** (`get_random_address_pairs.py`, `render_random_shipping_labels_html.py`), in modules `AddressPairs` and `Labels`:
  - `format_address` and `generate_pairs`;
  - the sampling loop, with its shuffles as a parameter, and its trim to `PAIR_COUNT`;
  - the 2 × 5 label grid of `render_address_pair`.
- **Split and join** (`split-text-file.py`, `join-telefonbuch-csv-parts.py`), in modules `SplitFile` and `JoinParts`:
  - the line-preserving chunker and its zero-padded part names;
  - the numeric ordering of the parts;
  - the concatenation that adds a missing final newline;
  - the round trip between the two.

Shared vocabulary:
- `Common`: `Option`, `Result` and sequence helpers.
- `Decimal`: `str(n)`, `zfill` and `int(s)`.
- `Schema`: the `telefonbuch_columns` table.

Three behaviours of the code that are easy to get wrong:
- A column whose element holds only whitespace is stored as the empty string (telefonbuch-scraper.py:233-234, `Flatten.FieldValueBlank`).
- The first nested row after a top-level row gets child number 1 (telefonbuch-scraper.py:766-773, `Flatten.NumberChildAt`).
- The first page of a key is not fetched again: the loop reuses the response that reported the hit count (telefonbuch-scraper.py:670-671, `Scraper.FetchPage`).

## Model

| member | source | states |
|---|---|---|
| QueryKeys.ProductLength | telefonbuch-scraper.py:613 | the product of two alphabets has `|firsts| * |seconds|` words |
| QueryKeys.ProductIndex | telefonbuch-scraper.py:613-614 | product order: word `i * |seconds| + j` is the i-th first letter followed by the j-th second letter |
| QueryKeys.ProductMembers | telefonbuch-scraper.py:613-614 | a word is in the product exactly when it is one first letter followed by one second letter |
| QueryKeys.ProductWordLength | telefonbuch-scraper.py:613-614 | every generated word has length 2 (`query_name_length`) |
| QueryKeys.FilterCommutes | telefonbuch-scraper.py:612-617 | dropping the digit-led words from the product equals the product over the non-digit first letters |
| QueryKeys.DropDigitLedRow | telefonbuch-scraper.py:615-616 | a whole row is dropped when its first letter is a digit and kept unchanged otherwise |
| QueryKeys.KeysInProductOrder | telefonbuch-scraper.py:612-617 | key number `i * |alphabet| + j` is the i-th non-digit letter followed by the j-th alphabet letter |
| QueryKeys.KeysMembership | telefonbuch-scraper.py:612-617 | a word is a key exactly when it is two alphabet letters and does not start with a digit |
| QueryKeys.KeysLength | telefonbuch-scraper.py:612-617 | the number of keys is (non-digit letters) × (alphabet size) |
| QueryKeys.NonDigitsMembers | telefonbuch-scraper.py:615 | the retained first letters are exactly the alphabet's non-digit characters |
| QueryKeys.NonDigitCount | telefonbuch-scraper.py:68 | letters + digits + umlauts keeps the letters and umlauts, and drops the digits |
| QueryKeys.AlphabetParts | telefonbuch-scraper.py:68 | the alphabet is `a`-`z`, then `0`-`9`, then `äöüß`; only the middle block is digits |
| QueryKeys.AlphabetNonDigits | telefonbuch-scraper.py:68 | the 40-symbol alphabet has 30 non-digit symbols |
| QueryKeys.KeyCount | telefonbuch-scraper.py:68-69 | with the scraper's alphabet there are exactly 1200 keys |
| QueryKeys.SmallAlphabetExample | telefonbuch-scraper.py:612-617 | over `{a, b, c, 1}` the keys are the 12 words not starting with `1`, in product order |
| QueryKeys.EnumerateKeys | telefonbuch-scraper.py:612-617 | the key list; stated by QueryKeys.KeysMembership and QueryKeys.KeysInProductOrder |
| SearchClient.ContainsFromMeaning | telefonbuch-scraper.py:453 | the left-to-right search from `i` finds the marker exactly when it occurs at some position at or after `i` |
| SearchClient.ContainsMeaning | telefonbuch-scraper.py:453 | `marker in body` holds exactly when the marker occurs somewhere in the body |
| SearchClient.DigitRun | telefonbuch-scraper.py:118 | the `[0-9]+` group matches the longest run of digits at that position |
| SearchClient.SearchFromNone | telefonbuch-scraper.py:457-458 | the search from `from` finds nothing exactly when no position at or after `from` holds a match |
| SearchClient.SearchFromFound | telefonbuch-scraper.py:457-458 | a successful search returns the match at a position at or after `from`, before which nothing matches |
| SearchClient.SearchFromLeftmost | telefonbuch-scraper.py:457-458 | searching from `from` finds nothing exactly when the tag pattern matches nowhere from there; otherwise it returns the leftmost match |
| SearchClient.SearchTagNumber | telefonbuch-scraper.py:115-121 | `re.search` for a tagged number; stated by SearchClient.SearchTagNumberLeftmost |
| SearchClient.SearchTagNumberLeftmost | telefonbuch-scraper.py:115-121 | `re.search` for `<tag>digits</tag>` returns the number of the leftmost match, and fails exactly when there is none |
| SearchClient.GetSessionId | telefonbuch-scraper.py:360-375 | succeeds exactly for a 200 reply whose body holds a `<sessionid>` number, and then yields that number; a non-200 status is an error |
| SearchClient.Lookup | telefonbuch-scraper.py:424-444 | the parameter value found for a name is one of the pairs sent, and none is found only when no pair has that name |
| SearchClient.PageParamsLookup | telefonbuch-scraper.py:437-442 | the paging parameters are `startrecord=0` and `btnpage=n`, without `btnhidden` |
| SearchClient.CommonLacksPaging | telefonbuch-scraper.py:424-432 | the fixed search parameters name none of `btnhidden`, `startrecord` or `btnpage` |
| SearchClient.SearchParamsSession | telefonbuch-scraper.py:424-432 | every search request carries the session id as decimal text and the key as `name` |
| SearchClient.SearchParamsFirstPage | telefonbuch-scraper.py:433-436 | offset 0 sends `btnhidden=Suchen` and no page parameters |
| SearchClient.SearchParamsLaterPage | telefonbuch-scraper.py:437-442 | any other offset sends `startrecord=0` and `btnpage = 1 + offset div 15`, and no `btnhidden` |
| SearchClient.Settle | telefonbuch-scraper.py:449-463 | a finished reply succeeds exactly when its status is 200 and it holds a hit count, and then yields that count with the reply |
| SearchClient.PollSettlesAt | telefonbuch-scraper.py:448-463 | when attempts before `a` were still computing and attempt `a` is not, the loop's result is that of attempt `a` |
| SearchClient.PollStalls | telefonbuch-scraper.py:448-467 | the loop gives up exactly when every remaining attempt up to the 1000th was still computing |
| SearchClient.GetSearchResultsOutcome | telefonbuch-scraper.py:417-474 | `get_search_results` stalls exactly when all 1000 attempts were still computing; otherwise its result is that of the first finished attempt |
| SearchClient.SearchParams | telefonbuch-scraper.py:424-442 | the request parameters; stated by SearchClient.SearchParamsSession, SearchClient.SearchParamsFirstPage and SearchClient.SearchParamsLaterPage |
| SearchClient.PollFrom | telefonbuch-scraper.py:448-467 | the retry loop; stated by SearchClient.PollSettlesAt and SearchClient.PollStalls |
| SearchClient.Loading | telefonbuch-scraper.py:453 | the "still computing" test; stated by SearchClient.ContainsMeaning and SearchClient.PollSettlesAt |
| SearchClient.GetSearchResults | telefonbuch-scraper.py:417-474 | `get_search_results`; stated by SearchClient.GetSearchResultsOutcome |
| Xml.Find | telefonbuch-scraper.py:232 | `find` returns a child with that tag exactly when one exists |
| Xml.FindFrom | telefonbuch-scraper.py:232 | the search returns an element of the children carrying the tag, and finds one exactly when one exists |
| Xml.Children | telefonbuch-scraper.py:242 | `findall` returns no more elements than there are children |
| Xml.ChildrenOne | telefonbuch-scraper.py:242 | `findall` on one child keeps it exactly when its tag matches |
| Xml.ChildrenAppend | telefonbuch-scraper.py:242 | `findall` over a run of children is `findall` over each part in turn, so the matches keep document order |
| Xml.ChildrenMembers | telefonbuch-scraper.py:242 | `findall` returns exactly the direct children with that tag |
| Xml.FindAll | telefonbuch-scraper.py:242 | `findall(tag)`; stated by Xml.ChildrenMembers and Xml.ChildrenAppend |
| Xml.Descendants | telefonbuch-scraper.py:742 | the `.//` axis; stated by Xml.EntryAddressesMembers |
| Xml.EntryAddresses | telefonbuch-scraper.py:742 | `findall(".//entries/address")`; stated by Xml.EntryAddressesMembers and Xml.AddressesUnderAppend |
| Xml.AddressesUnderAppend | telefonbuch-scraper.py:742 | the addresses under a run of elements are those under each part in turn, so they keep document order |
| Xml.AddressesUnderMembers | telefonbuch-scraper.py:742 | an element is found under a run exactly when it is an `address` child of one of its `entries` elements |
| Xml.EntryAddressesMembers | telefonbuch-scraper.py:742 | the page's addresses are exactly the `address` children of `entries` elements below the root, the root itself excluded |
| Xml.StripLeft | telefonbuch-scraper.py:234 | the left strip is a suffix; everything removed is whitespace, and what remains does not start with whitespace |
| Xml.StripRight | telefonbuch-scraper.py:234 | the right strip is a prefix; everything removed is whitespace, and what remains does not end with whitespace |
| Xml.LeadingSpaces | telefonbuch-scraper.py:234 | counts exactly the whitespace characters the text starts with |
| Xml.Strip | telefonbuch-scraper.py:234 | `strip()` is the slice after the leading whitespace with only whitespace after it; a non-empty result neither starts nor ends with whitespace |
| Xml.StripLeadingAgrees | telefonbuch-scraper.py:234 | the left strip removes exactly the leading whitespace |
| Xml.StripAllSpace | telefonbuch-scraper.py:233-234 | whitespace-only text strips to the empty string |
| Xml.StripTrimmed | telefonbuch-scraper.py:234 | text without whitespace at its ends is stored unchanged |
| Flatten.FieldValue | telefonbuch-scraper.py:231-236 | a column is None exactly when the element lacks that child or the child's text is absent or empty; otherwise it holds the child's stripped text |
| Flatten.FieldValueMissing | telefonbuch-scraper.py:232-236 | a column without an element stores None |
| Flatten.FieldValueBlank | telefonbuch-scraper.py:233-234 | whitespace-only text is stored as `""`, not None |
| Flatten.FieldsAt | telefonbuch-scraper.py:231-236 | a row has one value per column, and the i-th is the i-th column's value |
| Flatten.NestedMember | telefonbuch-scraper.py:242 | every nested address visited is a child of the element |
| Flatten.PreOrder | telefonbuch-scraper.py:238-244 | the walk starts at the address itself, then visits the nested ones |
| Flatten.ParseAddress | telefonbuch-scraper.py:218-246 | one row per node of the subtree; ids run consecutively from the counter's value, and the first row carries the given parent |
| Flatten.ParseNested | telefonbuch-scraper.py:242-244 | the loop over nested addresses gives one row per node of their subtrees, with consecutive ids |
| Flatten.ParseAddressFieldAt | telefonbuch-scraper.py:226-244 | row k holds the fields of the k-th node in pre-order |
| Flatten.ParseNestedFieldAt | telefonbuch-scraper.py:242-244 | in the loop over nested addresses, row k holds the fields of the k-th node of their pre-order |
| Flatten.ParseAddressFields | telefonbuch-scraper.py:218-246 | flattening is a pre-order walk: every row holds the fields of its own node |
| Flatten.ParseAddressParentAt | telefonbuch-scraper.py:226-244 | every row after the first names as parent an earlier row of the same subtree, and its node is nested directly in that row's node |
| Flatten.ParseNestedParentAt | telefonbuch-scraper.py:242-244 | each nested address's row names the enclosing row as parent; deeper rows name an earlier row whose node directly contains theirs |
| Flatten.NestedRowsHaveParents | telefonbuch-scraper.py:226-244 | within a subtree every row after the first has a parent id among the ids handed out before it |
| Flatten.ParseAddressChildCount | telefonbuch-scraper.py:242-244 | exactly the directly nested addresses name the address's row as parent |
| Flatten.ParseNestedChildCount | telefonbuch-scraper.py:242-244 | the loop from the i-th nested address on gives the enclosing row exactly the remaining children |
| Flatten.CountParentAppend | telefonbuch-scraper.py:242-244 | children of a row are counted separately in each part of a concatenation |
| Flatten.FlattenPage | telefonbuch-scraper.py:742-752 | a page's rows have consecutive ids from the counter; parents are earlier rows of the page; the first row is top-level; there is one top-level row per address, and no rows without addresses |
| Flatten.CountTopsAppend | telefonbuch-scraper.py:767-770 | top-level rows are counted separately in each part of a concatenation |
| Flatten.CountTopsOnlyFirst | telefonbuch-scraper.py:744-752 | one address's rows hold exactly one top-level row |
| Flatten.Number | telefonbuch-scraper.py:764-783 | one key per row, none before the starting position, and no two keys `(query_offset, query_child_num)` equal |
| Flatten.NumberStep | telefonbuch-scraper.py:764-783 | after the first row the numbering goes on from the offset and child number that row leaves behind |
| Flatten.NumberOffsetAt | telefonbuch-scraper.py:764-783 | row k's offset is the page offset plus the number of top-level rows before it |
| Flatten.NumberChildAt | telefonbuch-scraper.py:766-773 | a top-level row gets child number 0; a nested row gets one more than the row before it |
| Flatten.NestedRowOffset | telefonbuch-scraper.py:764-783 | a nested row's offset is one more than its top-level row's, and its child number is its distance from that row |
| Flatten.ChildRun | telefonbuch-scraper.py:766-773 | child numbers count 1, 2, … since the last top-level row |
| Flatten.PageAdvance | telefonbuch-scraper.py:742-783 | a page has exactly one top-level row per address, and its first row is numbered `(page offset, 0)` |
| Scraper.MaxIdIsMax | telefonbuch-scraper.py:728 | `COALESCE(MAX(id), 0)` is 0 on an empty table, bounds every id, and is one of them |
| Scraper.InsertAllMeaning | telefonbuch-scraper.py:784 | on a consistent table an insert succeeds exactly when the table stays consistent (primary key and unique index), and it then appends the rows |
| Scraper.PageOffsets | telefonbuch-scraper.py:664 | the page offsets start at 0 and step by 15, and the last one is the page holding hit number `num_results` (`last <= num_results < last + 15`) |
| Scraper.FetchPage | telefonbuch-scraper.py:666-671 | page 0 reuses the first response and every later page is fetched; stated by Scraper.ScrapePagesRequests and Scraper.PlanRequestsAll |
| Scraper.PageOffsetsMembers | telefonbuch-scraper.py:664 | the offsets are exactly the multiples of 15 up to and including the hit count |
| Scraper.PageRowsFacts | telefonbuch-scraper.py:728-783 | a page's rows have ids counting up from `MAX(id) + 1`, parents among earlier rows, the key, offsets from the page offset on, and no clash between them |
| Scraper.ScrapeKeyResumes | telefonbuch-scraper.py:626-632 | a key already in the store sends no request and adds no row |
| Scraper.ScrapeKeyNoHits | telefonbuch-scraper.py:644-648 | a key whose first search reports 0 hits sends only that request and adds nothing |
| Scraper.MaxIdPending | telefonbuch-scraper.py:728 | after inserting rows numbered from `MAX(id) + 1`, the next `MAX(id)` has grown by their count |
| Scraper.PageStepOutcome | telefonbuch-scraper.py:731-784 | on a consistent table a page fails exactly when it states a page size other than 15, its body is not well-formed XML, or its rows clash with the table; a bad size is reported first, a parse failure second, and a page that succeeds inserts its numbered rows |
| Scraper.PageStepKeeps | telefonbuch-scraper.py:728-784 | one page keeps the key's rows numbered consecutively from the committed `MAX(id) + 1`, with parents among earlier rows of the key |
| Scraper.ScrapePagesRequests | telefonbuch-scraper.py:664-671 | the page loop sends the planned requests in order: all of them when it succeeds, a prefix when it fails |
| Scraper.ScrapePagesRows | telefonbuch-scraper.py:664-786 | the page loop only appends rows and keeps their numbering and parent invariant |
| Scraper.RequestsFor | telefonbuch-scraper.py:664-671 | one search request per page offset, in order |
| Scraper.PlanRequestsAll | telefonbuch-scraper.py:670-671 | the pages after the first are fetched one each, in plan order |
| Scraper.ScrapeKeyRows | telefonbuch-scraper.py:622-786 | the rows a key adds count up from `MAX(id) + 1`, carry the key, have their parents among earlier rows of the key, and keep the table's keys unique |
| Scraper.ScrapeKeyRequests | telefonbuch-scraper.py:644-671 | a successful key sends one search per offset of `range(0, hits + 1, 15)`, fixed by the first hit count |
| Scraper.CommitKeeps | telefonbuch-scraper.py:784-793 | committing a key's rows keeps the table consistent, and every parent link points to an earlier row |
| Scraper.RunKeeps | telefonbuch-scraper.py:622-797 | the run only appends to the store, keeps its constraints, and keeps every parent before its children |
| Scraper.RunStopsAtError | telefonbuch-scraper.py:733-736 | when the next key ends in a fatal error, the run stops with the store as it was and reports the error |
| Scraper.MaxId | telefonbuch-scraper.py:728 | `COALESCE(MAX(id), 0)`; stated by Scraper.MaxIdIsMax |
| Scraper.InsertAll | telefonbuch-scraper.py:784 | `executemany` against the table's keys; stated by Scraper.InsertAllMeaning |
| Scraper.PageStep | telefonbuch-scraper.py:728-784 | one page's body; stated by Scraper.PageStepOutcome and Scraper.PageStepKeeps |
| Scraper.ScrapePages | telefonbuch-scraper.py:664-786 | the page loop; stated by Scraper.ScrapePagesRequests and Scraper.ScrapePagesRows |
| Scraper.ScrapeKey | telefonbuch-scraper.py:622-793 | one key; stated by Scraper.ScrapeKeyRows, Scraper.ScrapeKeyRequests, Scraper.ScrapeKeyResumes and Scraper.ScrapeKeyNoHits |
| Scraper.Run | telefonbuch-scraper.py:622-797 | the key loop; stated by Scraper.RunKeeps and Scraper.RunStopsAtError |
| Scraper.ScrapeMeaning | telefonbuch-scraper.py:584-797 | without a session id the program sends no search, leaves the table as it was and reports the session error; with one it is the key loop over every key of the alphabet with the 26 result columns; a consistent table with parents before children stays so and is only appended to |
| Scraper.Scrape | telefonbuch-scraper.py:584-797 | the whole program after the server is up; stated by Scraper.ScrapeMeaning |
| PayloadCodec.ReplaceAbsent | sqlite2csv.py:50 | `replace` leaves a string without the pattern unchanged |
| PayloadCodec.EscapeIsScan | sqlite2csv.py:50 | the three chained replacements equal one left-to-right scan turning CRLF, a lone CR or a lone LF into `\n` |
| PayloadCodec.EscapeScanClean | sqlite2csv.py:47-51 | the escaped text holds no CR or LF |
| PayloadCodec.EscapeScanIdentity | sqlite2csv.py:47-51 | text without line breaks is unchanged |
| PayloadCodec.EscapeNewlinesMeaning | sqlite2csv.py:47-51 | escaping keeps NULL as NULL, removes every line break from a string, and leaves a string without line breaks alone |
| PayloadCodec.BoolToInt | sqlite2csv.py:54-59 | in `commercial`/`webadress`/`advertising`, a value starting with `t` gives 1 and any other non-empty value gives None; NULL or empty text raises; other columns pass through |
| PayloadCodec.RecordTypeToInt | sqlite2csv.py:94-101 | total, with range {0, 1, 2}: 1 exactly for `p…`, 2 exactly for `c…`, 0 otherwise, including NULL and empty text |
| PayloadCodec.RecordTypeNames | sqlite2csv.py:94-101 | single, parent and child map to 0, 1 and 2 |
| PayloadCodec.FieldText | sqlite2csv.py:73-79 | a field's text has no line break and is never `"0"`; NULL and `"0"` both become the empty field |
| PayloadCodec.PayloadTexts | sqlite2csv.py:69-83 | one field text per payload column, in order; it fails exactly when some field fails |
| PayloadCodec.QuoteAll | sqlite2csv.py:81-83 | each field is quoted independently, in order |
| PayloadCodec.ReadPlain | sqlite2csv.py:87-91 | the reader copies unquoted field characters unchanged |
| PayloadCodec.ReadQuoted | sqlite2csv.py:81-91 | the reader turns doubled quotes back into one and ends the field at the closing quote |
| PayloadCodec.ReadField | sqlite2csv.py:81-91 | one quoted-or-plain field reads back as its text |
| PayloadCodec.FieldEnd | sqlite2csv.py:87-91 | after a field, `;` or the end of the line saves it |
| PayloadCodec.ReadFieldThenDelimiter | sqlite2csv.py:81-91 | a field followed by `;` is saved, and reading goes on with the next field |
| PayloadCodec.ReadLastField | sqlite2csv.py:81-91 | the last field of the line is saved |
| PayloadCodec.ReadFields | sqlite2csv.py:84-91 | reading the quoted, `;`-joined fields saves exactly those fields |
| PayloadCodec.LineStart | sqlite2csv.py:84-91 | a joined record (other than one empty field) is non-empty and does not start with a line break |
| PayloadCodec.PayloadRoundTrip | sqlite2csv.py:81-91 | `deserialize_payload` recovers the field list from the quoted, `;`-joined fields, unless the record is one empty field |
| PayloadCodec.SerializeRoundTrip | sqlite2csv.py:69-91 | a serialized row of two or more payload columns reads back as its field texts, one per column |
| PayloadCodec.EscapeNewlines | sqlite2csv.py:47-51 | `escape_newlines`; stated by PayloadCodec.EscapeNewlinesMeaning |
| PayloadCodec.SerializePayload | sqlite2csv.py:69-83 | `serialize_payload`; stated by PayloadCodec.SerializeRoundTrip |
| PayloadCodec.QuoteField | sqlite2csv.py:81-83 | quoting one field; stated by PayloadCodec.ReadField |
| PayloadCodec.ParseFrom | sqlite2csv.py:87-91 | the reader's state machine over a line; stated by PayloadCodec.ReadFields and PayloadCodec.PayloadRoundTrip |
| PayloadCodec.Step | sqlite2csv.py:87-91 | one character of the reader; stated by PayloadCodec.ReadPlain, PayloadCodec.ReadQuoted and PayloadCodec.FieldEnd |
| PayloadCodec.ParseRecord | sqlite2csv.py:87-91 | `deserialize_payload`; stated by PayloadCodec.PayloadRoundTrip |
| PayloadCodec.PayloadColumns | sqlite2csv.py:388-390 | the payload columns are table columns that are neither meta nor ignored, every such table column is one of them, and there are no more of them than table columns; that filtering keeps table order is stated by PayloadCodec.PayloadColumnsAppend |
| PayloadCodec.PayloadColumnsMembers | sqlite2csv.py:388-390 | a column is a payload column exactly when it is a table column other than `id`, `parent_id`, `query_name`, `query_offset`, `query_child_num` and `recordtype` |
| PayloadCodec.PayloadColumnsAppend | sqlite2csv.py:390 | filtering keeps table order |
| StrOrder.LessIrreflexive | sqlite2csv.py:495 | no text sorts before itself |
| StrOrder.LessTransitive | sqlite2csv.py:495 | the text order is transitive |
| StrOrder.LessTotal | sqlite2csv.py:495 | two different texts are ordered one way or the other |
| StrOrder.SortedDistinct | sqlite2csv.py:494-495 | a grouped, ascending list holds no payload twice |
| StrOrder.InsertFacts | sqlite2csv.py:494-495 | inserting into an ascending list of distinct values keeps it ascending and adds exactly the new value |
| StrOrder.GroupFacts | sqlite2csv.py:494-495 | `GROUP BY v ORDER BY v` gives strictly ascending values, which are exactly the values present |
| Export.CopyRows | sqlite2csv.py:409-435 | stage 1 gives one temp row per source row, with its id, parent id, record type (0 without a `recordtype` column) and serialized payload; it fails exactly when a payload cannot be serialized |
| Export.PayloadsOf | sqlite2csv.py:461 | the payloads of one record type are exactly those of the rows of that type |
| Export.MinParentIdMeaning | sqlite2csv.py:489-497 | a parent payload gets an id exactly when some parent row carries it, and that id is the least such row's id |
| Export.ParentMap | sqlite2csv.py:457-474 | the `parent_map` inserts; stated by Export.ParentMapMeaning |
| Export.ParentMapMeaning | sqlite2csv.py:453-483 | `parent_map` is built exactly when no two parent rows share an id; it then maps exactly the parent ids, each to its row's payload; otherwise the insert fails on an id two parent rows carry |
| Export.ParentPayloadsWithIdNone | sqlite2csv.py:519 | a parent id no parent row carries joins nothing |
| Export.ParentPayloadsWithIdMembers | sqlite2csv.py:519 | the join finds exactly the payloads of the parent rows with the child's parent id, and at most one when parent ids are unique |
| Export.ParentMapJoin | sqlite2csv.py:512-524 | once `parent_map` is built, joining through it gives the same payload as joining the parent rows directly: the mapped payload, or nothing for an unmapped id |
| Export.ChildPayloadsUnder | sqlite2csv.py:512-524 | the children listed under a payload are exactly the child rows whose parent id is a parent row carrying that payload; other children are dropped |
| Export.ChildrenOfMeaning | sqlite2csv.py:512-524 | each parent's children are distinct, ascending, and exactly the payloads of the child rows joined to a parent with that payload |
| Export.LinesOf | sqlite2csv.py:605-616 | one output line per payload, each with the given type |
| Export.OfKindLines | sqlite2csv.py:605-616 | the lines of one type give back their payloads, and contain none of another type |
| Export.MergeSplits | sqlite2csv.py:559-568 | `parent_single` holds exactly the parents and the singles, each in its own order |
| Export.MergeMembers | sqlite2csv.py:559-568 | a line is in `parent_single` exactly when it is a parent or a single payload |
| Export.MergeOrdered | sqlite2csv.py:598 | parents and singles come out in payload order, a parent first on a tie |
| Export.EmitAppend | sqlite2csv.py:600-617 | writing two runs of lines in turn writes their outputs in turn |
| Export.ParentThenChildren | sqlite2csv.py:603-613 | each parent line is immediately followed by exactly its children, as type-2 lines |
| Export.EmitWithoutChildren | sqlite2csv.py:600-617 | dropping the child lines from the output gives back the parent and single lines |
| Export.EmitKeeps | sqlite2csv.py:600-617 | the output keeps the parent lines, and the single lines, in their order |
| Export.OfKindAppend | sqlite2csv.py:600-617 | lines of one type are collected separately from each part of a concatenation |
| Export.HeaderColumns | sqlite2csv.py:387-592 | the header is `type` followed by the payload columns, which are exactly the table's columns other than the ids, the query bookkeeping and `recordtype` |
| Export.ExportShape | sqlite2csv.py:489-617 | the output's parents and singles are the distinct payloads of each kind, ascending, interleaved by payload, and each parent is followed by its children |
| Export.Export | sqlite2csv.py:489-617 | stages 3 to 7; its shape is stated by Export.ExportShape |
| Export.Merge | sqlite2csv.py:559-568 | the `parent_single` union in payload order; stated by Export.MergeSplits, Export.MergeMembers and Export.MergeOrdered |
| Export.Emit | sqlite2csv.py:600-617 | the output loop; stated by Export.EmitAppend, Export.ParentThenChildren and Export.EmitWithoutChildren |
| Export.Convert | sqlite2csv.py:402-617 | stage 1, stage 2's duplicate check, then stages 3 to 7; stated by Export.ConvertMeaning |
| Export.ConvertMeaning | sqlite2csv.py:402-617 | the export fails exactly when a payload cannot be serialized or two parent rows share an id; otherwise it writes `Export` of the copied rows, and every child's join through `parent_map` agrees with the direct join |
| CsvImport.ConvertField | csv2sqlite.py:116-125 | text is kept; a bool is true exactly for `"1"`; an int field parses exactly when it is integer text, and then gives its value |
| CsvImport.ConvertRow | csv2sqlite.py:116-125 | every field is converted by its column's type; a row longer than the header fails |
| CsvImport.ProcessBatch | csv2sqlite.py:99-130 | one row per record, and the next rowid advances by the batch size |
| CsvImport.RecordTypes | csv2sqlite.py:106 | the record types read from a batch, one per record |
| CsvImport.LastParentNone | csv2sqlite.py:103-130 | without a parent record the incoming parent is handed on |
| CsvImport.LastParentIsLast | csv2sqlite.py:108-110 | the parent handed on is the rowid of the last parent record |
| CsvImport.LastParentSnoc | csv2sqlite.py:108-110 | a parent record makes its own rowid the current parent; any other record leaves it |
| CsvImport.ProcessRowStep | csv2sqlite.py:106-128 | a record takes the next rowid; a child gets the current parent, others None; a parent becomes the current parent |
| CsvImport.ProcessBatchTypes | csv2sqlite.py:106 | a successful batch had every record type parse |
| CsvImport.ProcessBatchPredicts | csv2sqlite.py:99-130 | rowids run from the start rowid; a child links to the last parent before it, even from an earlier batch; other records have no parent; the last parent is handed on |
| CsvImport.PredictState | csv2sqlite.py:99-130 | the state a batch hands on is the reference rowid and last parent |
| CsvImport.PredictLinks | csv2sqlite.py:108-114 | each record's parent link is the reference prediction |
| CsvImport.ProcessBatchUnfold | csv2sqlite.py:105-128 | a batch is its first record followed by the rest from the resulting state |
| CsvImport.ProcessBatchAppend | csv2sqlite.py:135-142 | two batches processed in turn, with the state threaded between them, equal their concatenation processed at once |
| CsvImport.BatchesAreOneBatch | csv2sqlite.py:135-150 | the batch loop succeeds exactly when one batch of all records converts and every record has as many fields as the header, and then gives that batch's rows and final state; a conversion error is the one the single batch reports |
| CsvImport.ShortRecordExample | csv2sqlite.py:135-150 | with header `a;recordtype_int;b`, the record `x;0` converts but its insert fails |
| CsvImport.ProcessRow | csv2sqlite.py:106-128 | one record of `process_batch`; stated by CsvImport.ProcessRowStep |
| CsvImport.ProcessBatches | csv2sqlite.py:135-150 | the batch loop, with `executemany` failing on a record shorter than the header; stated by CsvImport.BatchesAreOneBatch |
| CsvImport.LastParent | csv2sqlite.py:108-110 | the reference for the current parent; stated by CsvImport.LastParentNone, CsvImport.LastParentIsLast and CsvImport.LastParentSnoc |
| ColumnCheck.Conditions | check-column-types.py:52-61 | one `'true'`/`'false'` condition per boolean column, in table order, followed by one `NOT IN` condition per enumerated column with its allowed values, in table order |
| ColumnCheck.BoolConditions | check-column-types.py:55-56 | one `'true'`/`'false'` condition per boolean column, in order |
| ColumnCheck.EnumConditions | check-column-types.py:59-61 | one `NOT IN` condition per enumerated column, with its allowed values |
| ColumnCheck.EvalMeaning | check-column-types.py:55-61 | a condition is true exactly when its column holds a present value outside the domain; NULL makes it unknown |
| ColumnCheck.EvalAllMeaning | check-column-types.py:64-65 | the `OR` of the conditions selects a row exactly when some condition is violated |
| ColumnCheck.NullNeverFlags | check-column-types.py:55-61 | a row whose checked columns are all NULL is never selected |
| ColumnCheck.Selected | check-column-types.py:65-69 | the selected rows are rows of the table for which the clause is true |
| ColumnCheck.SelectedComplete | check-column-types.py:65-69 | nothing is selected exactly when the clause is true for no row |
| ColumnCheck.MissingColumn | check-column-types.py:68 | the query fails on a column exactly when the table lacks it |
| ColumnCheck.CheckMeaning | check-column-types.py:64-82 | at most 100 rows are reported, each violating a condition; the status is 1 exactly when the query fails or some row violates a condition |
| ColumnCheck.ScraperConditions | check-column-types.py:48-61 | the scraper's table checks `commercial`, `webadress`, `advertising` against true/false and `recordtype` against single/parent/child |
| ColumnCheck.BadRows | check-column-types.py:64-69 | the `LIMIT 100` query; stated by ColumnCheck.Selected, ColumnCheck.SelectedComplete and ColumnCheck.CheckMeaning |
| ColumnCheck.ExitStatus | check-column-types.py:64-82 | the exit status; stated by ColumnCheck.CheckMeaning |
| Schema.TypedColumnsAre | check-column-types.py:12-39 | the boolean columns are exactly `commercial`, `webadress` and `advertising`, and the only enumerated one is `recordtype` |
| Schema.ColumnNames | telefonbuch-scraper.py:86-113 | the 26 column names from `name0` to `recordtype`, in declaration order, none twice |
| AddressPairs.FormatAddress | get_random_address_pairs.py:7-15 | with no delimiter the lines themselves; otherwise the lines joined by the delimiter |
| AddressPairs.Prefix | get_random_address_pairs.py:33 | `s[:2]`: the first two characters, or the whole of a shorter string |
| AddressPairs.AddEntryKeyIn | get_random_address_pairs.py:34 | appending an entry adds its prefix as a key, if new, and no other key |
| AddressPairs.AddEntryDistinct | get_random_address_pairs.py:34 | the prefix map never stores a key twice |
| AddressPairs.AddEntryLookup | get_random_address_pairs.py:34 | appending puts the entry at the end of its own group and changes no other group |
| AddressPairs.AddEntryMembers | get_random_address_pairs.py:34 | appending adds the entry exactly once to the grouped entries |
| AddressPairs.GroupByPrefixLookup | get_random_address_pairs.py:31-34 | each group holds exactly the entries with its prefix, in input order |
| AddressPairs.GroupByPrefixKeys | get_random_address_pairs.py:31-34 | the keys are exactly the prefixes that occur |
| AddressPairs.GroupByPrefixMembers | get_random_address_pairs.py:31-34 | together the groups hold every entry exactly once |
| AddressPairs.WithPrefixMembers | get_random_address_pairs.py:33-34 | every entry in a group carries the group's prefix |
| AddressPairs.PairUp | get_random_address_pairs.py:39-41 | a group of n entries gives floor(n / 2) pairs |
| AddressPairs.UnpairAppend | get_random_address_pairs.py:41 | the entries of appended pair lists are appended |
| AddressPairs.PairUpConsecutive | get_random_address_pairs.py:39-41 | the pairs are the group's entries taken two at a time in order; at most one entry is left over |
| AddressPairs.PairUpAt | get_random_address_pairs.py:40 | pair k is entries 2k and 2k+1 of the group |
| AddressPairs.PairUpUsesOnce | get_random_address_pairs.py:39-41 | no entry of a group is used twice |
| AddressPairs.PairsOfUseMembersOnce | get_random_address_pairs.py:37-41 | the pairs of all groups use each grouped entry at most once |
| AddressPairs.PairsOfSamePrefix | get_random_address_pairs.py:37-41 | pairs from prefix groups join entries of the same prefix |
| AddressPairs.GeneratePairsFacts | get_random_address_pairs.py:27-42 | both entries of a pair share their first two zip characters, and no entry is used more often than it occurs in the input |
| AddressPairs.LookupAt | get_random_address_pairs.py:37 | with distinct keys, a group is found under its own key |
| AddressPairs.GroupByPrefix | get_random_address_pairs.py:31-34 | the grouping loop; stated by AddressPairs.GroupByPrefixLookup, AddressPairs.GroupByPrefixKeys and AddressPairs.GroupByPrefixMembers |
| AddressPairs.GeneratePairs | get_random_address_pairs.py:27-42 | `generate_pairs`; stated by AddressPairs.GeneratePairsFacts |
| AddressPairs.ShuffledFrom | get_random_address_pairs.py:80 | a shuffled pair is one of the pairs shuffled |
| AddressPairs.PairSamePrefix | get_random_address_pairs.py:27-42 | every pair of one sample joins two entries with the same zip prefix |
| AddressPairs.CollectPairs | get_random_address_pairs.py:74-81 | the sampling loop; stated by AddressPairs.CollectExtends, AddressPairs.CollectSamePrefix and AddressPairs.CollectNoPairs |
| AddressPairs.CollectExtends | get_random_address_pairs.py:74-81 | the sampling loop only appends, and a round that runs appends its shuffled pairs right after what was collected |
| AddressPairs.CollectSamePrefix | get_random_address_pairs.py:74-81 | whatever the shuffles, every collected pair joins two entries with the same zip prefix |
| AddressPairs.CollectNoPairs | get_random_address_pairs.py:74-81 | samples that yield no pairs add nothing to what was collected |
| AddressPairs.RandomAddressPairs | get_random_address_pairs.py:59-88 | `get_random_address_pairs`; stated by AddressPairs.RandomAddressPairsFacts |
| AddressPairs.RandomAddressPairsFacts | get_random_address_pairs.py:74-84 | at most `PAIR_COUNT` pairs are returned, exactly `PAIR_COUNT` when the loop collected that many; every pair shares its zip prefix; when the first sample's pairs fit, they come first, in shuffled order |
| Labels.RenderPairFacts | render_random_shipping_labels_html.py:120-152 | a call keeps the position on the 2 × 5 grid and moves it one place on, row by row; a page opens exactly at (0,0) and closes exactly at the last place; a row opens exactly at x = 0 and closes exactly at x = 1; the first address is the sender |
| Labels.RenderPairCounts | render_random_shipping_labels_html.py:124-152 | a call opens one page exactly at the first place and closes one exactly at the last |
| Labels.PlaceStep | render_random_shipping_labels_html.py:142-153 | moving on from place i opens a page exactly when i is a page's first place, and closes one exactly when it is the last |
| Labels.RenderAllPlace | render_random_shipping_labels_html.py:158-159 | after k labels from place i the position is place `(i + k) mod 10`, on the grid |
| Labels.RenderAllCounts | render_random_shipping_labels_html.py:158-159 | the pages opened and closed on the way are those whose first and last places were passed |
| Labels.RenderPages | render_random_shipping_labels_html.py:117-159 | from (0,0), after k labels `ceil(k/10)` pages were opened and `floor(k/10)` closed |
| Labels.RenderPair | render_random_shipping_labels_html.py:120-152 | `render_address_pair`; stated by Labels.RenderPairFacts and Labels.RenderPairCounts |
| Labels.RenderAll | render_random_shipping_labels_html.py:158-159 | the main loop; stated by Labels.RenderAllPlace and Labels.RenderAllCounts |
| Decimal.NatToString | split-text-file.py:19 | `str(n)`: digits only, no leading zero unless n is 0 |
| Decimal.NatToStringRoundTrip | split-text-file.py:19 | the digits of `str(n)` denote n |
| Decimal.ZFill | split-text-file.py:19 | `zfill(width)` pads with zeros on the left up to the width and keeps the text at the end |
| Decimal.ZFillValue | split-text-file.py:19 | zero padding never changes the number denoted |
| Decimal.ParseInt | csv2sqlite.py:106 | `int(s)` succeeds exactly on integer text |
| Decimal.ParseIntNatToString | csv2sqlite.py:124 | `int(str(n)) == n` |
| SplitFile.LineEnd | split-text-file.py:24 | a line runs up to and including the next newline, or to the end of the data |
| SplitFile.LinesFacts | split-text-file.py:24 | the lines are never empty, and joined they are the data |
| SplitFile.LinesEndWithNewline | split-text-file.py:24 | when the data ends with a newline, so does every line |
| SplitFile.ChunkFromConcat | split-text-file.py:23-35 | chunking loses, duplicates, reorders and splits no line |
| SplitFile.StepNewPart | split-text-file.py:26-31 | starting a new part keeps the parts well formed |
| SplitFile.StepSamePart | split-text-file.py:34-35 | adding a line to the open part keeps the parts well formed |
| SplitFile.ChunkFromWellChunked | split-text-file.py:23-35 | a new part starts only when the next line would overflow; every part is at most the chunk size or a single line; parts after the first are not empty |
| SplitFile.FirstChunkEmpty | split-text-file.py:17-31 | part 1 is empty exactly when there is no line or the first line exceeds the chunk size |
| SplitFile.FirstPartStays | split-text-file.py:26-35 | a finished part is never changed again |
| SplitFile.ChunksFixedNonEmpty | split-text-file.py:26 | with a guard on a non-empty open part, no part is empty |
| SplitFile.PartsFrom | split-text-file.py:19-30 | part i is named `base.part<n>ext` with n = first + i zero-padded, and holds its group's lines |
| SplitFile.SplitConcat | split-text-file.py:9-37 | splitting fails only for a zero chunk size, and the parts' contents joined are the data |
| SplitFile.ContentsOfParts | split-text-file.py:34 | each part holds exactly its group's lines |
| SplitFile.ChunkFrom | split-text-file.py:23-35 | the chunking loop; stated by SplitFile.ChunkFromConcat and SplitFile.ChunkFromWellChunked |
| SplitFile.PartName | split-text-file.py:19 | a part's file name; stated by JoinParts.PartNameShape and JoinParts.PartNameKey |
| SplitFile.Lines | split-text-file.py:24 | `for line in f`; stated by SplitFile.LinesFacts and SplitFile.LinesEndWithNewline |
| SplitFile.Chunks | split-text-file.py:23-35 | the lines of each part; stated by SplitFile.FirstChunkEmpty, SplitFile.ChunkFromConcat and SplitFile.ChunkFromWellChunked |
| SplitFile.SplitWith | split-text-file.py:9-37 | `split_file` with or without the empty-part guard; stated by SplitFile.SplitConcat |
| SplitFile.Split | split-text-file.py:9-37 | `split_file`; stated by SplitFile.SplitConcat and SplitFile.PartsFrom |
| JoinParts.DigitRun | join-telefonbuch-csv-parts.py:17 | `\d+` matches the longest run of digits |
| JoinParts.KeyFrom | join-telefonbuch-csv-parts.py:17 | the search finds nothing exactly when `part\d` occurs nowhere from there |
| JoinParts.SkipBase | join-telefonbuch-csv-parts.py:17 | no match starts in a base name without `part<digit>` when a dot follows it |
| JoinParts.NoStraddle | join-telefonbuch-csv-parts.py:17 | no match of `part\d` contains a dot |
| JoinParts.DigitRunStops | join-telefonbuch-csv-parts.py:17 | the digit run stops at the first non-digit |
| JoinParts.PartNameKey | join-telefonbuch-csv-parts.py:15-18 | the sort key of part n's name is n, however it is padded |
| JoinParts.PartNameShape | split-text-file.py:19 | a part name is the base, then `.part`, the padded number and the extension |
| JoinParts.SortKey | join-telefonbuch-csv-parts.py:15-18 | the numeric sort key; stated by JoinParts.KeyFrom and JoinParts.PartNameKey |
| JoinParts.InsertByKey | join-telefonbuch-csv-parts.py:15-18 | inserting adds exactly the new part |
| JoinParts.SortParts | join-telefonbuch-csv-parts.py:15-18 | sorting permutes the parts |
| JoinParts.KeyLeTotal | join-telefonbuch-csv-parts.py:17 | the key order (numbers before infinity) is total and transitive |
| JoinParts.InsertSorted | join-telefonbuch-csv-parts.py:15-18 | insertion keeps the parts in key order |
| JoinParts.SortPartsSorted | join-telefonbuch-csv-parts.py:15-18 | the parts come out in numeric key order, as a permutation of the input |
| JoinParts.SortPartsSortedInput | join-telefonbuch-csv-parts.py:15-18 | parts already in key order stay as they are (the sort is stable) |
| JoinParts.InsertLast | join-telefonbuch-csv-parts.py:15-18 | the largest part goes back to the end |
| JoinParts.WithNewline | join-telefonbuch-csv-parts.py:29-30 | a part gains one newline byte exactly when it does not end with one, and otherwise stays as it is |
| JoinParts.Blocks | join-telefonbuch-csv-parts.py:25-31 | each part is written with its newline fixed, in order |
| JoinParts.JoinedLength | join-telefonbuch-csv-parts.py:24-31 | the output is as long as the parts plus one byte per part lacking a final newline |
| JoinParts.JoinedPlain | join-telefonbuch-csv-parts.py:29-31 | when every part ends with a newline the output is their plain concatenation |
| JoinParts.Join | join-telefonbuch-csv-parts.py:8-31 | an existing output is an error; no parts writes nothing; otherwise the output ends with a newline |
| JoinParts.JoinedEnds | join-telefonbuch-csv-parts.py:24-31 | the output of one or more parts ends with a newline |
| JoinParts.JoinMeaning | join-telefonbuch-csv-parts.py:8-31 | the output is the parts in numeric order, each followed by a newline when it lacks one |
| JoinParts.PartsInOrder | split-text-file.py:19-30 | the parts a split writes are numbered 1, 2, … and so already in key order |
| JoinParts.NumberedInOrder | join-telefonbuch-csv-parts.py:15-18 | parts keyed 1, 2, … by position are in key order |
| JoinParts.GroupEndsWithNewline | split-text-file.py:34 | a part of whole lines ends with a newline |
| JoinParts.ChunksEndWithNewline | split-text-file.py:23-35 | every non-empty part of newline-terminated data ends with a newline |
| JoinParts.SplitParts | split-text-file.py:9-37 | the parts of newline-terminated data, none empty, are in key order and each ends with a newline |
| JoinParts.JoinSplitWith | split-text-file.py:23-35 | joining the parts of a split without empty parts gives back any non-empty newline-terminated data |
| JoinParts.JoinSplit | split-text-file.py:23-35 | as written, split then join gives back newline-terminated data when the first line fits in a part |
| JoinParts.JoinSplitExtraNewline | split-text-file.py:26-31 | as written, a first line longer than the chunk size leaves part 1 empty, so the joined file starts with an extra newline |
| JoinParts.ExtraNewlineExample | split-text-file.py:26-31 | `"ab\n"` split with chunk size 1 does not join back to itself |
| JoinParts.JoinSplitFixed | split-text-file.py:26 | with the guard on a non-empty open part, split then join gives back any non-empty newline-terminated data |

## Left out

- `lxml.etree.fromstring`: parsing is not modelled. A response carries the element tree, or nothing when the body is not well-formed XML; that makes the page fail (Scraper.PageStepOutcome) and ends the run.
- HTTP and the server process: the aiohttp client, its exponential back-off and timeout, starting and stopping the wine server, and the 0.1 s sleep between polls. The server is a function from a request to its replies.
- `set_results_per_page` (called once before the key loop): it sends the page-size preference, and its `assert response.status == 200` aborts the run on any other status. Neither the request nor that abort is modelled; the run starts after it.
- `render_html`, `fix_encoding`, `select_results`, `unselect_results` and `print_results`: they are unused or have no effect on the data.
- The first, shadowed `convert_sqlite_to_csv` in `sqlite2csv.py`: it is unreachable.
- SQLite mechanics: transactions, locking, `executemany` batching, the secondary indexes the export creates for speed, the removal of an old output file, and the optional removal of the temporary database. Commits are appends to a sequence of rows. The scraper's primary key and unique index are modelled (Scraper.Clash).
- Export.Convert starts from an empty temporary database. The source always uses the fixed file `sqlite2csv.temp.db` (sqlite2csv.py:363). It does not delete that file first (lines 366-367 are commented out), and by default it keeps the file afterwards (`keep_temp_db=True`). So a second run fails at `CREATE TABLE temp` (line 406), and the model does not promise that failure.
- Export stage 2's `parent_map` is modelled as the map its inserts build, which fails on a parent id already present (`id INTEGER PRIMARY KEY`). The export stops with that error (Export.Convert). When the map is built, the stage-4 join reads the parent rows directly, which gives the same payload (Export.ParentMapJoin).
- The collation: `ORDER BY payload_csv` is ordered by code point. Parent and single lines with equal payloads are ordered parent first, which assumes SQLite returns the `UNION ALL` rows in insertion order on a tie.
- The `csv.writer` quoting of the output rows: the model stops at the list of fields handed to it.
- Export.CopyRows: the source values arrive as SQLite text or NULL; integer and other typed cells are not modelled.
- Decimal.ParseInt: Python's `int()` also accepts surrounding whitespace and `_` separators, and `\d` also matches non-ASCII digits; the model accepts only `[+-]?[0-9]+`.
- CsvImport.ConvertRow: a row shorter than the header is converted field by field as Python's `enumerate` does, and the batch loop then fails at the insert (CsvImport.ProcessBatches); csv's own parsing of the input file is not modelled.
- CsvImport.BatchesAreOneBatch: when the loop fails, its error is not always the one a single batch of all records gives. A short record fails its batch's insert before a later batch is converted, so a conversion error in a later batch is not reached.
- The export's CSV is not an input CsvImport accepts. Its header starts with `type` (sqlite2csv.py:592), which is not a column `csv2sqlite.py` knows (KeyError at csv2sqlite.py:81), and it has no `recordtype_int` column (ValueError at line 93). Each script is modelled on its own format; no round trip between them is claimed.
- `fetch_random_entries` (`ORDER BY RANDOM()`) and `random.shuffle`: they are random. The samples are a parameter of the sampling loop, and so are the shuffles, of which only that they permute is assumed.
- AddressPairs.CollectPairs: the modelled samples are finite, so the loop also ends when they run out. The source draws a new sample every round while it has too few pairs. If every draw yields no pair, for example when no two entries share a zip prefix, it never ends. AddressPairs.CollectNoPairs states that such rounds add nothing; the endless loop itself is not modelled.
- The HTML and CSS text written around the labels: it is static. A label is modelled as the pieces written, not as their exact markup.
- Labels.PerPage: it is written as the literal 10 rather than `Width * Height`.
- `os.path.splitext`, `glob` and file I/O: the base name, extension, part list and file contents are parameters.
- The zero-padding width `len(str(ceil(size / chunk_size)))` is only an estimate. Part names are modelled for any width, and the numeric sort key does not depend on it.
- Floating-point row-size estimates and progress bars (tqdm) are cosmetic.
- `count-noncommercial-entries.py`: it is not part of this model.

## Findings

| source | as written | input that shows it | evidently intended | confidence | as-written member | corrected member |
|---|---|---|---|---|---|---|
| split-text-file.py:26-31 | a new part is started whenever the next line would overflow the chunk size, even when the open part is still empty; a first line longer than `chunk_size` therefore leaves `part1` empty, and joining writes a lone newline for it | the file `ab\n` with a chunk size of 1: parts `part1` (empty) and `part2` (`ab\n`); joining gives `\nab\n` | start a new part only when the open part already holds bytes, so that split then join gives back the file | not executed | JoinParts.JoinSplitExtraNewline | JoinParts.JoinSplitFixed |
