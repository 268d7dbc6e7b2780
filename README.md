# Wt HTTP client and grid-layout bookkeeping, in Dafny

This project models two parts of the Wt C++ web toolkit and proves properties of the model.

**`Http::Client`** (`src/Wt/Http/Client.C`) is an asynchronous HTTP/1.0 client. The model covers:

- URL splitting (`parseUrl`);
- serialisation of the request (the first half of `Impl::request`);
- the status-line check and the header-block parse of the response;
- the response-size cap (`addResponseSize`);
- the chain of completion handlers that drives one request: resolve, connect, handshake, write, status line, headers, body loop, the watchdog timer and `stop`;
- the facade: `Client`'s defaults, setters, `abort`, and the protocol dispatch of `Client::request`.

The handlers are written twice, on purpose:

- The pure state machine in `pipeline.dfy` is one function per handler, mapping the state before the callback to the state after it. The invariants and lemmas are proved about these functions.
- The class `Connection.Impl` in `connection.dfy` has the fields the C++ `Impl` updates and one method per handler. Each method's postcondition says that its new state is exactly the matching step of the state machine.

Every call of `complete()` appends the current `err_` to the list `reported`. The number of completions is the length of that list. This makes visible that a malformed status line completes once and then, when the header read ends, possibly a second time.

**`StdGridLayoutImpl2`** (`src/Wt/StdGridLayoutImpl2.C`) lays out a grid of cells. The model covers only its bookkeeping over the rows × columns item array; the DOM and JavaScript output is left out. The covered parts are:

- `itemResized` and the adjust pass of `updateDom`;
- `hasItem`, `nextRowWithItem` and `nextColumnWithItem`;
- the `minimum*` functions, with the unsigned `(count-1)` spacing term;
- the alignment code sent to the browser;
- the overSpanned marking;
- the padding split.

The class `GridLayout.Layout` is written over an `array2<Cell>` with in-place loops. The pure arithmetic lives in `grid.dfy`.

Files:

- `wrappers.dfy` (Option);
- `text.dfy` (search, trimming, decimal text, `lexical_cast<int>`);
- `url.dfy`;
- `request.dfy`;
- `response.dfy`;
- `pipeline.dfy`;
- `connection.dfy`;
- `client.dfy`;
- `grid.dfy`;
- `gridlayout.dfy`.

Real I/O is replaced by events carrying the outcome. An event gives the error code, the byte count asio reports and the bytes that arrived in the stream buffer. The presence of an I/O service in `Client::request` is a boolean parameter.

`ParseUrl` is characterised for every input by `ParseUrlMeaning` (with a "://") and `RejectsWithoutSeparator` (without one). Its round trip with a formatted URL is `ParseFormatRoundTrip`.

## Model

| member | source | states |
|---|---|---|
| Text.FindChar | src/Wt/Http/Client.C:660-669 | the index of the first occurrence of a character, or None exactly when the character does not occur |
| Text.Find | src/Wt/Http/Client.C:652 | the index of the first occurrence of "://", or None exactly when there is no occurrence |
| Text.TrimIsCore | src/Wt/Http/Client.C:300-301 | `trim_copy` gives a slice of its input with only whitespace cut at both ends, and the slice neither starts nor ends with whitespace |
| Text.TrimIdempotent | src/Wt/Http/Client.C:300-301 | trimming a trimmed text changes nothing |
| Text.TrimPadded | src/Wt/Http/Client.C:300-301 | whitespace put around a text does not change its trimmed value, e.g. the space after ':' and the '\r' before '\n' of a header line |
| Text.DecimalString | src/Wt/Http/Client.C:82 | the decimal text of a length is non-empty, all digits, and has no leading zero |
| Text.DecimalRoundTrip | src/Wt/Http/Client.C:82 | reading the decimal text of n gives back n |
| Text.LexicalCastInt | src/Wt/Http/Client.C:671-676 | `lexical_cast<int>` succeeds exactly on an optional sign followed by at least one digit whose value fits a 32-bit int, and its result is within int range and is the signed decimal value of the text |
| Url.SplitPath | src/Wt/Http/Client.C:659-667 | the text after "://" is the host part, which has no '/', followed by the path, which is empty or starts with '/' |
| Url.SplitPort | src/Wt/Http/Client.C:669-685 | the host is the host part up to its first ':'; with no ':' the port is the protocol's default; otherwise the text after the ':' must read as an int, which then is the port, and the split fails exactly when it does not |
| Url.ParseUrl | src/Wt/Http/Client.C:650-688 | no "://" means failure; a result's protocol holds no "://", its host holds neither '/' nor ':', its path is empty or starts with '/', and its port is an int |
| Url.ParseUrlMeaning | src/Wt/Http/Client.C:650-688 | for every URL with a "://": the protocol is the text before the first one, the path is the suffix from the first '/' after it, and the host and port are cut as SplitPort cuts them; ParseUrl fails exactly when the text after the host part's first ':' is not an int |
| Url.ParseComposedUrl | src/Wt/Http/Client.C:650-668 | protocol + "://" + host part + path is split back at that "://" and at the path's '/' |
| Url.SeparatorAfterProtocol | src/Wt/Http/Client.C:652 | the first "://" is the one after a protocol that holds none |
| Url.ParseFormatRoundTrip | src/Wt/Http/Client.C:650-688 | parsing the text of a URL with an explicit non-negative port gives back that URL |
| Url.LexicalOfDecimal | src/Wt/Http/Client.C:672 | `lexical_cast<int>` reads back the decimal text of any port up to INT_MAX |
| Url.DefaultPortOfUrl | src/Wt/Http/Client.C:678-685 | without an explicit port, the port is 443 for "https" and 80 for any other protocol, "http" included |
| Url.RejectsWithoutSeparator | src/Wt/Http/Client.C:652-656 | a URL without "://" is refused |
| Request.SendsBodyOfMethod | src/Wt/Http/Client.C:81 | of the four methods, POST, PUT and DELETE send the body and GET does not |
| Request.WriteHeaders | src/Wt/Http/Client.C:73-79 | the loop writes the caller's header lines in order, and it reports a "Content-Length" header exactly when one is named that exactly |
| Request.SerializeRequest | src/Wt/Http/Client.C:69-88 | the request bytes are: request line, Host, the caller's headers, the synthesised Content-Length when due, "Connection: close", blank line, and the body for POST/PUT/DELETE |
| Request.ContentLengthHeaders | src/Wt/Http/Client.C:73-83 | the request carries exactly one Content-Length when the body is sent and the caller gave none, and then its value is the body length in decimal; otherwise it carries only the caller's Content-Length headers |
| Request.CallerHeadersInOrder | src/Wt/Http/Client.C:71-85 | Host comes first, then the caller's headers unchanged and in order, and "Connection: close" comes last |
| Request.BodyPlacement | src/Wt/Http/Client.C:85-88 | the body follows the blank line verbatim for POST/PUT/DELETE and is absent otherwise |
| Response.ExtractWord | src/Wt/Http/Client.C:255-256 | `>> string` gives a run of non-space characters, stopping at a space or at the end; the word followed by what is left is the input after its leading whitespace |
| Response.ExtractUnsigned | src/Wt/Http/Client.C:257-258 | `>> unsigned` skips leading whitespace and takes the longest run of digits after it; it succeeds exactly when that run is non-empty and its decimal value is at most UINT_MAX, and then gives that value and leaves what follows the digits; without digits it stores 0 and leaves the text after the whitespace, and on overflow it stores UINT_MAX and leaves what follows the digits |
| Response.ExtractWordOf | src/Wt/Http/Client.C:255-256 | `>> string` on a word followed by whitespace gives that word and leaves the whitespace |
| Response.ExtractUnsignedOf | src/Wt/Http/Client.C:257-258 | `>> unsigned` reads back a space and the decimal text of a code up to UINT_MAX, followed by a non-digit |
| Response.SkipLineOf | src/Wt/Http/Client.C:259-260 | getline consumes exactly one line and its '\n' |
| Response.ReadStatusLine | src/Wt/Http/Client.C:254-266 | an accepted status line starts with "HTTP/" and has a code up to UINT_MAX; a first word not starting with "HTTP/" is rejected |
| Response.ReadStatusLineMeaning | src/Wt/Http/Client.C:254-266 | a status line is accepted exactly when its first word starts with "HTTP/", the code after it parses as an unsigned number and something is left for getline; the stored code is the parsed value, and after acceptance the buffer holds what follows the line |
| Response.StatusLineAccepted | src/Wt/Http/Client.C:254-266 | "HTTP/ver code reason\r\n" is accepted with that version and code, and what follows the line stays in the buffer |
| Response.WordStatusLine | src/Wt/Http/Client.C:254-266 | any first word starting with "HTTP/" followed by a code and a reason is accepted |
| Response.StatusLineRejectsWord | src/Wt/Http/Client.C:261-266 | a first word not starting with "HTTP/" gives protocol_error |
| Response.StatusLineRejectsCode | src/Wt/Http/Client.C:257-266 | when the first non-space character after the version is not a digit, or there is none, the status line gives protocol_error |
| Response.StatusLineRejectsOverflow | src/Wt/Http/Client.C:257-266 | a status code whose digits exceed UINT_MAX gives protocol_error |
| Response.NextLine | src/Wt/Http/Client.C:297 | getline gives the text before the first '\n' and what follows, or the whole rest when there is no '\n' |
| Response.HeaderOf | src/Wt/Http/Client.C:298-303 | a line gives one header when it has a ':' and none when it has not |
| Response.HeaderOfAt | src/Wt/Http/Client.C:298-302 | the header of a line is the trimmed text before its first ':' and the trimmed text after it |
| Response.HeaderBlockStep | src/Wt/Http/Client.C:297-304 | the line "\r" ends the block and leaves the rest of the buffer; any other line adds its header, if any, in front of the headers of the following lines |
| Response.ReadHeaderLines | src/Wt/Http/Client.C:295-304 | the getline loop returns the headers and the leftover bytes of the header-block parse |
| Response.HeaderOfLine | src/Wt/Http/Client.C:298-302 | "name: value\r" gives the header (trim(name), trim(value)) |
| Response.HeaderLineParses | src/Wt/Http/Client.C:297-302 | a header line as a server writes it is read back as one line, giving its trimmed header |
| Response.HeaderBlockRoundTrip | src/Wt/Http/Client.C:295-311 | header lines, then a blank line, then the body, parse to the trimmed headers in their order, and the body is left verbatim |
| Pipeline.InitialInv | src/Wt/Http/Client.C:45-54 | a new Impl meets the pipeline invariant: no timer outside a pending operation, at most two completions with a first one only from a malformed status line, attempted + untried = the resolved endpoints, and the size within the cap while not finished |
| Pipeline.RequestInv | src/Wt/Http/Client.C:66-97 | `request` keeps the invariant |
| Pipeline.ResolveInv | src/Wt/Http/Client.C:149-170 | handleResolve keeps the invariant |
| Pipeline.ConnectInv | src/Wt/Http/Client.C:172-192 | handleConnect keeps the invariant |
| Pipeline.StatusLineInv | src/Wt/Http/Client.C:244-283 | handleReadStatusLine keeps the invariant |
| Pipeline.ApplyStatusLineInv | src/Wt/Http/Client.C:253-278 | storing the parsed status line, whether accepted or not, keeps the invariant |
| Pipeline.HeadersInv | src/Wt/Http/Client.C:285-323 | handleReadHeaders keeps the invariant |
| Pipeline.ContentInv | src/Wt/Http/Client.C:325-355 | handleReadContent keeps the invariant |
| Pipeline.StepInv | src/Wt/Http/Client.C:138-355 | any callback the I/O service can deliver keeps the invariant |
| Pipeline.RunInv | src/Wt/Http/Client.C:138-355 | every sequence of deliverable callbacks keeps the invariant, so no request ever completes more than twice |
| Pipeline.ReadWithinCap | src/Wt/Http/Client.C:231-242 | bytes within the cap are counted without reporting anything and without touching the socket or the configuration |
| Pipeline.SizeCap | src/Wt/Http/Client.C:231-242 | addResponseSize adds s to the count; it trips exactly when a cap is set and the count exceeds it, and then it sets message_size and completes; otherwise it changes only the count |
| Pipeline.SizeCapEndsReads | src/Wt/Http/Client.C:244-252 | when the cap trips in any of the three read handlers, no further read is issued, message_size is reported once, and no header or body text is stored |
| Pipeline.StatusLineMonotone | src/Wt/Http/Client.C:244-283 | the status-line handler never decreases the byte count and completes at most once |
| Pipeline.HeadersMonotone | src/Wt/Http/Client.C:285-323 | the header handler never decreases the byte count and completes at most once |
| Pipeline.ContentMonotone | src/Wt/Http/Client.C:325-355 | the body handler never decreases the byte count and completes at most once |
| Pipeline.StepMonotone | src/Wt/Http/Client.C:138-355 | no callback decreases the byte count, and each callback completes at most once, reporting the error it leaves |
| Pipeline.RunMonotone | src/Wt/Http/Client.C:231-242 | over any run, the byte count never decreases, earlier reports are never withdrawn, and there is at most one completion per callback |
| Pipeline.ConnectFallback | src/Wt/Http/Client.C:183-191 | a failed connect with endpoints left connects to the next one without resolving again and without reporting; on the last endpoint it reports that connect error and stops |
| Pipeline.EarlyErrorsTerminal | src/Wt/Http/Client.C:149-229 | resolve, handshake and write errors are reported once and end the request, and no endpoint is tried again |
| Pipeline.PlainSkipsHandshake | src/Wt/Http/Client.C:408-411 | on a plain connection the handshake handler runs at once, so a successful connect goes straight to writing; a TLS connection waits for the handshake |
| Pipeline.MalformedStatusCompletesTwice | src/Wt/Http/Client.C:261-283 | a malformed status line reports protocol_error, yet the status is stored and the header read is issued; a failing header read then reports again, which makes two completions |
| Pipeline.TimeoutReported | src/Wt/Http/Client.C:138-147 | a watchdog wait that completes with any outcome but operation_aborted sets timed_out and shuts an open socket down; the failing read handler then overwrites it with its own error, and timed_out is what the body loop reports when it then ends at end of data |
| Pipeline.CancelledWaitIgnored | src/Wt/Http/Client.C:140 | a cancelled wait (operation_aborted) changes nothing |
| Pipeline.ContentChunkAppended | src/Wt/Http/Client.C:330-346 | a chunk within the cap is appended to the body, the buffer is emptied, and the read is issued again without reporting |
| Pipeline.ContentReadError | src/Wt/Http/Client.C:347-354 | the body loop ends on any error: eof, shut_down and 335544539 report err_ unchanged, and any other error is reported itself |
| Pipeline.StopIdempotent | src/Wt/Http/Client.C:99-106 | stop closes the socket, reports nothing, and a second stop changes nothing |
| Connection.Impl.constructor | src/Wt/Http/Client.C:45-54 | a new Impl has timeout 0, no size limit and nothing sent or received |
| Connection.Impl.SetTimeout | src/Wt/Http/Client.C:58-60 | only the timeout changes |
| Connection.Impl.SetMaximumResponseSize | src/Wt/Http/Client.C:62-64 | only the size cap changes |
| Connection.Impl.StartTimer | src/Wt/Http/Client.C:126-131 | the watchdog is armed, and nothing else changes |
| Connection.Impl.CancelTimer | src/Wt/Http/Client.C:133-136 | the watchdog is disarmed, and nothing else changes |
| Connection.Impl.Complete | src/Wt/Http/Client.C:357-364 | the current error is reported once more, and nothing else changes |
| Connection.Impl.Fail | src/Wt/Http/Client.C:166-169 | the error is stored and reported, and no operation stays outstanding |
| Connection.Impl.Request | src/Wt/Http/Client.C:66-97 | the serialised request is appended to the request buffer, the resolver is queried for server and port, and the watchdog is armed |
| Connection.Impl.ConnectFirst | src/Wt/Http/Client.C:158-165 | a connect is issued to the first endpoint, the rest are kept for fallback, and the watchdog is armed |
| Connection.Impl.HandleResolve | src/Wt/Http/Client.C:149-170 | the new state is the handleResolve step of the state machine |
| Connection.Impl.HandleConnect | src/Wt/Http/Client.C:172-192 | the new state is the handleConnect step, including the fallback to the next endpoint |
| Connection.Impl.HandleHandshake | src/Wt/Http/Client.C:194-210 | the new state is the handleHandshake step |
| Connection.Impl.HandleWriteRequest | src/Wt/Http/Client.C:212-229 | the new state is the handleWriteRequest step |
| Connection.Impl.AddResponseSize | src/Wt/Http/Client.C:231-242 | the new state is the addResponseSize step, and it returns true exactly when the cap is not exceeded |
| Connection.Impl.Arrive | src/Wt/Http/Client.C:244-247 | the bytes asio delivered are appended to the response buffer; nothing else changes |
| Connection.Impl.HandleReadStatusLine | src/Wt/Http/Client.C:244-283 | the new state is the handleReadStatusLine step, including both the double completion and the size cap |
| Connection.Impl.TakeStatusLine | src/Wt/Http/Client.C:253-278 | the status line is parsed off the buffer, and its outcome is stored |
| Connection.Impl.ApplyStatusLine | src/Wt/Http/Client.C:261-278 | a rejection reports protocol_error; in every case the status is stored and the header read is issued |
| Connection.Impl.HandleReadHeaders | src/Wt/Http/Client.C:285-323 | the new state is the handleReadHeaders step |
| Connection.Impl.TakeHeaders | src/Wt/Http/Client.C:294-318 | the parsed headers are appended in order, the leftover bytes go to the body, and the body read is issued |
| Connection.Impl.HandleReadContent | src/Wt/Http/Client.C:325-355 | the new state is the handleReadContent step |
| Connection.Impl.Timeout | src/Wt/Http/Client.C:138-147 | the new state is the watchdog step |
| Connection.Impl.Stop | src/Wt/Http/Client.C:99-106 | the new state is the stop step |
| HttpClient.ImplKind | src/Wt/Http/Client.C:597-626 | "http" selects the plain Impl and "https" the TLS one; no other protocol gets an Impl |
| HttpClient.Dispatch | src/Wt/Http/Client.C:565-626 | request goes ahead exactly when there is an I/O service, the URL parses, and its protocol is http or https |
| HttpClient.DispatchComposed | src/Wt/Http/Client.C:565-626 | an http or https URL with an explicit port is accepted, with its own parts and the matching kind of Impl |
| HttpClient.UnsupportedProtocolRefused | src/Wt/Http/Client.C:623-626 | any other protocol makes request return false |
| HttpClient.Client.constructor | src/Wt/Http/Client.C:496-508 | the defaults are a 10-second timeout and a 64 KiB response cap, with no Impl |
| HttpClient.Client.SetTimeout | src/Wt/Http/Client.C:523-526 | only the timeout changes |
| HttpClient.Client.SetMaximumResponseSize | src/Wt/Http/Client.C:528-531 | only the size cap changes |
| HttpClient.Client.Abort | src/Wt/Http/Client.C:515-521 | the current Impl, if any, is stopped: its socket is closed and nothing is reported; then the client drops it |
| HttpClient.Client.Request | src/Wt/Http/Client.C:565-643 | returns true exactly when Dispatch accepts; on success a fresh Impl of the chosen kind gets the client's timeout and cap, holds the serialised request, and is resolving the URL's host and port; on failure the client is unchanged |
| HttpClient.Client.Get | src/Wt/Http/Client.C:538-548 | Client::request with GET, the given headers and no body: the client's timeout and cap stay, and on dispatch the new Impl is in the request state for that URL |
| HttpClient.Client.Post | src/Wt/Http/Client.C:550-553 | Client::request with POST and the message: the client's timeout and cap stay, and on dispatch the new Impl is in the request state for that URL |
| HttpClient.Client.Put | src/Wt/Http/Client.C:555-558 | Client::request with PUT and the message: the client's timeout and cap stay, and on dispatch the new Impl is in the request state for that URL |
| HttpClient.Client.DeleteRequest | src/Wt/Http/Client.C:560-563 | Client::request with DELETE and the message: the client's timeout and cap stay, and on dispatch the new Impl is in the request state for that URL |
| Grid.AlignCode | src/Wt/StdGridLayoutImpl2.C:407-425 | no code is sent exactly when the alignment is empty; the low nibble is one of 0, 1, 2, 4, the next is one of 0, 0x10, 0x20, 0x40, and no higher bit is set |
| Grid.AlignCodeParts | src/Wt/StdGridLayoutImpl2.C:408-424 | the low nibble is chosen by the horizontal mask alone and the next by the vertical mask alone, each bit exactly for its flag |
| Grid.CDiv | src/Wt/StdGridLayoutImpl2.C:593 | C++ integer division, which truncates toward zero: the remainder is in [0, b) for a non-negative dividend and in (-b, 0] for a negative one |
| Grid.ToInt32 | src/Wt/StdGridLayoutImpl2.C:260 | the conversion of a 32-bit unsigned value to int keeps it modulo 2^32 within int range |
| Grid.MinimumExtent | src/Wt/StdGridLayoutImpl2.C:260 | `total + (count-1) * spacing` with unsigned count: an int, congruent to the exact value modulo 2^32 |
| Grid.MinimumExtentExact | src/Wt/StdGridLayoutImpl2.C:251-261 | when the exact total fits, the unsigned (count-1) term gives total + (count-1) × spacing |
| Grid.EmptyExtent | src/Wt/StdGridLayoutImpl2.C:251-261 | with no columns, the unsigned (colCount-1) term wraps and the minimum width is −spacing, not 0 |
| Grid.Padding | src/Wt/StdGridLayoutImpl2.C:590-613 | an edge cell takes the layout's margin on that side, and right-to-left layout puts the left and right values on the other side |
| Grid.SpacingSplit | src/Wt/StdGridLayoutImpl2.C:590-608 | for non-negative spacing s, (s+1)/2 and s/2 add up to s and differ by at most one |
| Grid.SpacingSplitNegative | src/Wt/StdGridLayoutImpl2.C:590-608 | for negative spacing s, C++'s truncating (s+1)/2 and s/2 add up to s+1 |
| Grid.VerticalNeighboursShareSpacing | src/Wt/StdGridLayoutImpl2.C:590-598 | for non-negative vertical spacing, at an internal row boundary the bottom padding above and the top padding below add up to the vertical spacing |
| Grid.HorizontalNeighboursShareSpacing | src/Wt/StdGridLayoutImpl2.C:600-613 | for non-negative horizontal spacing, at an internal column boundary the facing paddings add up to the horizontal spacing, in either direction |
| Grid.PaddingMirror | src/Wt/StdGridLayoutImpl2.C:612-613 | right-to-left padding is left-to-right padding with left and right swapped |
| GridLayout.Layout.ItemResized | src/Wt/StdGridLayoutImpl2.C:63-78 | returns true exactly when some cell holds the item unflagged; only the first such cell in row-major order is flagged, needAdjust is set, and nothing else changes |
| GridLayout.Layout.Adjust | src/Wt/StdGridLayoutImpl2.C:163-187 | with needAdjust set, every update flag and needAdjust are cleared, and the previously flagged cells are listed in row-major order; otherwise nothing changes |
| GridLayout.Layout.AdjustRow | src/Wt/StdGridLayoutImpl2.C:175-182 | one row's flags are cleared, its flagged cells are listed left to right, and other rows are untouched |
| GridLayout.Layout.RowScanSound | src/Wt/StdGridLayoutImpl2.C:84-88 | a span-stepped scan of a row finds only items that are visible |
| GridLayout.Layout.NextRowWithItem | src/Wt/StdGridLayoutImpl2.C:80-92 | the result lies between the row below the cell's span and rowCount; a result below rowCount has a visible item at a span-stepped column, and no row skipped on the way has one |
| GridLayout.Layout.NextColumnFrom | src/Wt/StdGridLayoutImpl2.C:94-106 | stepping along the row by each cell's column span from col, the first column reached that has a visible item in some row, or colCount: it is strictly after col, it is reached by span steps, and no span-stepped column skipped on the way has a visible item |
| GridLayout.Layout.NextColumnWithItem | src/Wt/StdGridLayoutImpl2.C:94-106 | the loop computes NextColumnFrom |
| GridLayout.Layout.ColumnMinWidth | src/Wt/StdGridLayoutImpl2.C:237-249 | the largest minimum width of the items in the column, or 0 when there are none: at least every one of them, and equal to one of them unless 0 |
| GridLayout.Layout.RowMinHeight | src/Wt/StdGridLayoutImpl2.C:223-235 | the same maximum over the items of a row |
| GridLayout.Layout.MinimumWidthForColumn | src/Wt/StdGridLayoutImpl2.C:237-249 | the loop computes the column's largest item minimum width |
| GridLayout.Layout.MinimumHeightForRow | src/Wt/StdGridLayoutImpl2.C:223-235 | the loop computes the row's largest item minimum height |
| GridLayout.Layout.ColumnWidthsTotal | src/Wt/StdGridLayoutImpl2.C:254-257 | the running total of column minima is non-negative and at least each column's minimum |
| GridLayout.Layout.RowHeightsTotal | src/Wt/StdGridLayoutImpl2.C:266-269 | the running total of row minima is non-negative and at least each row's minimum |
| GridLayout.Layout.MinimumWidth | src/Wt/StdGridLayoutImpl2.C:251-261 | the sum of the column minima plus the unsigned (colCount-1) × horizontal spacing, as a 32-bit int |
| GridLayout.Layout.MinimumHeight | src/Wt/StdGridLayoutImpl2.C:263-273 | the sum of the row minima plus the unsigned (rowCount-1) × vertical spacing, as a 32-bit int |
| GridLayout.Layout.SpanMarked | src/Wt/StdGridLayoutImpl2.C:564-568 | every cell of an un-overspanned item's span other than its origin is overspanned |
| GridLayout.Layout.UncoveredNotMarked | src/Wt/StdGridLayoutImpl2.C:564-568 | a cell that no origin's span covers is never overspanned |
| GridLayout.Layout.MarkSpan | src/Wt/StdGridLayoutImpl2.C:565-568 | exactly the cells (row+i, col+j) with i+j > 0 within the span are marked, in addition to what was marked |
| GridLayout.Layout.MarkRow | src/Wt/StdGridLayoutImpl2.C:561-568 | after one row's visit, the marks are those of all origins visited so far |
| GridLayout.Layout.MarkOverSpanned | src/Wt/StdGridLayoutImpl2.C:546-568 | the marking pass leaves each cell marked exactly when it is overspanned: inside the span of an earlier cell that itself was not overspanned, and never at that cell's own origin |

`GridLayout.Layout.HasItem` is the predicate of hasItem (`src/Wt/StdGridLayoutImpl2.C:108-117`): the cell holds an item that wraps no widget or a widget that is not hidden. `RowHasItem`, `ColumnHasItem` and the postconditions of `NextRowWithItem` and `NextColumnFrom` are written with it.

## Left out

- Real I/O: asio sockets, DNS resolution, `async_write`, `async_read_until` and `async_read` are left out. Each completion is an event carrying the error code, the byte count asio reports and the bytes that reached the buffer. `read_until` may read past its delimiter, so these are separate.
- `startTimer`/`cancelTimer`: the deadline timer is a flag `timerArmed`. Expiry is a `TimerFired` event that may arrive at any time; a cancelled wait arrives with operation_aborted.
- TLS: the OpenSSL context, `load_verify_file`/`add_verify_path`, certificate verification and `setSslVerifyFile` are foreign library calls. The handshake is an event on a TLS Impl.
- The https branch of `Client::request` is modelled as built with SSL support.
- Lifetime and dispatch: `shared_from_this`, `boost::bind`, the session post in `complete`, the `done` signal wiring, `Client::emitDone` and the destructor calling `abort` are left out. `reported` records what each completion would emit.
- The lookup of the I/O service (application, client, server) in `Client::request` is the boolean `haveIoService`. Logging is left out.
- The `Impl`'s fields are grouped into records (configuration, transport, received data) inside the class. `response_` is the status, headers and body in the received-data record.
- Strings are sequences of Dafny characters, one character per byte of the C++ `std::string`. So the synthesised Content-Length `|body|` is the byte length `message.body().length()` gives. No character encoding is modelled.
- ExtractUnsigned: a leading '+' or '-' before the status code, which `>> unsigned` accepts, is not modelled; the model requires digits.
- ReadStatusLine: a status line rejected before any code was read leaves the status 0. The C++ leaves `status_code` uninitialised in some such cases.
- Pipeline.AddResponseSize: `size_t` wrap-around of `responseSize_` is not modelled; the count is an unbounded natural number.
- GridLayout.Layout.MinimumWidth: overflow of the `int` running total of the column minima is not modelled. Only the final `(colCount-1)` unsigned term and the conversion to `int` are written out.
- GridLayout.Layout.MinimumHeight: the same holds for the row minima.
- Grid.SpacingSplit: the source takes any `int` spacing. For negative spacing the halves do not add up to it; Grid.SpacingSplitNegative states what they add up to instead. Grid.VerticalNeighboursShareSpacing and Grid.HorizontalNeighboursShareSpacing likewise cover non-negative spacing only.
- GridLayout.Layout.Valid: the model assumes every cell's row and column span is at least 1 and stays inside the grid. `WGridLayout::addItem` guarantees this and is not part of this model. With a column span of 0 the span-stepping scan of nextRowWithItem would never end.
- The AlignmentFlag values come from `Wt/WGlobal`, which is not part of this model. They are written as constants in `grid.dfy`: Left 0x1, Right 0x2, Center 0x4, Justify 0x8, Top 0x80, Middle 0x200, Bottom 0x400.
- The overSpanned vector indexed `row * colCount + col` is an `array2<bool>` indexed `[row, col]`. For spans inside the grid the two index the same cells.
- Grid.Padding takes the previous and next rows and columns with a visible item as inputs. The scan in `createDomElement` that keeps `prevRowWithItem`/`prevColumnWithItem` builds DOM elements and is left out.
- All DOM and JavaScript output of the grid layout is left out, together with the floating-point stretch percentages, the pixel conversions and the browser-specific branches.
- Nested layouts visited at the end of `updateDom` are left out.
