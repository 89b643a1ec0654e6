# A verified model of BidNet's auction server and the parts of Crow it runs on

BidNet is an auction server (`server/main.cpp`) on top of a copy of the Crow C++ web framework
(`server/Crow/include/crow`). This project models the server's bidding and sale protocol and the parts
of Crow with the most state, branching and arithmetic, and proves what they are for:

- **The auction** (`BidProtocol`): the handlers as interleaved steps over two mutexes, one database
  connection with room for one transaction, the tables, and the websocket clients.
- **Routing** (`Patterns`, `Trie`, `RouteTrie`, `HandlerArguments`): the character trie with captured
  parameters, its optimization, its backtracking search, and how a matched URL becomes the arguments of a
  handler.
- **Middleware and sessions** (`Middleware`, `SessionCache`, `Expiration`): which handlers are called on
  each path of a request, the session cache shared by concurrent requests, and file expiration.
- **The wire** (`HttpBody`, `WebSocketRead`, `WebSocketWrite`, `WebSocketConnection`, `Sha1`, `Words`,
  `Base64`): HTTP/1.1 bodies in any cut into buffers, websocket frames in both directions, the write queue
  and the end of a connection, the handshake's hash and text encoding.
- **Formats** (`JsonText`, `JsonValue`, `JsonRoundTrip`, `JsonBuffer`, `JsonParser`, `JsonReading`,
  `JsonElements`, `Mustache`, `MustacheRender`, `Multipart`, `MultipartRoundTrip`): JSON over one mutable
  buffer, template rendering by jumps, multipart messages.

`Octets`, `Bits` and `Wrappers` hold what these share. Objects whose methods update their fields are
classes with those fields; each method is tied to a function of its inputs and old state, and the
theorems are about that function. Bytes are numbers below 256, machine integers are wrapped explicitly
where the code lets them wrap, and floating-point amounts are reals (see "Left out").

`dafny verify dfyconfig.toml` checks everything.

## Model

| member | source | states |
|---|---|---|
| `BidProtocol.PriceIsMaximum` | server/main.cpp:196-221 | in every interleaving of bids, sales and new auctions, each accepted bid was above the starting price and above what is stored of every earlier bid on its item, stored amounts never fall, and the item's price is the highest of them, or the starting price before the first bid |
| `BidProtocol.WinnerIsLastBidder` | server/main.cpp:424-434 | the last bid on an item is a row that ORDER BY bid_amount DESC LIMIT 1 may return; every such row is stored at the current price; it is the only one if and only if the last bid raised the stored price |
| `BidProtocol.BidWinsExactly` | server/main.cpp:206-221 | a bid about to be committed will be the only top row if and only if it is the first on its item or at least half a cent above the price |
| `BidProtocol.RaisesExactly` | server/details.txt:16-36 | an amount that passes the comparison with the price is stored above it if and only if it is at least half a cent above it (DECIMAL(10,2)) |
| `BidProtocol.WholeCentsNeverTie` | server/main.cpp:206-221 | if all amounts bid on an item are whole cents, each exceeds every earlier one and the winner is unique |
| `BidProtocol.TieGoesToEither` | server/main.cpp:206-221 | a run with bids 100.00 and 100.004: both are accepted, and the sale may read either |
| `BidProtocol.ClientSeesTheLog` | server/main.cpp:223-234 | what a websocket client is sent while registered is a contiguous piece of the log of accepted bids, in order, complete when no bid is in flight; a later message about an item tells a price above what was stored of the earlier |
| `BidProtocol.SaleIsCurrent` | server/main.cpp:420-452 | in every run a sale is recorded at the item's price at its commit, and goes to the last bidder whenever that bid raised the price: no bid can be committed between the sale's read and its commit, since the connection holds one transaction |
| `BidProtocol.SalesAreFair` | server/main.cpp:420-452 | the same of every sale a run has recorded, against the log as it was at that sale's commit |
| `BidProtocol.HolderCanStep` | server/main.cpp:176-247 | bid_mutex and ws_mutex never deadlock: the holder of bid_mutex can always take a step |
| `BidProtocol.TxnCanStep` | server/main.cpp:420-464 | whoever has the connection's transaction open can go on without failing |
| `Tries.AddStoresRule` | server/Crow/include/crow/routing.h:996-1079 | `add` stores the rule under exactly the pattern's tokens, changes no other path, and refuses if and only if that path already has a rule |
| `Tries.AddKeepsStores` | server/Crow/include/crow/routing.h:996-1079 | adding keeps the trie and the list of registered rules in step |
| `Tries.FindIsLinearScan` | server/Crow/include/crow/routing.h:832-988 | the backtracking search returns what looking at every rule would: the smallest index of a rule whose whole pattern matches the whole URL, with parameters of such a rule |
| `Tries.OptimizeNodeKeepsFind` | server/Crow/include/crow/routing.h:742-773 | merging the chains below a node changes no search of any URL from any position |
| `Tries.OptimizeHeadKeepsFind` | server/Crow/include/crow/routing.h:742-773 | optimizing the whole trie changes no search |
| `RouteTrie.Trie.Add` | server/Crow/include/crow/routing.h:996-1079 | the cursor loop that plants nodes: fails exactly when a rule with the same tokens is registered, and otherwise registers the rule |
| `RouteTrie.Trie.Find` | server/Crow/include/crow/routing.h:832-988 | the search with one shared parameter object, optimized or not: the linear scan's answer |
| `RouteTrie.Trie.Validate` | server/Crow/include/crow/routing.h:824-829 | refuses exactly a head that is not simple; otherwise the trie is the optimized one and still holds the registered rules |
| `HandlerArguments.TagDecodesIffItFits` | server/Crow/include/crow/utility.h:312-359 | the 64-bit tag decodes to the pattern's parameter types if and only if the exact base-6 number is below 2^64 |
| `HandlerArguments.TagDefined` | server/Crow/include/crow/utility.h:202-230 | the tag of a text is defined if and only if `add` can read the text as a pattern, apart from a NUL character |
| `HandlerArguments.TagOfPattern` | server/Crow/include/crow/utility.h:195-230 | the tag computed from the pattern's text is the base-6 number of its parameter types, modulo 2^64 |
| `HandlerArguments.HandlerGetsUrlOrder` | server/Crow/include/crow/routing.h:189-243 | a handler is called with exactly the values the pattern takes from the URL, each of its own type, in URL order, if and only if the pattern's tag fits 64 bits |
| `HandlerArguments.TwentyFourFit` | server/Crow/include/crow/utility.h:202-230 | every pattern with at most 24 parameters has a tag that fits |
| `HandlerArguments.TwentyFivePathsWrap` | server/Crow/include/crow/utility.h:202-230 | the tag of 25 `<path>` parameters wraps, and decodes to other types |
| `Middleware.Indices.Pack` | server/Crow/include/crow/routing.h:68-72 | sorted, no duplicates, the same numbers |
| `Middleware.Criteria.Enabled` | server/Crow/include/crow/middleware.h:200-328 | the sliding filter over packed indices is set membership, in either direction |
| `Middleware.AcceptedIs` | server/Crow/include/crow/middleware.h:136-200 | the middleware walked over are exactly the accepted ones, each once, in order |
| `Middleware.Exchange.Call` | server/Crow/include/crow/middleware.h:136-200 | before-handlers run up to the first that completes the response; then the after-handlers of those that ran follow at once, last first |
| `Middleware.HandleRule` | server/Crow/include/crow/routing.h:1711-1745 | a rule's own before-handlers, its handler unless one of them completed the response, then the after-handlers of those that ran, last first |
| `Middleware.Serve` | server/Crow/include/crow/http_connection.h:110-235 | the handlers called for a URL without a route, a request without a host, an upgrade and a routed request, from the packed indices and the global middleware |
| `Middleware.AftersMirrorBefores` | server/Crow/include/crow/http_connection.h:110-235 | the after-handlers called are the before-handlers called, last first, if and only if there is no global middleware, or the request is neither unrouted nor an upgrade that no before-handler completed |
| `Middleware.OneSideOnly` | server/Crow/include/crow/http_connection.h:110-235 | with one global handler a URL without a route runs its after-handler alone and an upgrade its before-handler alone |
| `SessionCache.SessionMiddleware.Serve` | server/Crow/include/crow/middlewares/session.h:197-402 | every interleaving of begin, get, set, apply, remove and end of requests on the shared cache, with reference counts and write-back, does what it does to a plain map of sessions |
| `SessionCache.NoUpdateIsLost` | server/Crow/include/crow/middlewares/session.h:363-402 | a stored session keeps its entries through every run that does not write it, in particular through the end of the last request that wrote |
| `SessionCache.SharersSeeWrites` | server/Crow/include/crow/middlewares/session.h:327-363 | requests with one session id see each other's writes at once |
| `SessionCache.StoredSessionStays` | server/Crow/include/crow/middlewares/session.h:363-402 | the end of a request changes a stored session if and only if the request's own new session, with other entries, is given that session's id while nobody uses it |
| `SessionCache.StoredSessionIsReplaced` | server/Crow/include/crow/middlewares/session.h:363-402 | such a collision at concrete values: the stored entries are gone |
| `SessionCache.SessionMiddleware.OneObjectPerSession` | server/Crow/include/crow/middlewares/session.h:327-402 | requests that share a session hold the same object, whose `referrers` is their number |
| `SessionCache.SessionMiddleware.CountIsExactIffShared` | server/Crow/include/crow/middlewares/session.h:327-402 | the count of a held session is the number of requests that hold it if and only if the session came from the store; a new one counts 0 with one holder |
| `SessionCache.SessionMiddleware.SaveNew` | server/Crow/include/crow/middlewares/session.h:363-402 | ending a new session stores it under its id, with the same effect on the plain map, and leaves its count at -1 |
| `Expiration.FileStore.HandleExpired` | server/Crow/include/crow/middlewares/session.h:120-169 | at most three keys go, in expiry order and before every key that stays, fewer only when nothing expired is left; exactly their files are removed; queue and map stay one relation |
| `HttpBody.RunSplit` | server/Crow/include/crow/http_parser_merged.h:1723-1918 | reading a concatenation is reading its parts one after the other |
| `HttpBody.HttpParser.Execute` | server/Crow/include/crow/http_parser_merged.h:1723-1918 | one call over a buffer, taking body data in blocks through a mark, agrees with the machine that reads one byte at a time |
| `HttpBody.RunDigitsIff` | server/Crow/include/crow/http_parser_merged.h:1770-1830 | a chunk size is refused if and only if it is at least 2^64 - 16 |
| `HttpBody.StepKeepsReachable` | server/Crow/include/crow/http_parser_merged.h:1770-1888 | the size accumulator never wraps nor meets the sentinel 2^64 - 1; the assertions of the source hold in every reachable state |
| `HttpBody.ChunkedBodyDecodes` | server/Crow/include/crow/http_parser_merged.h:1770-1888 | any payload in any chunked encoding (any chunk sizes, extensions) comes out whole (section 4.1 of RFC 7230); bytes after it are the next request's if its handler answered before returning, otherwise the first is an error unless it is a line feed, which completes the message again |
| `HttpBody.IdentityBodyDecodes` | server/Crow/include/crow/http_parser_merged.h:1723-1768 | a Content-Length body is delivered whole; for every handler the number of completions and the bytes left to the next request: a further byte completes the message again as long as no call has completed the response |
| `HttpBody.SurplusCompletesIffOpen` | server/Crow/include/crow/http_connection.h:546-567 | surplus bytes complete the message again if and only if its handler did not complete the response before it returned, which clears the parser; all of them are left to the next request if and only if it did |
| `HttpBody.ReceiveChunked` | server/Crow/include/crow/parser.h:111-133 | a chunked body cut into any buffers calls the handler once, with the whole payload, whatever the handler does |
| `HttpBody.ReceiveIdentity` | server/Crow/include/crow/parser.h:111-133 | likewise for a body of known length; if the handler answers at once, all that follows is the next request's, however it is cut |
| `WebSocketRead.StreamDelivers` | server/Crow/include/crow/websocket.h:355-712 | for every list of messages, fragmented with pings and pongs in between, every form of length, masked or not, and every cut of the bytes into reads, the handler gets exactly the messages in order and the pings are answered in order |
| `WebSocketRead.CloseEndsStream` | server/Crow/include/crow/websocket.h:355-712 | on a stream with a Close frame the handler gets exactly the messages before it; the frame's payload is what the last read brought, and nothing after it is read |
| `WebSocketRead.TooLongCloses` | server/Crow/include/crow/websocket.h:355-596 | once a frame's length is known the connection goes on if and only if it is within the maximum, and nothing is delivered by that read |
| `WebSocketRead.HeaderDecodes` | server/Crow/include/crow/websocket.h:298-319 | for every opcode below 16 and length below 2^64 the header tells a final frame of that opcode, no mask and that length, in the shortest form (section 5.2 of RFC 6455) |
| `WebSocketRead.SentIsDelivered` | server/Crow/include/crow/websocket.h:298-319 | a message sent with `build_header` is delivered unchanged by the reader |
| `WebSocketWrite.NothingIsLost` | server/Crow/include/crow/websocket.h:718-786 | over every run of sends, closes, completions with or without error and ends of reading, what completed writes were given, what is out and what waits is, in this order, everything sent; buffers are out exactly while a write is under way |
| `WebSocketWrite.OneWriteAtATime` | server/Crow/include/crow/websocket.h:718-752 | until a write completes nothing starts another one or touches its buffers |
| `WebSocketWrite.StrandedExactly` | server/Crow/include/crow/websocket.h:718-752 | buffers stay unsent if and only if a completion found the connection closing, or failed, while they waited, and nothing was sent since |
| `WebSocketWrite.SecondStaysUnsent` | server/Crow/include/crow/websocket.h:718-752 | a run in which the second of two messages sent after a Close is never written |
| `WebSocketWrite.ClosingExactly` | server/Crow/include/crow/websocket.h:718-752 | the closing flag is set if and only if reading ended, a frame was too long, a write failed, or a write completed after a Close was sent |
| `WebSocketWrite.DestroyedExactly` | server/Crow/include/crow/websocket.h:755-765 | the object is deleted exactly when its last read and last write have ended after a close |
| `WebSocketWrite.TooLongIsKept` | server/Crow/include/crow/websocket.h:366-520 | after a frame above the maximum the object is never deleted |
| `WebSocketWrite.KeptForGood` | server/Crow/include/crow/websocket.h:366-520 | a run after which nothing is outstanding, no read can end any more, and the object is still there |
| `WebSocketWrite.SentMessagesArrive` | server/Crow/include/crow/websocket.h:718-786 | from end to end: whatever messages, pings and pongs are sent, however they are batched into writes and the bytes cut into reads, once no write is under way the peer's handler has been given exactly those messages, and exactly those pings are answered, in order |
| `WebSocketWrite.SentBeforeClose` | server/Crow/include/crow/websocket.h:718-786 | whatever is sent around a Close, a peer that has read it has been given the messages sent before it, its status and its reason, and nothing sent later |
| `WebSocketWrite.DrainsInTwo` | server/Crow/include/crow/websocket.h:718-752 | on a connection that is not closing two completions leave nothing unsent |
| `WebSocketConnection.Connection.OnRead` | server/Crow/include/crow/websocket.h:355-712 | the object's fields after a read are those of the reading machine, and a Close frame or an over-long frame has its effect on the write side |
| `WebSocketConnection.Connection.OnWritten` | server/Crow/include/crow/websocket.h:718-752 | both branches of the completion: the fields are those of the writing machine |
| `WebSocketConnection.CloseIsAnswered` | server/Crow/include/crow/websocket.h:660-697 | a Close frame is answered once, by a Close frame with its own status and reason after all that was sent before, and the connection is closing with nothing more to read |
| `WebSocketConnection.Serve` | server/Crow/include/crow/websocket.h:259-786 | the object driven through a whole run is left as the run says, so the theorems about runs hold of it |
| `WebSocketConnection.Receive` | server/Crow/include/crow/websocket.h:355-712 | an object fed with any reads that carry a peer's messages has called its handler with exactly these, and has sent one pong for each ping, in order, whenever the event loop runs the posted pongs |
| `WebSocketConnection.ReceiveClose` | server/Crow/include/crow/websocket.h:355-712 | an object fed with a stream that has a Close frame: the messages before it delivered, the frame answered after the pongs run until then, and the rest not read |
| `Sha1.PadsAsTheStandard` | server/Crow/include/crow/TinySHA1.hpp:98-124 | the code pads a message as section 5.1.1 of FIPS 180-4 does if and only if it is below 2^29 bytes, and then computes the standard's digest |
| `Sha1.HashInParts` | server/Crow/include/crow/TinySHA1.hpp:52-205 | a message hashed in any parts gives the code's digest of the whole; below 2^29 bytes, the standard's |
| `Sha1.SHA1.ProcessBlock` | server/Crow/include/crow/TinySHA1.hpp:157-205 | the in-place block function is the compression function of section 6.1.2 of FIPS 180-4 |
| `Words.OperationsAreLawful` | server/Crow/include/crow/TinySHA1.hpp:52-54 | the code's shifts, or-combined words and choice and majority formulas equal the standard's on all 32-bit words |
| `Base64.RoundTrip` | server/Crow/include/crow/utility.h:560-684 | for all bytes, both alphabets, padded or not, the decoder computes the right size and gives the bytes back |
| `Base64.EncodeThenDecode` | server/Crow/include/crow/utility.h:560-684 | the two loops over buffers, with the padding kept or stripped in between, give the bytes back |
| `JsonText.DecodeEscape` | server/Crow/include/crow/json.h:45-71 | decoding inverts `escape` on every byte string |
| `JsonText.LoadedString.S` | server/Crow/include/crow/json.h:453-542 | the lazy in-place decoding: any number of reads give the same text, and nothing outside the string, its flag byte and its closing position is written |
| `JsonRoundTrip.LoadDump` | server/Crow/include/crow/json.h:1838-2028 | loading what was dumped gives the value back if and only if its containers nest at most 5000 deep, for every indentation with a whitespace separator; otherwise loading fails |
| `JsonRoundTrip.TooDeepToLoad` | server/Crow/include/crow/json.h:1838-2028 | 5001 nested lists are dumped and cannot be loaded; 5000 can |
| `JsonRoundTrip.RoundTrip` | server/Crow/include/crow/json.h:1405-1440 | dump, load and convert back to a `wvalue`: the value, with its numbers in the type that `determine_num_type` gives them |
| `JsonParser.Parser.Parse` | server/Crow/include/crow/json.h:884-1271 | the parser over one mutable buffer succeeds exactly when the parser on text does, and its nodes mean, in the buffer as it left it, what that parser returns |
| `JsonReading.ReadKeepsMeaning` | server/Crow/include/crow/json.h:453-542 | reading one string of a document in place changes the meaning of no part of the document |
| `JsonReading.LoadAndRead` | server/Crow/include/crow/json.h:453-542 | a string of a loaded document, reached by any path and read twice, is both times the text's |
| `JsonElements.Elements.EmplaceBack` | server/Crow/include/crow/json.h:712-740 | appends one element and keeps the others in order; size and free places make up the capacity, and the array is replaced only when it is full |
| `JsonElements.Collect` | server/Crow/include/crow/json.h:712-740 | any elements appended to an empty list are its elements, in order, through every growth of the array |
| `JsonElements.GrowthFits` | server/Crow/include/crow/json.h:722-737 | the growth is never zero and fits the 16-bit count of free places, if and only if the new capacity is an int |
| `Mustache.TreeIffWellNested` | server/Crow/include/crow/mustache.h:529-676 | a tag list is accepted if and only if it is well nested with matching names, and its section tree is unique |
| `Mustache.Parse` | server/Crow/include/crow/mustache.h:529-676 | the loop that patches jump positions yields the flattened section tree, and refuses the same tag lists with the same error |
| `MustacheRender.FlatMeansTree` | server/Crow/include/crow/mustache.h:280-425 | running the flat action list with its jumps prints what structural recursion over the section tree prints, fails where that fails, and restores the context stack |
| `MustacheRender.Render` | server/Crow/include/crow/mustache.h:280-425 | parsing and rendering in place, with one output string and one context stack, is the meaning of the section tree |
| `Multipart.ParsersAgree` | server/Crow/include/crow/multipart_view.h:210-302 | for every body and boundary: the string parser gives parts if and only if the view parser does, the boundary is not empty and the body is terminated (its last delimiter is followed by two characters and a line end); they are the same parts |
| `Multipart.ReadMessage` | server/Crow/include/crow/multipart.h:178-276 | the loops that erase prefixes compute the parts, each with its key in part_map; a part without a name is an error |
| `MultipartRoundTrip.RoundTrip` | server/Crow/include/crow/multipart.h:97-128 | parts that are printed, with their parameter maps listed in any order, are read back by either parser as the same parts in order, each under its name, whichever of several equal headers the map picks |
| `MultipartRoundTrip.ReadPartsIs` | server/Crow/include/crow/multipart.h:178-205 | reading gives all parts if and only if each has a Content-Disposition name |
| `MultipartRoundTrip.PartsAreFound` | server/Crow/include/crow/multipart.h:87-94 | looking up the name of a part finds a part of that name, and that part when no other has an equal name |

## Findings

What fails, with its condition proved exact:

- `BidProtocol.BidWinsExactly`, `BidProtocol.TieGoesToEither`: a bid less than half a cent above the price passes
  the guard and is stored at the price. It is accepted, but the sale may go to the earlier bidder, and the
  amount broadcast is the unrounded one. This cannot happen with whole-cent amounts.
- `HandlerArguments.TagDecodesIffItFits`, `HandlerArguments.TwentyFivePathsWrap`: from 25 parameters on the tag may
  wrap beyond 64 bits; it then decodes to other types, and a handler does not get the URL's values.
- `Middleware.AftersMirrorBefores`, `Middleware.OneSideOnly`: a URL without a route calls every global after-handler
  though no before-handler ran; an upgrade calls the global before-handlers only. `main.cpp` has a global
  `CORSHandler` and a websocket route, so both occur.
- `WebSocketWrite.StrandedExactly`, `WebSocketWrite.SecondStaysUnsent`: what is sent while the last write of a
  closing connection is under way stays in the queue, unless something is sent after it.
- `WebSocketWrite.TooLongIsKept`, `WebSocketWrite.KeptForGood`: a frame above the payload limit leaves `is_reading`
  set, so the connection object is never deleted.
- `HttpBody.SurplusCompletesIffOpen`, `HttpBody.IdentityBodyDecodes`: when a handler returns without having completed
  the response, each surplus byte in the buffer that ends a Content-Length body completes the message once more, until
  a call completes the response. A handler that completes it before it returns clears the parser, and the surplus is
  the next request.
- `HttpBody.RunDigitsIff`: the 16 largest 64-bit chunk sizes are refused although they fit.
- `Sha1.PadsAsTheStandard`: from 2^29 bytes on the upper half of the length is lost, so what is hashed is not the
  standard's padded message.
- `JsonRoundTrip.LoadDump`, `JsonRoundTrip.TooDeepToLoad`: a value nested more than 5000 deep is dumped but cannot be
  loaded: each level costs the parser two of its 10000 depths.
- `Multipart.ParsersAgree`: a body that is not terminated, or comes with an empty boundary, is refused by the string
  parser; the view parser may give its parts.
- `MultipartRoundTrip.ReadPartsIs`: both parsers use the end of a map when a part has no name.
- `Base64.OutputSize`: for the text "=" the decoder's size is negative.
- `SessionCache.StoredSessionStays`, `SessionCache.StoredSessionIsReplaced`: the id of a new session is not compared
  with the stored ids (`next_id`, which does so, is never called), so a new session replaces a stored one with the
  same id that nobody is using.
- `SessionCache.SessionMiddleware.CountIsExactIffShared`, `SessionCache.SessionMiddleware.SaveNew`: a new session is
  not counted (`referrers` is 0 while it is held and ends at -1), which is harmless because only one request holds it.

## Left out

- Floating point: bid amounts, prices in requests and broadcast amounts are reals; `std::to_string` and the text
  pqxx makes of a double are not modelled. JSON doubles are numbers' texts.
- The program's other handlers (users, listings, queries) and their transactions; a failed `BEGIN`, query or
  commit is a step that answers with an error and rolls back. Exceptions while broadcasting are left out.
- Real thread scheduling: `main.cpp` starts one worker thread, so its runs are the ones here in which a handler
  ends before the next begins; the theorems hold for all interleavings.
- Blueprint indices reported by the trie search, and catch-all rules.
- `strtod` is an arbitrary function; the integer conversions are written out.
- The request line and header section of HTTP, trailer fields, and `Connection` and `Upgrade` handling: the bytes that
  belong to the next request are collected, not read.
- Websocket: the handshake's bytes, the byte-order expression in `build_header` for big-endian hosts, splitting a
  Close payload into status and reason beyond its two bytes, and what close handlers do. `SentMessagesArrive`
  begins after the handshake.
- Mustache: finding tags and standalone lines in the text, partials, lambdas, set-delimiter tags, dotted names and
  indentation; a template is its list of scanned tags.
- JSON: conversion of numbers to doubles, `rvalue` copies other than of elements, and keys looked up by sorted
  search.
- Sessions: the file store's JSON, exceptions from a store, and locking inside the middleware (each call is one
  step). What a moved-from map holds is arbitrary.
- Multipart: `get_boundary`, the order in which an unordered map is iterated when printing (a printed part lists its
  headers and parameters in some order), and messages whose texts contain their separators. Views are modelled as
  values, not as pointers into the request.
- `MultipartRoundTrip.RoundTrip`: requires the boundary to have no line feed and the texts not to contain the
  delimiter or a separator, since printing does not escape them.
- Logging, TLS, compression, timers, static files, `next_id` and random session ids.
