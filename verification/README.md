# A verified model of the page server

The program is a small CMS. A JSON-RPC server changes the dynamic properties of database objects. Each
object renders its properties to one of two page files and publishes it by flipping an atomic pair of flags.
An HTML server sends the published page. This project models that path from the received bytes to the sent
page, the ownership of client sockets around it, and two algorithms of the documentation search script.

| files | what they model |
|---|---|
| `PingPong`, `PingPongInvariants`, `PingPongTheorems` | page publication as a transition system, one label per atomic action, with any number of readers and of callers of `refreshHtml` |
| `Properties`, `Requests`, `Database` | the property list, the requests on it, and the object whose methods run the protocol |
| `PageReader` | what a browser finds in a page |
| `PageRequest`, `HtmlServer`, `HttpHead`, `Reading`, `Decimal`, `Bytes` | a GET from the state load to what the client reads |
| `RecvBuffer`, `JsonReceive`, `JsonRpc`, `JsonText` | the receive buffer, body framing, dispatch, the framing of responses, and what the client reads in them |
| `Sockets`, `Connections` | slot arrays that own descriptors, and who owns an accepted connection |
| `SearchId`, `SearchTree` | the search script's escape code and its stackless walk |

## Choices and assumptions

- One `char` is one byte, except in `SearchId`, where a unit is a UTF-16 code unit.
- `refresh_semaphore_` saturates at one. Releasing it at its maximum has no defined meaning in C++
  (database_obj.h:201, 230).
- The page semaphores are `counting_semaphore<128>` (database_obj.h:203), for which a release beyond 128 has
  no defined meaning. The model's counts have no bound. By `PermitAccounting` the count of a page never exceeds
  its live accessors, so the bound is kept while at most 128 accessors of a page are live.
- `setProperty`, `property` and `dynamicPropertyNames` are each one step, and so is each element written to
  a page. What is written is visible to readers at once. One mutator runs at a time, because requests are
  queued on the object's own thread (json_rpc_server.cpp:164). It runs concurrently with the renderer.
- The page files of an earlier run survive `NewOnly` (database_obj.cpp:160, 170), so the first contents of
  both pages are arbitrary. No first notification is posted, so the claims about the published page start
  with the first mutation or the first publication.
- The socket is a stream of bytes. What each `poll`, `recv`, `send` and `sendfile` returns is an argument,
  and the theorems quantify over it.
- `Requests.Types` stands for the registered meta types: each name has a default value, or none.
- Parameter values are given by what they convert to. One that does not convert to a byte array, such as an
  object or an array, counts as the empty text where text is asked for, and writing it to an attribute fails.
- Looking up an absent key of the request object inserts a null and returns that, as the `operator[]` of a
  `QJsonObject` that is not constant does (json_rpc_server.cpp:121, 133, 140, 155).
- What a message or page says is stated through readers that know only its marks: `ReadField` for a field
  between two marks, `ReadStatus` and `ReadHeadField` for a head, `ReadJson` for a body, `ReadPage` for a
  page, `ReadListing` for a listing, `Decoded` for a search id. They name no function that builds the text.
  Each is exact for texts free of the marks around them; the code escapes nothing.
- Page text follows C strings, so the values shown stop at their first zero byte. The literal that ends a
  page is written with its terminating zero (database_obj.cpp:249), and the published page contains it.

### Where the code does less than its comments say

- `while(page.semaphores.try_acquire());` (database_obj.cpp:222) takes the readers' permits instead of waiting
  for them, although the line above says that it blocks. A reader's state load and its registration are also
  separate steps. The protocol is modelled as written, and `Config` names the two corrections, `waits` and
  `atomicOpen`. Readers are isolated exactly when both are made. As written they have the weaker guarantee of
  `SnapshotWindow` and `ReaderSeesItsPublication`. A drained permit makes it impossible that every reader of
  the page is ever released, and `PermitIsLost` is a run of the code as written in which that happens. In
  every continuation at least as many accessors stay live as permits were drained (`LiveAccessorsFloor`), and
  no more than those need to (`FinishToFloor`). A request thread whose accessor cannot be released never closes its client's socket
  (database_obj.h:211, html_server.h:108-115): `DrainedPermitsKeepConnectionsOpen` counts them.
- The clean-up loops test the iterator before they search (server.cpp:130, servers_wrapper.cpp:68), so they
  can come to erase the end iterator, which is undefined. `EraseInvalidFromStart` and `EraseInvalidOnward`
  follow the code and say exactly when that happens, and `Sweep` does so for a whole turn of the client loop.
  `EraseInvalid` names the correction, a loop that ends when the search finds nothing. In `Connections` a
  client array is changed by erasing empty slots only, so its theorems hold for the corrected clean-up, and
  for the code as written up to the point where it erases the end.
- Both send loops add the result of `send` to their counter also when it is -1 with `EAGAIN`
  (html_server.h:149, 183). The model keeps this. The claims about the bytes on the wire say exactly when
  they survive it. The second loop compares a signed counter with an unsigned length, so -1 ends it, and an
  `EAGAIN` in its first turn ends it normally with nothing sent (`AgainLosesFile`). In the first loop an
  `EAGAIN` repeats a byte (`AgainRepeatsByte`).
- A connection that hangs up while idle is forgotten without a close (server.cpp:120-124). `IdleHangUpLeaks`
  is such a run. Provided that request threads end, `ClosableIffNotDropped` says that no other connection
  loses its close; the threads that do not end are counted as said above.
- `cleanBuffer` searches with `strstr`, which has no bound but a zero byte (http_recv_buffers.h:38, 45), and
  html_server.cpp:34 calls it on a full buffer. The model names the correction, a search that ends with the
  array, and `leaves` says exactly when the code's own search would have read on behind it. On the very same
  buffers cleaning makes no room, because the kept tail of the array is text.
- The number of bytes passed to the second `snprintf` is the size of the whole buffer
  (json_rpc_server.cpp:342, 405), and only equality of lengths is caught (330, 339). `OutOfBuffer` marks the
  stores beyond the buffer that this lets through. The code goes on to its send loop then, and nothing is
  claimed about what it sends.
- The body loop of the JSON server measures text with `strlen`, which runs past a buffer that is full at the
  hand-off, and it trusts the declared length (json_rpc_server.h:103): a Content-Length that is too large for
  the buffer is enough to make it write beyond the array. `OutOfBuffer` marks both. While bytes keep coming,
  one of the two happens exactly for an `Overlong` request, and any other is passed on.
- A request without an id is a notification, as section 4.1 of the JSON-RPC 2.0 specification asks, and so is
  one with a null id. That section allows no answer to a notification, but one whose call fails is answered
  with an error (json_rpc_server.cpp:167-172). Section 5 asks for the id of the request, of its own type; the
  answers carry it as a string, and no id is the string "null" (json_rpc_server.cpp:318, 381, 384). Error answers to refused requests carry no id at all.
- A copied header does not copy its level (database_obj.h:116), so the level after an attribute was set is
  arbitrary, and independently so after each call. `setPropertyAttr` answers with success for any attribute
  (database_obj.cpp:102). `CallTakesEffectIff` and `CallKeepsOthersIff` say exactly when it does what it
  answers, and when it spares the other attributes.
- `setPropertyAttr` dereferences whatever it finds (database_obj.cpp:90-94). For a property that is absent
  nothing is claimed by its method. In the sequences of `RequestsRefineOrderedMap` such a request stands for
  the removal of a name that is not there.

## Model

| member | source | states |
|---|---|---|
| `PingPongTheorems.NoRefreshLost` | database_obj.cpp:203-254 | over every run, after the first mutation, a published page that is not the rendering of the current properties means that a notification is pending, a mutator is about to post one, or a refresh is asked for or running |
| `PingPongTheorems.RunningRefreshAgrees` | database_obj.cpp:240-247 | a running refresh with nothing else outstanding has listed the current names and written a prefix of the current rendering, although properties may have changed at any earlier moment |
| `PingPongTheorems.QuiescentPageIsCurrent` | database_obj.cpp:203-254 | when nothing is outstanding the published page is the full rendering of the current properties |
| `PingPongTheorems.RefreshCompletes` | database_obj.cpp:203-254 | from every reachable state the code as written can reach quiescence with no reader's help, no property changed, and the page of those properties published |
| `PingPongTheorems.AlwaysOneValidPage` | database_obj.h:233-248 | in every reachable state the flags are opposite, no step of anybody changes the bytes of the page they name, and after the first publication that page is a complete head-elements-tail page; so is the page at each store |
| `PingPongTheorems.WritesAreTouches` | database_obj.cpp:225-249 | whatever step changes the bytes of a page is one of the lock holder's writes or truncations of that page |
| `PingPongTheorems.SnapshotWindow` | database_obj.cpp:181-254 | the page that a state load finds keeps its bytes until the second truncation after it, through any steps of any readers, mutators and refreshes |
| `PingPongTheorems.ReaderSeesItsPublication` | database_obj.cpp:181-190 | a reader that loaded publication v holds exactly the bytes of v, and the length it read is the length of v, until refresh v+2 truncates |
| `PingPongTheorems.WindowEnds` | database_obj.cpp:225 | the window is exact: the truncation that ends it empties the page under the reader, and so changes it if and only if the loaded publication is not empty; only the first contents of a page can be empty |
| `PingPongTheorems.PermitAccounting` | database_obj.h:211-215 | for each page, releases equal acquires plus drained permits plus the count, and the live accessors are the drained permits plus the count |
| `PingPongTheorems.LiveAccessorsFloor` | database_obj.cpp:222 | a drained permit never comes back: in every continuation the live accessors of a page number at least the permits drained from it so far |
| `PingPongTheorems.FinishToFloor` | database_obj.h:211-215 | that is all that is lost: from every reachable state some continuation brings both pages down to exactly that number, with no further permit drained |
| `PingPongTheorems.ReleasableIffNothingDrained` | database_obj.cpp:222 | hence some continuation releases all accessors of a page if and only if no permit of it has been drained |
| `PingPongTheorems.PermitIsLost` | database_obj.cpp:222 | a reachable state of the code as written in which a live accessor's permit was drained, so that no continuation ever releases all accessors of its page |
| `PingPongTheorems.IsolatedIffBothCorrections` | database_obj.cpp:221-225 | that no live accessor's page is ever truncated or written, over all runs, holds if and only if the drain waits and load plus registration is one step |
| `PingPongTheorems.ReaderOvertaken` | database_obj.cpp:183-225 | for each configuration that lacks a correction, a reachable state in which a live accessor's page is about to be truncated |
| `PingPongTheorems.CorrectedReadersKeepTheirPage` | database_obj.h:205-220 | with both corrections every accessor sees the one publication it loaded for as long as it lives |
| `PingPongInvariants.IntactKept` | database_obj.cpp:217-253 | every step keeps: the last publication is on the page the flags name, and the one before it on the other page until the next truncation |
| `PingPongInvariants.CompleteKept` | database_obj.cpp:225-251 | every step keeps: all publications after the first are complete, and the page being written grows towards one, even when properties change underneath |
| `PingPongInvariants.UpToDateKept` | database_obj.cpp:240-253 | every step keeps: in a quiet state a finished page shows the current properties and an unfinished one a prefix of them |
| `PingPongInvariants.PermitsKept` | database_obj.h:211-215 | every step keeps the balance of releases, acquires, drained permits and live accessors |
| `PingPongInvariants.IsolatedKept` | database_obj.cpp:221-225 | with both corrections every step keeps: past the drain the spare page has no accessor, and no reader leaves its window |
| `PingPongInvariants.InvOfReachable` | database_obj.cpp:181-254 | the whole invariant holds in every reachable state, from any first page contents |
| `Properties.LookupOfName` | database_obj.cpp:242-243 | looking up a listed name finds the value at its place in the list |
| `PageReader.ElementReadsBack` | database_obj.h:50-59 | the bytes of an element, read by their marks alone, give each field back from its own place: the address and the text of a link, the text of a paragraph, the text and the level of a header from both its tags; and what follows them |
| `PageReader.PageReadsBack` | database_obj.cpp:229-249 | between opening and closing, a page reads back as the values of the properties, in order |
| `PageReader.QuiescentPageShows` | database_obj.cpp:203-254 | in every reachable quiescent state a browser that gets the published page shows exactly the current properties |
| `PageReader.SetAttributeShows` | database_obj.cpp:73-103 | an address or text that setPropertyAttr sets with effect is what a browser finds in its place, in that property's element of the next page |
| `Properties.SetPropertyKeepsDistinct` | database_obj.cpp:36-53 | setting, replacing and deleting keep the names distinct |
| `Database.DatabaseObj.constructor` | database_obj.cpp:135-179 | a new object is in a first state of the protocol |
| `Database.DatabaseObj.AddProperty` | database_obj.cpp:11-41 | the reply and the change of the request semantics; as seen by the protocol exactly one set followed by one notification, or nothing, wherever the refresh threads stand |
| `Database.DatabaseObj.DeleteProperty` | database_obj.cpp:43-58 | the same for a deletion |
| `Database.DatabaseObj.ListProperties` | database_obj.cpp:60-71 | the loop's text is the concatenation of the entries, and nothing is changed |
| `Database.DatabaseObj.SetPropertyAttr` | database_obj.cpp:73-103 | the same as for an addition, with the value copied, changed and copied again; an incomplete request is refused whatever property it names |
| `Database.DatabaseObj.GetHtmlFile` | database_obj.cpp:181-190 | run without interruption it is load, open and register of the protocol, whether or not the file opens; the page bytes stay |
| `Database.DatabaseObj.DrainPermits` | database_obj.cpp:222 | the count goes to zero and every permit taken is counted as drained; each turn is a step of the protocol |
| `Database.DatabaseObj.RenderProperties` | database_obj.cpp:242-247 | the loop over names, each looked up again, writes the values of all properties in order |
| `Database.DatabaseObj.RefreshHtml` | database_obj.cpp:212-254 | publishes a page in which a browser finds exactly the current values, on the other page file, leaves the page published before untouched, and is a run of the protocol |
| `Database.DatabaseObj.OnTimeout` | database_obj.cpp:203-206 | consumes a pending notification and then the published page is current; otherwise nothing changes; it is a run of the protocol from the acquire to the store |
| `Requests.FailuresLeaveNoTrace` | database_obj.cpp:11-103 | in every sequence of requests those answered with an error, and the listings, can be taken out: the rest succeeds throughout, makes exactly one change and notification per request, and leads to the same properties by the same changes |
| `Requests.AddedIffDynamic` | database_obj.cpp:36-40 | a successful add appends the property, except for the one name QObject declares itself, for which success is answered and nothing is added |
| `Requests.AddIsExact` | database_obj.cpp:26-36 | an add that succeeds appends the name given in the request with the default value of the type given there |
| `Requests.DeleteIsExact` | database_obj.cpp:46-53 | a delete that succeeds takes out the property of the name given in the request and no other, and the name is gone |
| `Requests.RepliesName` | database_obj.cpp:40-57 | the answers name what was added, of which type, or deleted |
| `Requests.SetAttrReplyNames` | database_obj.cpp:102 | the answer names the attribute and the text of the data |
| `Requests.DeleteUndoesAdd` | database_obj.cpp:36-57 | after an add the name is refused and can be deleted, and deleting it restores the list exactly |
| `Requests.TakesEffectIff` | database_obj.cpp:90-98 | a set attribute reads back as what the answer says, whatever the copy's level, if and only if the type declares it, it is not the level of a header, and the data converts to a byte array or the attribute was empty anyway |
| `Requests.KeepsOthersIff` | database_obj.h:115-116 | all other attributes keep their values, whatever the copy's level, if and only if the value is no header or the level itself was set |
| `Requests.AnyOrderIff` | database_obj.cpp:90-98 | two attributes can be set in either order, each copy having a level of its own, if and only if the value is no header |
| `Requests.SetAttrReplaces` | database_obj.cpp:73-103 | the call replaces its property in place: names and order stay, and every other property reads as before; data that does not convert leaves the attribute as it was |
| `Requests.CallTakesEffectIff` | database_obj.cpp:90-102 | the call answers with success, and the property then reads back what the answer says under exactly that condition |
| `Requests.CallKeepsOthersIff` | database_obj.cpp:90-102 | the call leaves the property's other attributes as they were if and only if it is no header or the attribute was the level |
| `Requests.RequestsRefineOrderedMap` | database_obj.cpp:11-103 | over every sequence of requests the names are distinct, none is the one QObject declares itself, and the list is the ordered map the log of changes describes: surviving names in the order they were born, each with its latest value |
| `Requests.LogDecides` | database_obj.cpp:36-98 | that description leaves one list only |
| `Requests.LogIsRequested` | database_obj.cpp:11-103 | the log is what the requests ask for, told from their raw parameters and the changes so far alone: which succeed, and what each of them sets |
| `Requests.ListingReadsBack` | database_obj.cpp:60-71 | a listing reads back as the names and types of all properties in order, for names and types without `>` |
| `Requests.ListingDecides` | database_obj.cpp:60-71 | hence equal listings mean equal names and types in equal order |
| `Requests.ListingCanDeceive` | database_obj.cpp:62-68 | for any two names and any type, a single property whose name spells out the end of an entry lists like both |
| `PageRequest.PageAtMoment` | database_obj.cpp:181-254 | at every later moment of a run inside the window the reader's page is the publication it loaded |
| `PageRequest.ServePage` | html_server.h:96-194 | end to end: while the accessor stays in its window, a normal return has sent the head and then all bytes of the one loaded publication, with its length announced, if and only if the EAGAIN turns that the loops used leave the message intact; that end is reached when every turn moves a byte; the client reads status 200, and `Connection: close` exactly when asked for; a file that does not open gets status 404 and a throw |
| `PageRequest.DrainedPermitsKeepConnectionsOpen` | html_server.h:108-115 | when every live accessor is held by a request thread, in every continuation at least as many connections as permits were drained on both pages are neither dropped nor closed |
| `HtmlServer.SendBytes` | html_server.h:130-159 | a normal end has sent exactly the bytes if and only if no turn reported EAGAIN; otherwise one byte more for each; enough moving turns reach it |
| `HtmlServer.SendFile` | html_server.h:161-193 | a normal end has sent exactly the file if and only if the number of EAGAIN turns is zero or one more than the length |
| `HtmlServer.AgainRepeatsByte` | html_server.h:141-150 | an input for the first loop, for any data: one EAGAIN after k bytes sends byte k - 1 twice |
| `HtmlServer.AgainLosesFile` | html_server.h:161-184 | an input for the second, for any length: an EAGAIN in the first turn ends it normally with nothing sent |
| `HtmlServer.SendMessage` | html_server.h:130-193 | both loops together: head and page are on the wire after a normal end if and only if no EAGAIN hit the first loop, and none or one more than the length hit the second; for a page that does not start with a byte of the head |
| `HtmlServer.RepetitionPassesForPage` | html_server.h:130-193 | why that is asked of the page: one that starts like the end of a head can be made up by repeated bytes |
| `HtmlServer.SendResponse` | html_server.h:117-194 | the same for the heads the code builds, with no condition on the page but that it is empty or starts with markup; the message then reads back as the page, and both kinds of head announce their code |
| `HtmlServer.StatusReadsBack` | html_server.h:17-60 | the status line of every answer reads back as one of 200, 400, 404, 405 and 500, with its phrase |
| `HtmlServer.ConnectionOfPage` | html_server.h:17-66 | the client finds `Connection: close` exactly when the connection is to be closed |
| `HtmlServer.PageFieldsReadBack` | html_server.h:17-23 | the client finds the version and the media type of the page |
| `HtmlServer.PageMessageReadsBack` | html_server.h:17-23 | a client that splits at the first terminator and takes Content-Length bytes gets the page, whatever follows in the stream |
| `HtmlServer.PageHeadFits` | html_server.h:120-127 | the head fits its 512 bytes for every 64-bit length and every status |
| `HttpHead.FindOfHead` | html_server.h:17-23 | the first CRLFCRLF of a message is the end of its head, whatever the body contains |
| `HttpHead.FieldOfLines` | json_rpc_server.h:27-31 | looking a field up in the joined lines finds the first line of that name |
| `RecvBuffer.RestIsLastSuffix` | http_recv_buffers.h:35-56 | the greedy scan leaves a suffix that stands behind a terminator, or everything, and that holds no terminator |
| `RecvBuffer.IncrementalCleaning` | http_recv_buffers.h:35-56 | cleaning, appending and cleaning again leaves the same rest and passes the same number of terminators as cleaning once |
| `RecvBuffer.CleaningIsChunkIndependent` | http_recv_buffers.h:35-56 | the same for every split of a stream into chunks |
| `RecvBuffer.HttpRecvBuffer.LastTerminatorEnd` | http_recv_buffers.h:37-46 | with the search bounded by the array as a named correction, the loop ends where the rest of the text begins, and at zero exactly when there is no terminator; the unbounded search would leave the array if and only if it holds no zero byte |
| `RecvBuffer.HttpRecvBuffer.MoveToFront` | http_recv_buffers.h:52 | an overlapping forward move still yields the old block, with the bytes behind it as they were |
| `RecvBuffer.HttpRecvBuffer.CleanBuffer` | http_recv_buffers.h:35-56 | with the same correction and the same exact condition: the whole new memory and the number of bytes removed; memcpy is called on disjoint areas only |
| `RecvBuffer.PositionAfterCleaning` | http_recv_buffers.h:47-59 | the next write position is behind the rest of the text, except for a full buffer, where it stays at the end |
| `RecvBuffer.CleaningMakesRoomIff` | http_recv_buffers.h:32-59 | cleaning makes room if and only if there was a terminator and the buffer was not full |
| `RecvBuffer.FullBufferKeepsRest` | http_recv_buffers.h:35-56 | under the bounded search, the front kept of a full buffer is the old text behind its last terminator and has none; zero is returned exactly when there was none, and then nothing has changed; no room is made in any case |
| `RecvBuffer.HttpRecvBuffer.constructor` | http_recv_buffers.h:103-115 | a buffer from the pool is all zeros |
| `JsonReceive.ReceiveHeader` | json_rpc_server.cpp:31-109 | every write is inside the array for any bytes; without zero bytes the buffer is the received prefix followed by zeros, and strnlen is the number received; a hand-off has seen a terminator, and carries the length that its last round matched |
| `JsonReceive.HeaderRunIsExact` | json_rpc_server.cpp:39-108 | the loop hands off if and only if some round matches a POST on a text with a terminator and no earlier round matches or ends it; it then carries that round's length and the bytes arrived by then |
| `JsonReceive.ReceiveBody` | json_rpc_server.h:76-121 | for text, the body passed on is exactly the declared bytes behind the first terminator, for every split; an access leaves the array only if the declared length is too large for it or the buffer was full at the hand-off, and while bytes keep coming one of the two outcomes is reached, exactly by that condition |
| `JsonReceive.ProcessRequest` | json_rpc_server.cpp:31-109 | both loops: whichever round hands off, a body passed on is the one declared in that round; while bytes keep coming it is passed on if head plus body fit and the hand-off left room, and the array is overrun if not; without such a round nothing is passed on |
| `JsonRpc.Respond` | json_rpc_server.cpp:112-175 | from document to what the client reads, when every turn moves a byte: for each kind of document its HTTP status, its error number and message with the sign read back, and the id; a method is invoked if and only if the document is an object of version 2.0 with a method name and an id that is absent, null or a non-zero number; a success is silent if its id is absent, null or a multiple of 2^32, and else the client reads the text and the 32-bit id, exactly when the message fits |
| `JsonRpc.ResultBodyReadsBack` | json_rpc_server.cpp:317-342 | a JSON reader finds version, result and id of a result, each under its own name, for a text that needs no escapes |
| `JsonRpc.ErrorBodyReadsBack` | json_rpc_server.cpp:380-405 | and the number, the message and the id, or null, of every error |
| `JsonRpc.CodeIsGot` | json_rpc_server.cpp:262-307 | every error reads back with the number and message that section 5.1 of the JSON-RPC 2.0 specification gives it, or the server's own, under its HTTP status |
| `JsonRpc.FieldsReadBack` | json_rpc_server.h:27-31 | the client finds the media type, and that the connection is closed |
| `JsonRpc.TwoPasses` | json_rpc_server.cpp:328-342 | the two formatting passes stay inside the buffer and produce head and body if and only if both together are shorter than it; which lengths the checks catch |
| `JsonRpc.FormatResponse` | json_rpc_server.cpp:391-405 | the same for the response head, whose announced length is that of the first pass |
| `JsonRpc.ResponseReadsBack` | json_rpc_server.h:25-32 | split at the first terminator and cut at the parsed Content-Length, a response gives back its body |
| `JsonRpc.ErrorBodyLength` | json_rpc_server.cpp:380-384 | at most 120 bytes for every code and every 32-bit id |
| `JsonRpc.SendError` | json_rpc_server.cpp:378-438 | every error of every 32-bit id fits and reads back as its body; a normal end has sent exactly that message if and only if no used turn reported EAGAIN, and enough moving turns send it all |
| `JsonRpc.SendResult` | json_rpc_server.cpp:310-375 | a notification and a length that the equality checks notice send nothing; a message that fits is sent under the same exact condition and reads back as its body; exactly the remaining lengths overrun the buffer, and of those nothing more is said |
| `Sockets.SocketFdsArray.Erase` | ServersCore/include/server.h:26-36 | erasing an empty slot by move assignments to the left closes nothing, and keeps all other slots in order |
| `Sockets.SocketFdsArray.EraseInvalid` | ServersCore/server.cpp:127-135 | the corrected loop leaves exactly the valid slots in their order and closes none |
| `Sockets.SocketFdsArray.EraseInvalidFromStart` | ServersCore/server.cpp:128-134 | the loop as written does the same, and then erases the end if and only if a valid slot remains |
| `Sockets.SocketFdsArray.EraseInvalidOnward` | ServersCore/servers_wrapper.cpp:65-72 | the loop as written ends well if and only if the array was empty or its last slot was |
| `Sockets.SocketFdsArray.Sweep` | ServersCore/server.cpp:109-135 | readable connections are handed off, hung-up ones dropped, the others kept in order, none closed; with the clean-up as written the end is then erased if and only if some slot was emptied and some was not |
| `Sockets.SweepConserves` | ServersCore/server.cpp:109-135 | every descriptor occurs in the three parts together as often as it did in the array |
| `Connections.StepConserves` | ServersCore/servers_wrapper.cpp:38-64 | every step of accept loop, client loops with the corrected clean-up, and request threads keeps each connection in exactly one place, and the lookup on accept does not fail |
| `Connections.PolledServers` | ServersCore/include/servers_wrapper.h:86-108 | an added server is polled, and has a client array if and only if its listen succeeded or it had one; nothing but its going changes which servers are polled, or their order |
| `Connections.EveryConnectionInOnePlace` | ServersCore/servers_wrapper.cpp:38-64 | with the corrected clean-up, in every reachable state each accepted connection is once in its own server's array, in one request thread, dropped, or closed; every lookup succeeds |
| `Connections.ClosableIffNotDropped` | ServersCore/server.cpp:109-135 | provided that request threads end, in every reachable state some continuation closes an accepted connection if and only if it was not dropped on hang-up |
| `Connections.IdleHangUpLeaks` | ServersCore/server.cpp:120-124 | a run of three steps, on any server, after which an accepted connection is dropped and no continuation closes it |
| `Connections.HungUpIsNeverClosed` | ServersCore/server.cpp:120-124 | once dropped it stays dropped and not closed in every continuation |
| `Connections.SweepIsRun` | ServersCore/server.cpp:109-135 | what a sweep computes is a run of the ownership system |
| `SearchId.ConvertToId` | docs/html/search/search.js:25-46 | the loop yields the code words of the characters one after the other |
| `SearchId.StandsForItselfIff` | docs/html/search/search.js:32-35 | exactly lower case letters, digits and everything from 0x80 on are left as they are |
| `SearchId.DecodesBack` | docs/html/search/search.js:36-43 | every encoding is read back: an underscore and two hexadecimal digits are the number of the character |
| `SearchId.CodeIsPrefixFree` | docs/html/search/search.js:32-43 | no code word is a prefix of another |
| `SearchId.PrefixIffPrefix` | docs/html/search/search.js:25-46 | encodings are prefixes of each other if and only if the strings are |
| `SearchId.EncodingIsInjective` | docs/html/search/search.js:25-46 | different strings have different encodings |
| `SearchId.Search` | docs/html/search/search.js:506-532 | exactly the wanted result rows are shown, the other result rows hidden, all other elements untouched, and the number returned is that of the wanted rows |
| `SearchId.StrippedIsExact` | docs/html/search/search.js:517-518 | a prefix of `sr`, digits and an underscore is taken off, whatever follows, and any other id is left as it is |
| `SearchId.SearchIsExact` | docs/html/search/search.js:517-521 | on a row id made of `sr`, digits and an encoded name the test holds if and only if the name starts with the search text |
| `SearchTree.FindChildElement` | docs/html/search/search.js:437-471 | the stackless loop ends on every finite tree, stays below its start, and returns the node of the recursive preorder search that enters only div elements |
| `SearchTree.ReferenceIsFirst` | docs/html/search/search.js:437-471 | that search finds the first wanted node in document order reachable through div elements, or there is none |
| `SearchTree.Climb` | docs/html/search/search.js:459-468 | going up ends at the nearest node with a next sibling or at the start, and loses none of what remains to be searched |

Facts that are read off one definition have no row. They are the helpers
`Database.DatabaseObj.NotifyRefresh`, `Requests.ErrorsChangeNothing`, `Requests.AddSucceedsIff` and
`Requests.DeleteSucceedsIff`, `JsonRpc.InvokedIff`, `JsonRpc.SilentIff` and `JsonRpc.EchoesIdIff`, and
`Connections.MapHoldsListeners`.

## Left out

- Sockets.SocketFdsArray.EraseInvalid: states the clean-up with a loop that ends when the search finds nothing; `EraseInvalidFromStart` and `EraseInvalidOnward` follow the loops as written and give the exact condition under which they erase the end.
- Database.DatabaseObj.SetPropertyAttr: for a request that is not refused, takes a property that is present and holds one of the three page types, as the code dereferences whatever it finds.
- Database.DatabaseObj.RefreshHtml: stated for a run without interruption; what holds under interleaving is proved on the transition system.
- Database.DatabaseObj.GetHtmlFile: stated for a run without interruption, like RefreshHtml; that the opened file is never closed by the code is not modelled.
- Requests.ListingDecides: leaves out names and types that contain `>`, for which it is false, as `ListingCanDeceive` shows.
- JsonReceive.ReceiveHeader: the regular expressions are an arbitrary outcome per round, except that a hand-off has seen a terminator; the lookup of the target by path is one of the ways a request is answered there.
- JsonRpc.SendResult: the text is put between quotes unescaped, as in the code, so that the answer reads as JSON is said only of texts without quotes and backslashes (`ResultBodyReadsBack`).
- PageReader.ElementReadsBack: leaves out addresses with a quote and texts with `<`, which the code does not escape, and values of built-in types, whose stream form is not modelled.
- SearchId.Search: takes the search text and the row ids after unescaping, trimming and lower-casing; that the generator builds row ids with the same escape is an assumption of `SearchIsExact`.
- Connections.ClosableIffNotDropped: any running request thread may end there; a thread that waits forever for a drained permit is not told apart, only counted by DrainedPermitsKeepConnectionsOpen.
- RecvBuffer.HttpRecvBuffer.CleanBuffer: what the unbounded search finds behind a full array is not modelled, only when it goes there; the same holds of LastTerminatorEnd.
- RecvBuffer.FullBufferKeepsRest: rests on that bounded search.
- JsonRpc.Respond: for turns that move bytes; the other endings are stated for SendError and SendResult.
- Connections.EveryConnectionInOnePlace: rests on the corrected clean-up, as do the other members of Connections.
- Connections.StepConserves: the only client erase is of an empty slot, so the source's erase of the end is left out. Each accept, hand-off and erase is one step; that accept appends to a client array without that array's lock is a data race the model does not show.
- Unsynchronised access to the properties of a QObject from the refresh thread, beyond the interleaving of whole operations.
- System calls, timers and threads themselves; the meta-object lookup, QVariant and the JSON parser; the stream form of built-in types is a given string.
- `HtmlServer::processRequest`: its byte counter is not reduced after cleaning and is changed by -1 results, so the receiving claims rest on the JSON server's loop.
- `JsonRPCServer::processRequestGET`: its two loops are those of `sendResponse` for a fixed file.
- How threads share the buffer pool, and its destructor, whose loop never ends.
- The closing of whole client arrays at shutdown, the stubs for child objects, and the page at the path `jsonrpc.html`.
- The rest of the search script and all presentation, build and test files.
