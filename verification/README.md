# Chat servers, TODO store, mailer, scraper and static server: a Dafny model

This project models the pure logic of a collection of small Python network
programs and proves properties of it:

- **RoomServer** (`0911/server.py`): the threaded chat server that has a
  name registry. It keeps two maps, name to socket and socket to name. A
  name is valid when it is non-empty, has no ' ' and is at most 20
  characters long. The model covers registration, idempotent cleanup,
  broadcast with per-recipient failure handling, whispers, line framing,
  the classification of each received line, and a whole session.
- **ListChat** (`chat_server.py`): the second chat server. It keeps a
  list of client sockets plus a socket-to-name dict and has no name rules.
  The join message skips the newcomer, a whisper is echoed to its sender,
  clients whose send failed are removed after the fan-out (which closes
  them, so their own loops read nothing more), and the `finally` removal
  passes `'Unknown'` once the dict entry is gone. No client's departure
  is announced twice in a session.
- **Todo** (`1113/todo.py` and the older `1106/todo.py`): the CSV-backed
  TODO API. It covers id allocation, lookup by id, add, update, delete and
  list. It also covers the text form of the `done` flag and the agreement
  between the in-memory list and the CSV rows.
- **MailTargets** (`1023/send_mail_group_html.py`): how recipient rows are
  filtered, the HTML escaping of the default page, and the checks `main`
  makes before sending.
- **Headlines** (`0925/crawling_KBS.py`): the whitespace normaliser
  `_clean_text`, the de-duplicating `add_item` accumulator, and the choice
  of a selector's last token.
- **StaticHttp** (`0918/server.py`): the private-address test that decides
  whether a client's location is looked up, the routing of GET paths, and
  the responses. In every response, Content-Length equals the body's
  length.

Shared modules model the Python primitives the programs use:

- `Text`: `str.isspace`, `strip`, `split()`, `' '.join`, `split(sep, 2)`,
  `startswith` and `replace`.
- `Decimal`: `str(int)` and `int(text)`.
- `Seqs`: `list.remove`.
- `Wire`: a newline-framed send.
- `Options`: an option type.

How things are represented:

- Every `with self._lock:` block, and every handler call, is one atomic
  step.
- State is an immutable value. Each operation is a function from the old
  state to the new state plus the lines it sends.
- A send to a socket in the parameter `dead` fails; every other send
  delivers.
- Files are given as their contents: rows already split into fields, or
  `None` when the file does not exist.

Where the code departs from the protocol as its authors describe it,
the model follows the code:

- `0911/server.py` rejects a name only for the character ' '. A tab or any
  other whitespace is accepted.
- In `0911/server.py` an empty line is not ignored. It is broadcast as
  `"{name}> "`.
- In `0911/server.py` the join notice also reaches the newcomer.
- The wire strings are the Korean ones the code sends. For example, a
  whisper arrives as `"(귓속말){sender}> {text}"`, not `"(whisper)…"`.
- `split(' ', 2)` cuts at single spaces, so `"/w  bob hi"` whispers to the
  empty name.
- If the usage hint cannot be sent after the join, `0911/server.py` cleans
  up and returns without a leave broadcast.

## Model

| member | source | states |
|---|---|---|
| RoomServer.RecvLine | 0911/server.py:31-37 | End of stream gives `None`. Otherwise the line comes back without its newline, and the stream is that line, framed, followed by the rest. A final line without a newline is the whole remaining stream. |
| RoomServer.FrameRoundTrip | 0911/server.py:27-37 | A line sent by `_send_line` is received back unchanged by `_recv_line`, whatever follows it. |
| RoomServer.EmptyInv | 0911/server.py:19-22 | The empty registry satisfies the invariant: the maps are mutually inverse, names are distinct and valid. |
| RoomServer.InvMutuallyInverse | 0911/server.py:19-22 | Under the invariant, `_name_by_sock[s] == n` exactly when `_sock_by_name[n] == s`. |
| RoomServer.Register | 0911/server.py:83-92 | Succeeds iff the name is non-empty, has no ' ', has at most 20 characters and is not taken. A refusal changes nothing. A success binds name and socket both ways, touches no other entry and keeps the invariant. |
| RoomServer.SecondRegistrationFails | 0911/server.py:87-89 | Of two registrations of the same name, whichever sockets ask, the second fails and changes nothing. |
| RoomServer.DistinctNamesBothRegister | 0911/server.py:83-92 | Two distinct valid free names, for two distinct fresh sockets, both register and keep the invariant. |
| RoomServer.Cleanup | 0911/server.py:72-81 | The socket loses its name and, under the invariant, its name becomes free. Other sockets keep their names. The registry only shrinks, the invariant is kept, and cleaning up an unknown socket changes nothing. |
| RoomServer.CleanupIdempotent | 0911/server.py:72-81 | A second cleanup of the same socket changes nothing. |
| RoomServer.CleanupReleases | 0911/server.py:74-77 | Cleaning up a socket frees every name bound only to it. |
| RoomServer.ValuesInOrder | 0911/server.py:43-44 | A value is listed iff some listed key maps to it. |
| RoomServer.ValuesInOrderNoDup | 0911/server.py:43-44 | Distinct keys bound to distinct sockets give a snapshot without repeats. |
| RoomServer.Snapshot | 0911/server.py:43-44 | Under the invariant, the snapshot lists every registered socket exactly once. |
| RoomServer.Fanout | 0911/server.py:46-53 | Exactly the listed sockets that are live and not excluded get the data, once each when the list has no repeats. Exactly the dropped sockets lose their registration. The rest keep it. |
| RoomServer.Broadcast | 0911/server.py:41-53 | Every registered live socket except `exclude` gets `text + '\n'` exactly once, and nobody else gets anything. Failed recipients are cleaned up, other registrations are kept, and the invariant holds. |
| RoomServer.Whisper | 0911/server.py:55-68 | Delivered iff the target name is registered and its socket is live. Then exactly one line goes to that socket, `(귓속말){sender}> {text}`. An unknown name sends nothing and changes nothing. A failed send cleans the target up. |
| RoomServer.Classify | 0911/server.py:124-136 | Quit iff the line is exactly "/종료". Chat iff the line is neither that nor starts with "/w ". A bad whisper iff no space follows the target. A whisper splits as `/w target body` with a space-free target. |
| RoomServer.WhisperHead | 0911/server.py:127-133 | How `split(' ', 2)` cuts a "/w " line: first part "/w", then the rest of the line, whole or split at its first space. |
| RoomServer.Notify | 0911/server.py:131-135 | A notice to the sender goes to the sender only. A failure to send it ends the loop. |
| RoomServer.HandleLine | 0911/server.py:119-139 | Per class of line: quit stops silently; bad whispers and unknown targets give one notice to the sender only; a whisper to a live target reaches only it; chat reaches every other live registered socket and never the sender, and exactly the other registered sockets whose send fails lose their registration. The registry only shrinks and keeps the invariant. |
| RoomServer.Loop | 0911/server.py:118-142 | The message loop only removes registry entries and keeps the invariant. |
| RoomServer.Session | 0911/server.py:94-146 | The session is rejected iff the first line is end of stream or fails registration. The invariant holds throughout. |
| RoomServer.RejectedSessionIsSilent | 0911/server.py:99-106 | A rejected session leaves the registry as it was and sends at most the one rejection notice, to that socket alone. There is no join and no leave broadcast. |
| RoomServer.JoinReachesEveryone | 0911/server.py:108-110 | The join notice reaches every live registered socket, the newcomer included, once each. |
| RoomServer.SessionEndReleasesName | 0911/server.py:111-146 | At session end the socket and the name are both free and the invariant holds. A live newcomer gets exactly the usage hint after registering. The leave notice, sent after cleanup, reaches exactly the sockets still registered, once each, and never the leaver. A newcomer whose socket is dead gets no hint, no loop and no leave broadcast. |
| RoomServer.BroadcastReachesSurvivors | 0911/server.py:41-53 | After a broadcast to everyone, the sends go exactly to the sockets that remain registered, once each. |
| Seqs.RemoveFirst | chat_server.py:157-158 | `list.remove` when present removes the first occurrence: the result is the part before the value's first index followed by the part after it, one shorter. The multiset loses one copy, other values keep their membership, an absent value changes nothing, and a list without repeats loses the value entirely. |
| ListChat.Detach | chat_server.py:156-160 | The socket's dict entry is gone, and so is its list entry when the list has no repeats. Every other client stays, and the room only shrinks and keeps its invariant. |
| ListChat.DirectSends | chat_server.py:111-116 | Exactly the listed live clients other than the sender get the data, once each when the list has no repeats. |
| ListChat.FailedSends | chat_server.py:109-116 | The collected clients are exactly the listed clients, other than the sender, whose send fails. |
| ListChat.Broadcast | chat_server.py:106-120 | Every live client other than the sender gets `message + '\n'`, once each under the invariant, in the fan-out before any goodbye. Every failed client is gone afterwards, and every live one stays. |
| ListChat.RemoveEach | chat_server.py:118-120 | After the removal loop every collected client is gone, and every live uncollected one stays. |
| ListChat.RemoveClient | chat_server.py:154-168 | The client is gone afterwards. With 'Unknown' nothing is sent. Otherwise the goodbye reaches exactly the live clients left. |
| ListChat.FindByName | chat_server.py:134-139 | The first client in dict order holding the name. `None` iff no client holds it. |
| ListChat.HandleWhisper | chat_server.py:122-152 | The room never changes. Fewer than three parts gives only the format notice to the sender. An unknown name gives only the not-found notice. A live found target gets the whisper and the sender gets the echo, in that order. A found target whose send fails leaves the sender only the error notice, and a sender whose echo fails ends its loop after the target got the whisper. |
| ListChat.Join | chat_server.py:63-72 | The stripped first text becomes the name with no check. The join message reaches every live client except the newcomer. Existing names are kept. |
| ListChat.Announce | chat_server.py:66-72 | Admit under a name and announce it to everyone but the newcomer. |
| ListChat.Admit | chat_server.py:66-68 | The socket is appended to the list and named in the dict. A fresh socket keeps the invariant. |
| ListChat.HandleText | chat_server.py:76-96 | An empty receive ends the loop and sends nothing. Exactly "/종료" (after strip) removes the client and ends the loop, sending nothing under 'Unknown' and otherwise opening with the goodbye to every other live client, once each. The "/귀속말 " prefix is exactly `handle_whisper` on the stripped text. Any other text keeps the loop going and opens with `"{name}> {text}\n"` to every other live client, once each, and every other client whose send fails loses its name. |
| ListChat.Loop | chat_server.py:76-99 | Once the socket has been removed, and so closed, the loop reads nothing and sends nothing. The loop only shrinks the room, keeps its invariant, and announces each departure at most once, only for clients that were there and are gone after. |
| ListChat.LoopStopsAtQuit | chat_server.py:79-87 | An empty receive or "/종료" ends the loop: the texts after it have no effect. |
| ListChat.LoopChatReachesOthers | chat_server.py:76-96 | A chat text at the head of the loop is sent first, once each, to every other client whose send succeeds, and to nobody else. |
| ListChat.Session | chat_server.py:59-104 | After the session the socket has no name entry. A fresh socket keeps the invariant. No client's departure is announced twice, and every announced departure is of a client that was there and is gone after. |
| ListChat.ClosedByJoinIsSilentAfter | chat_server.py:59-104 | A newcomer removed by the goodbye cascade of its own join sends nothing more: the session's sends are exactly the join's. |
| ListChat.ClosedByJoinDepartsNoMore | chat_server.py:59-104 | The same newcomer's session announces no departure beyond those of the join, so its own goodbye is not said again by the `finally` removal. |
| ListChat.SessionAnnouncesJoin | chat_server.py:59-72 | A session's sends open with the join message to every other live client, once each, and to nobody else. |
| ListChat.SessionSaysGoodbye | chat_server.py:59-104 | When a live newcomer under a real name still holds it when the loop ends, the `finally` removal sends the goodbye to every other live client left, once each. |
| ListChat.QuitThenFinallyIsSilent | chat_server.py:85-104 | After "/종료" the `finally` removal finds no dict entry, passes 'Unknown', sends nothing, announces no departure and leaves the room as it is. |
| ListChat.DetachAbsent | chat_server.py:157-160 | Removing a client the room does not hold changes nothing. |
| ListChat.DuplicateNamesBothAdmitted | chat_server.py:63-68 | Two clients may join under the same name. Both stay listed with it, and a whisper lookup finds one of them. |
| Todo.DecodeDone | 1113/todo.py:41 | True exactly for the four-character texts that spell "true" in any mix of upper and lower case, so "true", "True" and "TRUE" read as true. |
| Todo.DoneRoundTrip | 1113/todo.py:41-60 | `str(done)` read back with `lower() == 'true'` gives `done`; 1106/todo.py:38 and 56 write and read it the same way. |
| Todo.EncodeRow | 1113/todo.py:57-62 | A written row has four fields: `str(id)`, the title, "True" or "False" for the flag, and the timestamp. |
| Todo.DecodeRow | 1113/todo.py:40-48 | A row reads iff it has four fields and `int` accepts the first. A read item takes title, timestamp and flag from the fields, and its id is what `int` gives for the first field. |
| Todo.RowRoundTrip | 1113/todo.py:40-62 | An item written as a row reads back as the same item. |
| Todo.EncodeRows | 1113/todo.py:71-72 | One row per item. |
| Todo.EncodeRowsAt | 1113/todo.py:71-72 | Row k is item k written as a row. |
| Todo.DecodeRows | 1113/todo.py:39-48 | No more items than rows. |
| Todo.DecodeRowsReadable | 1113/todo.py:39-48 | The rows read iff every non-blank row reads; one bad row makes the whole load fail. |
| Todo.BlankRowsReadEmpty | 1113/todo.py:39-40 | Blank rows are skipped, so blank rows alone read as no items. |
| Todo.DecodeEncodeRows | 1113/todo.py:34-72 | Rows written by `write_all_to_csv` read back as the same list. |
| Todo.DecodeRowsAppend | 1113/todo.py:34-62 | Appending an item's row appends that item to what is read back. |
| Todo.Initialize | 1113/todo.py:25-30 | A missing file is created holding the header. An existing file is left alone. |
| Todo.Load | 1113/todo.py:34-49 | A missing file loads as no items. |
| Todo.AppendRow | 1113/todo.py:52-62 | The file gains exactly the item's row at the end, after initialisation. |
| Todo.WriteAll | 1113/todo.py:65-72 | The header first, then one row per item. |
| Todo.WriteAllConsistent | 1113/todo.py:65-72 | A rewritten file starts with the header and reads back as the list. |
| Todo.Startup | 1113/todo.py:92-96 | Memory holds what the file reads as. A missing file gives the header-only file and no items. A headed file that reads is consistent with memory. |
| Todo.NextId | 1113/todo.py:75-79 | 1 for an empty list. Otherwise greater than every id and equal to some id plus one, that is, max + 1. 1106/todo.py:61-65 allocates the same way. |
| Todo.FindIndex | 1113/todo.py:82-87 | The first index holding the id. -1 iff no item has it. |
| Todo.NextIdIsUnknown | 1113/todo.py:75-87 | A freshly allocated id is never found. |
| Todo.AddTodo | 1113/todo.py:101-126 | An empty payload or a blank title is a 400 with nothing changed. Success iff neither holds. Success appends exactly one item with the fresh id (above every existing id), stripped title, given or false flag and the clock's time. The count is the old length plus one, and ids stay distinct. The add of 1106/todo.py:79-111 is the same. |
| Todo.AddTodoKeepsConsistent | 1113/todo.py:115-126 | A successful add keeps the file in agreement with memory. |
| Todo.Append | 1113/todo.py:115-126 | The item goes last in memory, and the file becomes the initialised file with the item's row appended. An id above all others keeps ids distinct. |
| Todo.AddKeepsConsistent | 1113/todo.py:123-124 | Appending to memory and appending the row to the file keep them in agreement. |
| Todo.GetTodo | 1113/todo.py:135-141 | A 404 iff no item has the id. Otherwise the first item of the list with that id. |
| Todo.UpdateTodo | 1113/todo.py:144-167 | An unknown id is a 404. Given a found id, it fails iff the new title is blank (400). Success replaces only the found index, keeps id and creation time, applies the given fields, keeps the others, rewrites the file consistently and keeps ids distinct. |
| Todo.SameIdKeepsDistinct | 1113/todo.py:151-164 | Replacing an item by one with the same id keeps ids distinct. |
| Todo.DeleteTodo | 1113/todo.py:170-180 | A 404 iff no item has the id. Otherwise the first such item is removed and returned, the rest keep their order, the count drops by one and the file is rewritten from the rest. |
| Todo.DeleteTodoKeeps | 1113/todo.py:170-180 | A successful delete keeps the file in agreement with memory. With distinct ids, what remains is exactly the items with another id, still distinct. |
| Todo.RemoveAt | 1113/todo.py:177-180 | Removing one index keeps the order of the rest and rewrites the file. With distinct ids, only that id is gone. |
| Todo.DeleteRemovesOnlyId | 1113/todo.py:177 | With distinct ids, removing one index leaves exactly the items with another id, still distinct. |
| Todo.DeleteThenGetFails | 1113/todo.py:135-180 | After deleting an id, looking it up is a 404. |
| Todo.RetrieveTodo | 1106/todo.py:114-123 | The listing is the current list, and its count is the list's length. |
| Todo.AddThenRetrieve | 1106/todo.py:79-123 | After any successful add the listing has one more item, the new one last, and the new id finds it. |
| Todo.FreshLastIsFound | 1106/todo.py:114-123 | An item appended with an id above all others is listed last and is what its id finds. |
| MailTargets.Pick | 1023/send_mail_group_html.py:29-34 | A row gives a recipient iff it has two fields and both are non-blank. The recipient's fields are stripped and non-empty. |
| MailTargets.CollectMembers | 1023/send_mail_group_html.py:25-34 | A recipient is collected iff some usable row gives it. |
| MailTargets.CollectClean | 1023/send_mail_group_html.py:31-34 | Every collected recipient is non-empty and stripped. |
| MailTargets.CollectAppend | 1023/send_mail_group_html.py:25-34 | Rows are collected in input order: collecting two runs of rows is collecting each in turn. |
| MailTargets.ReadTargets | 1023/send_mail_group_html.py:19-35 | No rows give no recipients. The recipients are exactly those given by usable rows after the first, and all are clean. |
| MailTargets.HeaderIgnored | 1023/send_mail_group_html.py:24-28 | The first row is dropped whatever it holds. |
| MailTargets.NoUsableRowNoTargets | 1023/send_mail_group_html.py:29-35 | Only short or blank rows after the header give no recipients. |
| Text.ReplaceCharAppend | 1023/send_mail_group_html.py:40-42 | Replacing a single character distributes over concatenation. |
| MailTargets.EscapeByCharacter | 1023/send_mail_group_html.py:40-42 | The chained replaces escape each character independently: '&', '<' and '>' become entities, and every other character stays itself. |
| MailTargets.StagedZeroHasNoAngle | 1023/send_mail_group_html.py:40-42 | The escaped body has no '<' and no '>'. |
| MailTargets.UnescapeEscape | 1023/send_mail_group_html.py:40-42 | Un-escaping `&lt;`, `&gt;`, then `&amp;` recovers the body. |
| MailTargets.DefaultHtml | 1023/send_mail_group_html.py:38-49 | The page is the fixed head, the body with each '&', '<' and '>' replaced by its entity, and the fixed tail. That middle part has no angle bracket and un-escapes to the body. A `None` or empty body gives nothing between head and tail. |
| MailTargets.Prepare | 1023/send_mail_group_html.py:143-148 | A missing CSV exits 15. No recipients exits 1 before the HTML file is read. Otherwise a missing HTML file exits 15, and delivery goes to exactly the read recipients with the file's text, or the default page when there is no or empty text. |
| Text.Strip | chat_server.py:64 | The result has no whitespace at either end, is empty iff the input is all whitespace, and a trimmed input is its own strip. |
| Text.StripCuts | chat_server.py:64 | The strip is a slice of the input with only whitespace before and after it. |
| Text.StripIdempotent | chat_server.py:82 | Stripping twice is stripping once. |
| Text.SplitMax2 | 0911/server.py:129 | One to three parts that join back with the separator into the input. No part but the last holds it, and fewer than three parts only when the input holds fewer than two. |
| Text.WordsOfJoin | 0925/crawling_KBS.py:37 | `split()` inverts joining non-empty, whitespace-free words with ' '. |
| Text.JoinShape | 0925/crawling_KBS.py:37 | Such a join has no whitespace at the ends and only single ' ' separators. |
| Headlines.CleanText | 0925/crawling_KBS.py:35-37 | No whitespace at either end and no whitespace but single spaces. Same words as the input. Empty iff the input is `None` or all whitespace. |
| Headlines.NoWordsIffAllSpace | 0925/crawling_KBS.py:37 | A text has no words iff it is all whitespace. |
| Headlines.CleanTextIdempotent | 0925/crawling_KBS.py:37 | Cleaning twice is cleaning once. |
| Headlines.Offer | 0925/crawling_KBS.py:79-87 | An empty title or URL, or a seen title, changes nothing. Otherwise the pair is appended and its title marked seen. Distinct titles equal to the seen set are kept. |
| Headlines.OfferKeepsInv | 0925/crawling_KBS.py:83-87 | Adding an unseen title keeps the results' titles distinct and equal to the seen set. |
| Headlines.OfferAll | 0925/crawling_KBS.py:73-87 | Earlier results stay in place and every kept title ends up seen. Each new result is the first acceptable candidate with its title, and the invariant holds. |
| Headlines.AddItem | 0925/crawling_KBS.py:73-87 | A title that cleans to nothing, or an empty URL, is ignored. A new cleaned title is appended with its URL. A seen title changes nothing. |
| Headlines.AddAllOffers | 0925/crawling_KBS.py:90-119 | Calling `add_item` pair by pair is offering the cleaned candidates in the same order. |
| Headlines.OfferAllFromEmpty | 0925/crawling_KBS.py:68-87 | From nothing, titles are distinct and equal the seen set. Each result is the first acceptable candidate with its title, and every acceptable candidate's title is present. |
| Headlines.CollectAllHeadlines | 0925/crawling_KBS.py:68-121 | The whole run over the selectors' pairs collects, in that sense, from their cleaned candidates. |
| Headlines.LastToken | 0925/crawling_KBS.py:96 | The last whitespace-separated word of the selector. `None` iff it has none (where Python raises). |
| Headlines.LastTokenIsLastWord | 0925/crawling_KBS.py:96 | The run of non-whitespace before the trailing whitespace is the last of `split()`'s words. |
| Decimal.NatRoundTrip | 0918/server.py:141 | `str(n)` read back with `int` gives n. |
| Decimal.IntRoundTrip | 1113/todo.py:44-58 | `str(i)` read back with `int` gives i, negative or not. |
| StaticHttp.IsPrivate | 0918/server.py:64-83 | Text that is not an address counts as private. |
| StaticHttp.PrivateV4 | 0918/server.py:73-83 | An IPv4 address is private iff its octets put it in 10/8, 172.16/12, 192.168/16, 127/8 or 169.254/16. |
| StaticHttp.PrivateV6 | 0918/server.py:79-83 | An IPv6 address is private iff it is ::1 or its leading 7 bits are those of fc00::/7 or its leading 10 bits those of fe80::/10. |
| StaticHttp.Block172Edges | 0918/server.py:75 | 172.31.255.255 is private and 172.32.0.0 is not. |
| StaticHttp.LocalClientsNotLookedUp | 0918/server.py:64-83 | 127.0.0.1, 192.168.0.1, ::1 and unparsable text are private; 8.8.8.8 is not. |
| StaticHttp.Utf8 | 0918/server.py:162 | Between one and four bytes per character. ASCII text encodes to its character codes. |
| StaticHttp.Utf8Char | 0918/server.py:162 | One byte below U+0080, two below U+0800, three below U+10000, four above. Each form has its lead byte in the range for that length (C2–DF, E0–EF, F0–F4) and continuation bytes 80–BF, and the payload bits read back as the code point. |
| StaticHttp.Utf8Append | 0918/server.py:162 | Encoding a concatenation is concatenating the encodings. |
| StaticHttp.Respond | 0918/server.py:139-142 | The status and body as given, with a Content-Length that reads back as the body's length. |
| StaticHttp.NotFound | 0918/server.py:147-156 | Status 404 with the fixed page, and an honest Content-Length. |
| StaticHttp.ErrorPage | 0918/server.py:158-167 | The code as status, the UTF-8 page naming code and message, and an honest Content-Length. |
| StaticHttp.SendIndex | 0918/server.py:128-145 | An absent index is a 404. A failed read is a 500 naming the reason. Otherwise 200 with the file's bytes. The length is honest throughout. |
| StaticHttp.DoGet | 0918/server.py:104-125 | The location is asked for iff the client is not private, and it adds nothing to the log line otherwise. Exactly "/" and "/index.html" serve the index; every other path is a 404. Content-Length is honest. |

## Left out

- Threads, locks, accept loops and interleaving. Each locked block and each handler call is one atomic step.
- Socket I/O: `recv(1024)` chunking, `makefile`, `sendall` and decoding errors. Received data is given as whole strings, and a send fails exactly for the sockets in `dead`. Closing a socket is modelled only through its effect on that client's loop: once the client has been removed, the next `recv` raises and the loop stops.
- `errors='ignore'` when encoding: a Dafny string holds no lone surrogates, so nothing would be dropped.
- The exception text inside `chat_server.py`'s whisper error notice: only its fixed prefix is sent in the model.
- Console `print` logging in every file. In `0918/server.py` the log line itself is reduced to its geo suffix.
- The clock: `datetime.utcnow()` in the TODO API is the parameter `now`. The timestamp in `0918/server.py` is left out.
- The location service: `IpApiProvider`'s HTTP call is the parameter `geo`. `make_geo_provider` and `NoopProvider` are left out.
- Address text parsing by `ipaddress.ip_address`: addresses come in already parsed, and IPv6 scope ids are not modelled.
- CSV quoting, `csv.DictReader` keys and file I/O. Rows are already-split fields, read by position under the header the program writes, and a row with fewer than four fields does not read.
- `int()` is modelled on an optional '-' followed by ASCII digits. Whitespace, '+', underscores and other digit scripts are not accepted.
- `str()` and `bool()` conversion of arbitrary JSON payload values: a payload carries its `title` already as text and `done` already as a flag.
- FastAPI's validation, routing and response bodies beyond the fields modelled.
- Python's `lower()` is modelled on ASCII only. No other character lowers to a letter of "true".
- SMTP, TLS, `EmailMessage`, argument parsing and credentials in `1023/send_mail_group_html.py`.
- `read_file_if_exists` for an HTML file that exists: its text is a parameter.
- Fetching, HTML selection, the fallback title selectors and `urljoin` in `0925/crawling_KBS.py`. The (title, URL) pairs come in as a sequence.
- The `Server` and `Date` headers that `send_response` adds, and the status line's reason phrase.
- Todo.EncodeRows: states only the number of rows. Their contents are stated by Todo.EncodeRowsAt and Todo.DecodeEncodeRows.
- Todo.DecodeRows: states only the bound on the number of items. When it reads is stated by Todo.DecodeRowsReadable, and what it reads by Todo.DecodeEncodeRows, Todo.DecodeRowsAppend and Todo.BlankRowsReadEmpty.
- Todo.AddTodo: does not state that the file stays consistent with memory. Todo.AddTodoKeepsConsistent states it.
- Todo.DeleteTodo: does not state consistency or what remains under distinct ids. Todo.DeleteTodoKeeps states both.
- Text.Strip: states the shape of the result. That it is a slice of the input is stated by Text.StripCuts.
- StaticHttp.Utf8: states the length bounds and the ASCII case. The byte forms are stated by StaticHttp.Utf8Char and the per-character split by StaticHttp.Utf8Append.
- Todo.Load: states only the missing-file case. Existing files are covered by Todo.Startup and Todo.WriteAllConsistent.
- StaticHttp.IsPrivate: states only the unparsable case. The networks are stated by StaticHttp.PrivateV4 and StaticHttp.PrivateV6.
- RoomServer.Loop: states only the registry facts. What each line does is stated by RoomServer.HandleLine.
- ListChat.Loop: states the room facts, the departures, and that a closed socket reads nothing more. What each text does is stated by ListChat.HandleText, where the loop stops by ListChat.LoopStopsAtQuit, and that a chat text is fanned out first by ListChat.LoopChatReachesOthers.
- RoomServer.Session: states the rejection condition and the invariant. What is sent is stated by RoomServer.RejectedSessionIsSilent, RoomServer.JoinReachesEveryone and RoomServer.SessionEndReleasesName.
- ListChat.Session: states that the socket ends without a name entry, that the invariant holds, and that no departure is announced twice. Its sends are stated by ListChat.SessionAnnouncesJoin, ListChat.SessionSaysGoodbye and ListChat.ClosedByJoinIsSilentAfter.
