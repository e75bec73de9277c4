# TCP chat: line protocol and client loop in Dafny

This project models the two sequential rule sets of a small TCP chat written
in Python and proves properties of them:

- **The server's per-connection handler** (`handle_client` in `servidor.py`).
  It iterates over the lines of the connection. Each line loses its trailing
  `\n`/`\r` characters. An empty result is skipped. Otherwise the handler
  takes a timestamp, asks the store to insert the message, and writes back
  either `Mensaje recibido: <timestamp>` or the fixed error line. A failed
  reply write ends the handler.
- **The interactive client** (`should_exit` and the loop of `main` in
  `cliente.py`). It strips each console line. An exit keyword ends the
  session, and a blank line is skipped. Any other line is sent followed by
  `\n`, and then exactly one reply line is read. An empty read means the
  server closed the connection and ends the loop.

Modules:

- `Text` (`text.dfy`) models the `str` operations both programs use. These
  are `rstrip("\n\r")`, `strip()` with Python's whitespace set, a
  character-wise `casefold()`, and the line splitting of a socket file opened
  with `newline="\n"`.
- `Server` (`server.dfy`) models the handler as a pure function `Serve` /
  `HandleClient` of the connection's lines, the client IP and an oracle
  `Env`. For the `j`th insert attempt, the oracle gives the timestamp
  (`clock`), the boolean `insert_message` returns (`stored`), and whether
  the reply write succeeds (`delivered`). The result is the records added,
  the replies written, and whether the handler ended on a lost reply. The
  references `Messages`, `Attempts` and `Saved` describe what it should do,
  and `ServeSpec` proves that it does.
- `Client` (`client.dfy`) models `ShouldExit`, the per-line decision
  `Decide` and the loop `Loop` / `Run`. The loop runs over the console
  lines, the sequence of `readline` results (`""` once they run out), and an
  oracle telling which send raises `BrokenPipeError`. It produces the events
  on the connection and the reason the loop ended. The reference `Intended`
  gives the messages the user asks to send.
- `Session` (`session.dfy`) connects the two over one connection. The server
  reads the bytes the client writes, split into lines again, and the client
  reads the server's bytes the same way. `EachMessageAnsweredOnce` proves
  the end-to-end property: the client writes exactly the messages the server
  attempts, and it reads the server's replies in order, one per message. The
  exception is a lost reply: then the last message gets an empty read, and
  the client stops there.

The handler skips a line only when it is empty once its trailing `\n`/`\r`
are removed (`servidor.py` lines 89-91, "ignore empty lines"). Spaces are not
removed, so a line of spaces is stored and answered, and
`Server.SpacesAreStored` states this. `insert_message` is annotated
`-> None` but returns `True` or `False`. The model treats its result as a
boolean.

## Model

| member | source | states |
|---|---|---|
| Text.RStripTerminators | servidor.py:89 | the content is no longer than the line, and it is empty or does not end in `\n` or `\r` |
| Text.RStripTerminatorsSpec | servidor.py:89 | `rstrip("\n\r")` keeps a prefix of the line that does not end in `\n` or `\r`, and removes only those characters |
| Text.RStripByAppended | servidor.py:89 | appending only stripped characters to a text that does not end in one is undone exactly by the strip |
| Text.Strip | cliente.py:33 | the stripped text has no whitespace at either end and is no longer than the input |
| Text.StripFixedPoints | cliente.py:21 | `strip()` leaves a text unchanged if and only if it has no whitespace at either end |
| Text.StripIdempotent | cliente.py:21 | stripping twice is stripping once |
| Text.StripPadded | cliente.py:21 | `strip()` removes exactly the whitespace put around a stripped text |
| Text.StripIsInfix | cliente.py:33 | the stripped text is a contiguous piece of the input with only whitespace on either side |
| Text.StripKeepsChars | cliente.py:33 | every character of the stripped text occurs in the input |
| Text.SplitLines | servidor.py:86-88 | iterating a socket file yields lines that concatenate back to the stream, none empty and none with a newline before its last character, each but the last ending in its newline, so the stream is cut right after every newline and nowhere else |
| Text.SplitLinesExample | servidor.py:88 | a last line without its newline is still yielded, as a line of its own |
| Text.ConcatAppend | servidor.py:100 | the text written for two runs of lines is the text of the first followed by that of the second |
| Text.FoldChar | cliente.py:21 | folding a character leaves no ASCII capital |
| Text.FoldKeepsSpace | cliente.py:21 | folding never turns whitespace into non-whitespace, nor the reverse, so it commutes with `strip()` at the ends |
| Text.CaseFold | cliente.py:21 | the modelled `casefold()` keeps the length and leaves no ASCII capital |
| Text.CaseFoldIdempotent | cliente.py:21 | folding an already folded text changes nothing |
| Text.SplitConcatLines | servidor.py:88 | a stream made of complete lines is read back as exactly those lines |
| Server.Render | servidor.py:96-99 | a reply text starts with `Mensaje recibido: ` exactly when the insert succeeded, and the rest of it is then the timestamp; the error line does not start that way |
| Server.RenderInjective | servidor.py:96-99 | different replies have different texts, so the client can tell them apart and read the timestamp back |
| Server.Written | servidor.py:100 | one line per reply, in the same number, each ending in the newline the handler appends |
| Server.Serve | servidor.py:88-101 | from any point of the loop: at most one reply per remaining line, and at most one record per reply, plus one for an attempt whose reply was lost |
| Server.Messages | servidor.py:88-92 | each content handed to the store is non-empty and does not end in `\n` or `\r`, at most one per line |
| Server.AttemptsSpec | servidor.py:100-103 | the handler keeps making attempts while replies are delivered, and stops short only right after an undelivered reply |
| Server.Saved | servidor.py:95 | every record added carries the connection's IP and one of the attempted contents |
| Server.ServeReplies | servidor.py:93-100 | the `j`th reply is the acknowledgment quoting `clock(j)` when insert `j` succeeded, and the error line otherwise |
| Server.ServeRecordShape | servidor.py:80-95 | every record carries the connection's IP and a non-empty content without a trailing terminator |
| Server.HandleClient | servidor.py:78-107 | at most one reply per non-empty line; reply `j` answers attempt `j`; records carry the IP and a non-empty content |
| Server.ServeSpec | servidor.py:88-107 | the handler makes `Attempts` attempts on the non-empty contents in order, keeps exactly the successful inserts, writes a reply per attempt except a lost last one, and ends on a lost reply exactly when a write fails |
| Server.ServeProgress | servidor.py:100-103 | how many replies are written, and whether the handler ends on a lost reply, is fixed by which writes fail |
| Server.ServeRecords | servidor.py:93-95 | the records added are exactly the attempted contents whose insert succeeded, in order, stamped with their attempt's timestamp |
| Server.HandleClientSpec | servidor.py:78-107 | `ServeSpec` for a whole connection |
| Server.AllDeliveredSpec | servidor.py:88-101 | when no write fails, every non-empty line gets exactly one reply, and every successful insert is kept, in order |
| Server.SkipsEmptyLine | servidor.py:90-92 | a line that is empty after the strip causes no insert and no reply, and the rest is handled as if it were absent |
| Server.SpacesAreStored | servidor.py:89-97 | a line of spaces is not empty after the strip, so it is stored and acknowledged |
| Server.AckMatchesRecord | servidor.py:93-100 | reply `j` is `Mensaje recibido: ` plus `clock(j)` exactly when insert `j` succeeded, and then the store holds message `j` with that same timestamp; otherwise it is the fixed error line |
| Server.StoreOutcomeDoesNotAffectProgress | servidor.py:96-101 | a failed insert does not end the connection: the number of replies and the ending do not depend on the store's answers |
| Server.NothingAfterLostReply | servidor.py:100-103 | after a failed reply write, later lines are neither stored nor answered |
| Server.WrittenAreLines | servidor.py:96-100 | every reply is written as its text followed by exactly one newline, with no newline inside |
| Server.RepliesAreLines | servidor.py:93-100 | with single-line timestamps, everything the handler writes is complete lines |
| Client.ShouldExit | cliente.py:17-22 | no text means exit, and an exiting text strips to four or five characters |
| Client.ShouldExitIgnoresSpace | cliente.py:21 | `should_exit(s) == should_exit(s.strip())` |
| Client.ExitKeywordRecognised | cliente.py:21-22 | a text whose folded core is one of `éxito`, `exito`, `exit`, `salir`, with any whitespace around it, exits |
| Client.ShouldExitSound | cliente.py:21-22 | conversely, an exiting text is such a keyword with whitespace around it |
| Client.ShouldExitOnKeywords | cliente.py:21-22 | `"EXIT"` and `" salir "` exit |
| Client.ShouldExitOnOthers | cliente.py:21-22 | `""` and `"hola"` do not exit |
| Client.Decide | cliente.py:33-41 | a line the client sends is non-empty, stripped and not an exit keyword |
| Client.DecideSpec | cliente.py:33-45 | a console line ends the loop exactly when it is an exit keyword, is skipped exactly when it strips to nothing, and is otherwise sent as exactly its stripped text |
| Client.IntendedStep | cliente.py:31-45 | the messages the user asks to send, line by line: nothing from an exit keyword on, nothing for a blank line, and the stripped text of any other line, in order |
| Client.Run | cliente.py:31-56 | on any console lines, replies and broken sends, sends and reads alternate, one read after each send, and only the last read may be empty |
| Client.Loop | cliente.py:31-56 | sends and reads alternate, one read after each send, and only the last read may be empty |
| Client.AlternatesByPosition | cliente.py:44-55 | sends are at even positions and reads at odd ones, and an empty read is always the last event |
| Client.WantedAreSent | cliente.py:37-45 | every intended message comes from a send decision |
| Client.IntendedAreClean | cliente.py:33-45 | every intended message is the stripped text of a console line, non-empty and not an exit keyword |
| Client.LoopSends | cliente.py:31-55 | the loop sends the first `Reached` intended messages in order, each with one `\n`, and reads one reply after each |
| Client.ReachedSpec | cliente.py:44-55 | the sends reached never broke the pipe, all but the last got a non-empty reply, and the loop stops short only on an empty reply or a broken pipe |
| Client.LoopClosedEnding | cliente.py:51-55 | the loop reports a closed server exactly when its last read was empty |
| Client.LoopBrokenEnding | cliente.py:44-49 | otherwise it reports a broken pipe exactly when intended messages were left unsent |
| Client.LoopExitEnding | cliente.py:32-39 | otherwise it reports an exit request exactly when an exit keyword was typed |
| Client.LoopHangUp | cliente.py:51-55 | the loop ends on a closed server exactly when its trace ends in an empty read |
| Client.LoopStopsAtQuit | cliente.py:37-39 | nothing after an exit decision affects the loop or the intended messages |
| Client.LoopSkipsBlank | cliente.py:40-41 | a skip decision can be removed without changing the loop or the intended messages |
| Client.RunSends | cliente.py:31-56 | the client sends, in order, the first `Reached` messages the user asks to send, as one line each, and reads one reply after each |
| Client.RunEnding | cliente.py:31-56 | why the client stops, in terms of its reads, its unsent messages and the exit keywords typed |
| Client.ExitIgnoresRest | cliente.py:37-39 | no console line at or after an exit keyword is sent |
| Client.BlankIsSkipped | cliente.py:40-41 | a line that strips to nothing is skipped, not taken for an exit |
| Client.BlankLineIgnored | cliente.py:40-41 | a blank console line is as if it had not been typed |
| Client.ReachedAllAnswered | cliente.py:51-55 | against non-empty replies and no broken pipe, the client gets through one message more than there are replies, or all of them |
| Session.ServerReadsMessages | servidor.py:88-92 | the server passes to the store exactly the messages the client writes, one per line |
| Session.LinesSurviveWire | cliente.py:45 | lines without an inner newline reach the server one by one, intact |
| Session.WritesAccumulate | cliente.py:45-46 | each message is written and flushed on its own, so the bytes sent after `n` messages are the start of the bytes for all of them |
| Session.IntendedAreSendable | cliente.py:33-45 | every message the client sends is one non-empty line that does not end in `\r` |
| Session.RepliesSurviveWire | servidor.py:100 | the replies reach the client one per `readline`, and none is empty |
| Session.ServerAnswers | servidor.py:88-103 | against the client's lines, the server writes one reply per attempt except a lost last one, and attempts every message when nothing is lost |
| Session.ClientReachesAttempts | cliente.py:44-55 | the client gets through exactly as many messages as the server attempts |
| Session.EachMessageAnsweredOnce | cliente.py:31-56 | the client writes exactly the messages the server attempts, in order, and reads the server's replies in order, one per message, plus an empty read exactly when the server lost a reply |
| Session.ServerSeesWhatClientSends | servidor.py:88-107 | the server, fed the lines the client actually writes, does exactly what it does on all the intended messages |
| Session.PrefixAnsweredAlike | servidor.py:88-107 | the server behaves the same on just the messages it attempts as on all of them |

## Left out

- Sockets, `makefile`, `accept`, `bind` and `listen` (`init_server_socket`, `serve_forever`) are I/O plumbing. Each direction of a connection is modelled as the text written to it. `Text.SplitLines` splits that text into the lines `for line in rfile` or `readline` return.
- Threads and daemon handlers are left out. Each connection is handled independently, and one connection is modelled.
- SQLite (`init_db`, the SQL in `insert_message`, AUTOINCREMENT ids) is replaced by the oracle `Env.stored`. A successful insert appends one record, and a failed one appends nothing.
- `datetime.now().isoformat` is replaced by the oracle `Env.clock`. The end-to-end lemmas assume its timestamps contain no newline.
- Text.FoldChar: `casefold()` is modelled only for ASCII capitals, `É` and the long s `ſ`. These are the characters that matter for the exit keywords. Other foldings, such as `ß` to `ss`, are not modelled, because they change the length of the text.
- Text.CaseFold: `casefold()` is modelled character by character, with the foldings of `Text.FoldChar`. Python's foldings that change the length of a text, such as `ß` to `ss`, are left out, so "keeps the length" holds of the model only.
- UTF-8 encoding and decoding are left out, and so is a decoding error ending the handler. Texts are sequences of characters.
- Console `print` output and logging are left out, and so are the exception handlers that only print (`servidor.py` lines 102-107, `cliente.py` lines 59-64).
- A `ConnectionResetError` while the server reads is not separated from the end of the stream. Both end the handler without a further reply.
- `EOFError` and `KeyboardInterrupt` at the console are modelled as the end of the sequence of console lines.
- A `ConnectionResetError` from the client's `wfile.write` or `flush` (`cliente.py` lines 45-46) is not a `BrokenPipeError`. It leaves `main` through the `except OSError` handler (`cliente.py` line 63), not through the `break`. The model treats both alike as a broken send, because the messages written before it are the same either way.
- `ConnectionRefusedError` at client start-up is left out. So is an `OSError` raised by the client's `readline`, which leaves `main` through its exception handler.
- Session.EachMessageAnsweredOnce: stated for a client whose sends never break the pipe, and for one server connection serving one client session. The client loop alone is modelled with any pattern of broken pipes (`Client.RunEnding`).
