# Switchboard connection engine in Dafny

This project models `Connection`, the class in Peas' Switchboard server that
handles one accepted TCP client. The connection:

- authenticates the client from its first line: the shared secret gives a pod, and an API key must match exactly one user;
- reads a header line such as `app_logs.5390f5665a454e77990b0000 option1 option2`;
- starts the named command only if the command set has it;
- funnels all socket IO through one wrapper, which resets the inactivity timer on success and closes the connection as "detected" on a transport fault;
- can splice two sockets together byte for byte (`plug_sockets`).

Layout:

- `wrappers.dfy`: `Option`.
- `ruby_text.dfy`: the Ruby string operations the engine relies on.
  - `String#strip` (whitespace and NUL at both ends).
  - awk-style `split(' ')` and `split(' ', 2)`.
  - `split('.')`, which drops trailing empty pieces.
  - Round-trip lemmas relating these operations to joining.
- `header.dfy`: the header parse and the command name.
- `credentials.dfy`: the authentication decision.
- `socket.dfy`: a socket. The peer's data is a byte string plus how the stream ends (a clean hang-up or a fault). The socket also holds the bytes written to it, a write fault and an open/closed flag. A `Socket` class carries out one call at a time.
- `session.dfy`: every operation of the engine as a function on a snapshot value (`Conn`), and the protocol's properties proved about those functions.
- `connection.dfy`: the `Connection` class. Its fields are the instance variables the Ruby methods update in place. Each method is proved to leave `Snapshot()` equal to what the matching `Session` function gives, so every property proved in `Session` holds of the object.

Collaborators are parameters:

- the command set (`Commands.instance_methods`) is a set of names;
- the `peas.switchboard_key` setting is an optional string;
- `User.where(api_key:)` is a function from key to the list of matching users;
- the Celluloid timer is a deadline on a logical clock that `Elapse` advances.

## Model

| member | source | states |
|---|---|---|
| Connections.Connection.constructor | switchboard/server/lib/connection.rb:15-21 | a new connection is not kept alive, has no user, and its timer is armed to fire 30*60 seconds later |
| Session.Initial | switchboard/server/lib/connection.rb:13-20 | the initial state holds the given socket, `@keep_alive` false, not terminated, no user, an empty log, and a timer whose clock is the given time and whose deadline is `INACTIVITY_TIMEOUT` = 1800 seconds later |
| Session.Activity | switchboard/server/lib/connection.rb:80-82 | a reset arms the timer to fire a full timeout after the current time and leaves the clock alone |
| Connections.Connection.Activity | switchboard/server/lib/connection.rb:80-82 | `activity` changes only the timer, as `Session.Activity` |
| Connections.Connection.InactivityCallback | switchboard/server/lib/connection.rb:131-133 | the callback sets `terminated` only when `@keep_alive` is false, and changes nothing else |
| Connections.Connection.Elapse | switchboard/server/lib/connection.rb:20 | time passing on the `after` timer ends in the state `Session.Elapse` gives: the timer fires once, if armed and due, and then runs the callback |
| Session.TimeoutTerminatesUnlessKeepAlive | switchboard/server/lib/connection.rb:131-133 | when the armed timer's deadline is reached, the connection is terminated if and only if `@keep_alive` is false, and the timer is disarmed |
| Session.ActivityPostpones | switchboard/server/lib/connection.rb:80-82 | for less than a full timeout after `activity`, the timer does not fire and the connection is not terminated |
| Session.ElapseAdditive | switchboard/server/lib/connection.rb:20 | time passing in two steps has the same effect as in one step, so the timer fires at most once per reset |
| Connections.Connection.Close | switchboard/server/lib/connection.rb:92-98 | `close(type)` adds a closing entry, marked "via client" for `:detected`, only if the socket was open; afterwards the socket is closed |
| Session.CloseIdempotent | switchboard/server/lib/connection.rb:92-98 | `close` keeps the earlier log and adds `Closing(via client)` for `:detected` (`Closing(not via client)` otherwise) only if the socket was open; only the socket's flag and the log change; a second close changes nothing, so a connection logs its closing at most once |
| Session.Io | switchboard/server/lib/connection.rb:121-129 | `io` fails exactly when the socket call raises. On success it returns the call's value, applies the call and resets the timer. On a fault it is `close(:detected)` with the timer untouched |
| Connections.Connection.Io | switchboard/server/lib/connection.rb:121-129 | the `io` wrapper ends in the result and state `Session.Io` gives |
| Session.ClosedSocketFails | switchboard/server/lib/connection.rb:121-129 | on a closed socket every IO call returns false and changes nothing: no log entry and no timer reset |
| Connections.Connection.ReadLine | switchboard/server/lib/connection.rb:109-114 | `read_line` ends as `Session.ReadLine`: `nil` for both a false and a nil result |
| Session.ReadLineResult | switchboard/server/lib/connection.rb:109-114 | `read_line` returns the next line, with its terminator, when one can be read, and `nil` otherwise; a line read consumes exactly that line and resets the timer |
| Connections.Connection.ReadPartial | switchboard/server/lib/connection.rb:101-106 | `read_partial(bytes)` ends as `Session.ReadPartial`: the bytes `recv` returns, or `nil` after a fault |
| Connections.Connection.WriteLine | switchboard/server/lib/connection.rb:117-119 | `write_line` is `puts` through the IO wrapper, as `Session.WriteLine` |
| Session.WriteLineOnOpen | switchboard/server/lib/connection.rb:117-119 | on an open socket the line plus a terminator is appended to what was sent, unless the peer is gone, in which case the socket ends closed; nothing else but the timer and log changes |
| Sockets.Step | switchboard/server/lib/connection.rb:101-119 | the socket calls the IO methods make. A closed socket raises `IOError`. A raise changes nothing. Reads take bytes from the front of the unread data. `recv(n)` returns 1..n bytes. Writes append. A write raises exactly when the socket is closed or the peer is gone |
| Sockets.GetsFrom | switchboard/server/lib/connection.rb:110 | `gets` returns the next line with its terminator; at a clean end with nothing left it returns `nil`; on a broken stream with no complete line it raises the fault |
| Sockets.PutsData | switchboard/server/lib/connection.rb:118 | `puts` sends either the line unchanged or the line plus one terminator; it is sent unchanged exactly when it already ends in a terminator; either way what is sent ends in a terminator |
| Sockets.Socket.Perform | switchboard/server/lib/connection.rb:123 | one socket call on the object ends in the state `Step` gives |
| Sockets.Socket.Close | switchboard/server/lib/connection.rb:96 | `@socket.close` leaves the socket closed and changes nothing else |
| Credentials.Decide | switchboard/server/lib/connection.rb:62-68 | a key shorter than 64 characters gives no user. A long key equal to the secret gives `:pod`. Otherwise it gives the user exactly when one user has the key, and that user is the lookup's only element |
| Credentials.SecretIgnoresUsers | switchboard/server/lib/connection.rb:63-64 | for a key equal to the secret the decision does not depend on the user store, and a long such key gives `:pod` |
| Credentials.AuthenticatedIff | switchboard/server/lib/connection.rb:62-73 | authentication succeeds if and only if the key is at least 64 characters and is the secret or belongs to exactly one user |
| Connections.Connection.Authenticate | switchboard/server/lib/connection.rb:59-77 | `authenticate` ends in the result and state `Session.Authenticate` gives |
| Session.AuthenticateDecides | switchboard/server/lib/connection.rb:59-77 | Without a credential line, nothing is sent and there is no user. Otherwise `@current_user` is the decided principal, and success holds iff that principal is not nobody. Exactly `AUTHORISED` or `UNAUTHORISED` is sent when the peer can receive it. The socket is closed on refusal. Only the socket, timer, user and log change |
| Session.ShortCredentialRejected | switchboard/server/lib/connection.rb:61-76 | a stripped credential shorter than 64 characters is refused: exactly `UNAUTHORISED\n` is sent, if the peer can receive it, and the socket is closed |
| Session.RejectedReadsNoHeader | switchboard/server/lib/connection.rb:27 | `dispatch` stops at a refused credential exactly when the credential line decides nobody; the socket is then closed, nothing after the credential is read and nothing is parsed |
| Connections.Connection.Dispatch | switchboard/server/lib/connection.rb:23-56 | `dispatch` ends in the outcome and state `Session.Dispatch` gives |
| Connections.Connection.Route | switchboard/server/lib/connection.rb:42-55 | recording the parsed header and routing it end in the outcome and state `Session.Route` gives |
| Session.DispatchHeaderRoutes | switchboard/server/lib/connection.rb:31-55 | after authentication, dispatch ends with no header, a blank header, a dots-only token, a started handler or a warning |
| Session.DispatchHeaderReads | switchboard/server/lib/connection.rb:31-36 | with no header line, dispatch returns before any parsing and leaves `@command` and `@options` alone; with one, it routes exactly that line on an open socket |
| Session.RouteAllowList | switchboard/server/lib/connection.rb:42-55 | a handler is started only for a name in the command set. An unknown name adds one warning. Neither touches the socket. `@command` and `@options` are the header's parse. The outcome is blank exactly when the header is blank |
| Session.DispatchHeaderAllowList | switchboard/server/lib/connection.rb:48-55 | after authentication, a started command is in the command set; a warned one is not and its warning is the last log entry; in both cases the connection stays open |
| Session.DispatchAllowList | switchboard/server/lib/connection.rb:23-56 | `dispatch` starts a handler only for a name in the command set and only for an authenticated user; an unknown name only warns and leaves the connection open |
| Session.DispatchParsesHeader | switchboard/server/lib/connection.rb:38-46 | the command started or warned about is named by the line after the credential, and `@command`/`@options` are that line's parse; without that line they are unchanged |
| Headers.ParseHeader | switchboard/server/lib/connection.rb:38-44 | a header is blank iff the line is all whitespace and NUL; otherwise the options are non-empty runs without whitespace and the command's pieces hold no dot; `ParseHeaderFields` gives the full parse |
| Headers.CommandName | switchboard/server/lib/connection.rb:46 | the handler name is the first element of `@command`, and there is none when `@command` is empty |
| Headers.ParseHeaderFields | switchboard/server/lib/connection.rb:38-44 | a header is blank iff its stripped text has no whitespace-separated token; otherwise `@command` is the first token split at its dots and `@options` are the remaining tokens, in order |
| Headers.CommandNameOfLine | switchboard/server/lib/connection.rb:42-46 | the command name is the first token up to its first dot, and there is none exactly when the token is made only of dots |
| Headers.HeaderOfParts | switchboard/server/lib/connection.rb:29-46 | a line `name.id opt1 opt2 …` followed by a terminator parses to command `[name, id]`, those options and handler `name` |
| Headers.StripLine | switchboard/server/lib/connection.rb:40 | `strip` removes the line terminator `gets` leaves on a line |
| RubyText.Strip | switchboard/server/lib/connection.rb:61 | `strip` gives a contiguous slice of the input; everything removed before and after it is whitespace or NUL, the slice has neither at either end, and it is empty iff the input is all whitespace and NUL |
| RubyText.Fields | switchboard/server/lib/connection.rb:44 | every element of `split(' ')` is a non-empty run without whitespace; there are none iff the input is all whitespace; joined together they are exactly the input's non-whitespace characters, in order |
| RubyText.FieldsAtSpace | switchboard/server/lib/connection.rb:44 | `split(' ')` cuts at every whitespace character: the fields of `a`, a whitespace character, then `b` are the fields of `a` followed by the fields of `b`; with `FieldsOfToken` and the all-whitespace case this fixes the fields of every string |
| RubyText.FieldsOfJoin | switchboard/server/lib/connection.rb:44 | `split(' ')` of tokens joined by single spaces gives back the tokens |
| RubyText.SplitTwo | switchboard/server/lib/connection.rb:40 | `split(' ', 2)` gives at most two parts |
| RubyText.SplitTwoFields | switchboard/server/lib/connection.rb:40-44 | the first part of `split(' ', 2)` is the first field, and `split(' ')` of the second part gives the other fields |
| RubyText.DotSplit | switchboard/server/lib/connection.rb:42 | `split('.')` gives every dot-separated piece in order, with only the empty pieces at the end dropped: the result begins the list of all pieces, every piece after it is empty, its last piece is non-empty, and no piece holds a dot; `DotSplitHead` gives its first element |
| RubyText.JoinPieces | switchboard/server/lib/connection.rb:42 | joining the dot-separated pieces with dots gives back the string |
| RubyText.PiecesOfJoin | switchboard/server/lib/connection.rb:42 | splitting dot-free words joined with dots gives back the words |
| RubyText.DotSplitHead | switchboard/server/lib/connection.rb:42-46 | `split('.')` is empty iff the string is all dots; otherwise its first element is the part before the first dot |
| Session.PlugSocketsFrame | switchboard/server/lib/connection.rb:136-143 | the relay only consumes the source's unread data (what is left is a suffix of it, and nothing else about the source changes), and only writes to and closes the destination; it closes the destination exactly when it ends normally |
| Session.PlugSocketsChunkSizes | switchboard/server/lib/connection.rb:138 | every chunk the relay copies is between 1 and 512 bytes long |
| Session.PlugSocketsWrites | switchboard/server/lib/connection.rb:137-140 | the destination receives exactly the chunks, in order, after what it already had |
| Session.PlugSocketsReadsPrefix | switchboard/server/lib/connection.rb:137-140 | the chunks, joined, are a prefix of what the source sent, in the order it was sent |
| Session.PlugSocketsEnds | switchboard/server/lib/connection.rb:136-143 | the relay ends normally exactly when the source's stream ends cleanly before any write fails (and then everything the source sent was copied) or the first write raises `EOFError` (and then the destination is closed and nothing copied). Into a writable destination everything is copied, and the end is `EOFError` handled or the source's fault propagated |
| Session.RecvChunk | switchboard/server/lib/connection.rb:138 | one `readpartial(512)` either raises and changes nothing (`IOError` when closed, the end-of-stream fault when nothing is left) or takes 1 to 512 bytes off the front |
| Session.WriteChunk | switchboard/server/lib/connection.rb:139 | one `write` raises exactly when the socket is closed or the peer is gone, and otherwise appends the data |
| Connections.Connection.PlugSockets | switchboard/server/lib/connection.rb:136-143 | the update loop ends with the result and both sockets' states that `Session.PlugSockets` gives, so the `PlugSockets…` lemmas hold of it |

## Left out

- `check` (connection.rb:87-89) loops forever with no exit condition, even after the socket fails, so there is no end state to describe.
- The Celluloid machinery is left out: the actor, `async.send`, pubsub, the logger's sinks and the real timer thread. Dispatch returns the handler it would start (`Invoked(name)`). `terminate` is a `terminated` flag. Log lines are entries in `log`.
- `terminate` stops the actor in the source; the model does not close the socket when the timer fires, because the code does not.
- Exceptions the IO wrapper does not rescue (connection reset and similar) are left out. The socket raises only the four rescued faults.
- The model does not describe how the peer's bytes arrive over time. All the data the peer will send is present at the start, so `recv(n)` returns `min(n, available)` bytes and never blocks.
- `peeraddr` is taken as always succeeding.
- The blocks `read_line` and `read_partial` yield to are left out.
- The `IOError` that `close` swallows is not modelled: closing a socket never raises here.
- The command handlers in `switchboard/server/commands` are not part of this model.
- `User.where` and `Setting.retrieve` are not part of this model.
- `config/settings.rb`, `config/boot.rb` and `spec/spec_helper.rb` are not part of this model.
- Connections.Connection.PlugSockets: requires two distinct socket objects. Ruby accepts the same socket for both arguments (echoing the peer's bytes back to it); the model does not cover that case, because `Session.PlugSockets` describes the source and the destination as two separate states.
- Session.PlugSocketsEnds: a socket's write fault is fixed for its whole life, so every write to a destination succeeds or every write fails. A destination whose peer leaves after some chunks were written is not modelled: in Ruby such a relay ends after a partial copy, normally if the failing write raises `EOFError` and by propagating the fault otherwise.
- Connections.Connection.PlugSockets: the method's contract gives the result and both sockets' final states. It does not give the list of chunks; the facts about the chunks are stated on `Session.PlugSockets` by the `Session.PlugSockets…` lemmas.

The model keeps these behaviours of the code as written, even where the comments in `connection.rb` (:29-30, :33, :38-39) suggest otherwise:

- The header is stripped and split at the first run of whitespace, not at the first space character.
- The options are split at runs of whitespace, with empty options dropped.
- `@command` holds every dot-separated piece of the first token, with trailing empty pieces dropped, not a (name, residual) pair. Only its first element names the handler.
- A missing header line returns without closing the socket.
- A missing credential line makes `nil.strip` raise. No reply is sent; the model's outcome is `NoCredential` / `CredentialMissing`.
- A blank header makes `parts[0].split` fail on `nil`; the model's outcome is `BlankHeader`.
- A token made only of dots makes `@command[0]` nil, and `nil.to_sym` fails; the model's outcome is `NoCommandName`.
- `read_line` returns the line with its terminator; `strip` removes it where the line is used.
- In `plug_sockets`, `rescue EOFError` covers the whole loop: an `EOFError` from the write ends the relay and closes the destination just as one from the read does. Any other fault, on either socket, propagates to the caller (`Propagated`) and does not close anything.
- `rescue EOFError` around the header read (connection.rb:34-35) never fires, because `io` already rescues `EOFError`.
- In `user = User.where(...) unless user == :pod` (connection.rb:66), `user` is always nil at that point, so the lookup always runs.
