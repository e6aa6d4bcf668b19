/**
 * The connection engine's behaviour as functions on a snapshot of one
 * connection's state: the IO wrapper, closing, the inactivity timer,
 * authentication, header dispatch and the socket relay. The `Connection`
 * class carries out each of these step by step and is proved to end in the
 * state these functions give; the properties of the protocol are proved here.
 */
module Session {
  import opened Wrappers
  import opened RubyText
  import opened Headers
  import opened Credentials
  import opened Sockets

  /** Seconds without socket activity after which the connection is terminated. */
  const InactivityTimeout := 30 * 60

  /** The most bytes the relay reads from its source at a time. */
  const RelayChunk := 512

  /** `close(:normal)` or `close(:detected)` (the peer went away). */
  datatype CloseKind = Normal | Detected

  /** What the engine logs. */
  datatype LogEvent = Received(host: string, port: int) | Closing(viaClient: bool) | UnknownCommand(name: string)

  /** The inactivity timer on a logical clock: it fires once when the clock reaches `deadline` while `armed`. */
  datatype Timer = Timer(clock: nat, deadline: nat, armed: bool)

  /**
   * What the engine consults but does not own: the command set
   * (`Commands.instance_methods`), the shared secret (`peas.switchboard_key`)
   * and the user store's `api_key` lookup.
   */
  datatype Env = Env(commands: set<string>, secret: Option<string>, users: string -> seq<UserId>)

  /** A snapshot of one connection: its socket, timer and instance variables, and what it has logged. */
  datatype Conn = Conn(
    socket: SocketState,
    timer: Timer,
    keepAlive: bool,
    terminated: bool,
    currentUser: Principal,
    command: seq<string>,
    options: seq<string>,
    host: string,
    port: int,
    log: seq<LogEvent>)

  /** The value of `io`: the block's result, or `false` after an IO failure. */
  datatype IoReturn = Value(value: Option<string>) | Failed

  /** `authenticate` returns true or false, or fails on `nil.strip` when no credential line arrives. */
  datatype AuthResult = Authorised | Unauthorised | NoCredential

  /**
   * How `dispatch` ends: the handler it starts, the warning for an unknown
   * command, an early return, or the `NoMethodError` it raises on a missing
   * credential, an all-blank header or a token made only of dots.
   */
  datatype DispatchOutcome =
    | CredentialMissing
    | Rejected
    | NoHeader
    | BlankHeader
    | NoCommandName
    | Invoked(name: string)
    | Warned(name: string)

  /** `plug_sockets` returns after the source's `EOFError`, or lets another fault propagate. */
  datatype RelayEnd = Finished | Propagated(fault: Fault)

  /** A new connection on socket `s` at time `now`: `@keep_alive` false and the timer set to fire after the timeout. */
  function Initial(s: SocketState, now: nat): (c: Conn)
    ensures !c.keepAlive && !c.terminated && c.currentUser == Nobody && c.log == []
    ensures c.socket == s && c.timer.clock == now
    ensures c.timer.armed && c.timer.deadline - c.timer.clock == InactivityTimeout
  {
    Conn(s, Timer(now, now + InactivityTimeout, true), false, false, Nobody, [], [], [], 0, [])
  }

  // ------------------------------------------------------------------ timer

  /** `activity`: the timer is reset to fire a full timeout from now. */
  function Activity(t: Timer): (t': Timer)
    ensures t'.clock == t.clock && t'.armed && t'.deadline == t.clock + InactivityTimeout
  {
    t.(deadline := t.clock + InactivityTimeout, armed := true)
  }

  /** `inactivity_callback`: terminate unless `@keep_alive` is set. */
  function InactivityCallback(c: Conn): (c': Conn)
  {
    c.(terminated := c.terminated || !c.keepAlive)
  }

  /** `d` seconds pass; if the armed timer's deadline is reached, it fires once and runs the callback. */
  function Elapse(c: Conn, d: nat): (c': Conn)
  {
    var t := c.timer.(clock := c.timer.clock + d);
    if c.timer.armed && t.clock >= c.timer.deadline then InactivityCallback(c.(timer := t.(armed := false)))
    else c.(timer := t)
  }

  // ------------------------------------------------------------ close and io

  /** `close(type)`: logs only while the socket is still open, then closes it. */
  function Close(c: Conn, kind: CloseKind): (c': Conn)
  {
    var logged := if c.socket.closed then c.log else c.log + [Closing(kind == Detected)];
    c.(socket := c.socket.(closed := true), log := logged)
  }

  /**
   * `io { op }`: a call that returns resets the inactivity timer and gives its
   * value; a call that raises one of the rescued faults closes the connection
   * as detected and gives `false`.
   */
  function Io(c: Conn, op: Op): (res: (IoReturn, Conn))
    ensures res.0 == Failed <==> Step(c.socket, op).0.Raised?
    ensures res.0.Value? ==> res.0.value == Step(c.socket, op).0.value
    ensures res.0.Value? ==> res.1 == c.(socket := Step(c.socket, op).1, timer := Activity(c.timer))
    ensures res.0 == Failed ==> res.1 == Close(c, Detected) && res.1.timer == c.timer
  {
    var step := Step(c.socket, op);
    match step.0
    case Returned(v) => (Value(v), c.(socket := step.1, timer := Activity(c.timer)))
    case Raised(_) => (Failed, Close(c.(socket := step.1), Detected))
  }

  /** `read_line`: the line `gets` returns, with `false` and `nil` both giving `nil`. */
  function ReadLine(c: Conn): (res: (Option<string>, Conn))
  {
    var r := Io(c, Gets);
    (if r.0.Value? then r.0.value else None, r.1)
  }

  /** `read_partial(bytes)`: what `recv` returns, with `false` and `nil` both giving `nil`. */
  function ReadPartial(c: Conn, bytes: nat): (res: (Option<string>, Conn))
  {
    var r := Io(c, Recv(bytes));
    (if r.0.Value? then r.0.value else None, r.1)
  }

  /** `write_line(line)`: `puts` through the IO wrapper. */
  function WriteLine(c: Conn, line: string): (res: (IoReturn, Conn))
  {
    Io(c, Puts(line))
  }

  // ---------------------------------------------------------- authenticate

  /** The principal the credential line authenticates. */
  function PrincipalOf(line: string, env: Env): Principal
  {
    Decide(Strip(line), env.secret, env.users)
  }

  /**
   * `authenticate`: reads the credential line, decides the principal, writes
   * `AUTHORISED`, or writes `UNAUTHORISED` and closes.
   */
  function Authenticate(c: Conn, env: Env): (res: (AuthResult, Conn))
  {
    var c0 := c.(currentUser := Nobody);
    var read := ReadLine(c0);
    if read.0.None? then (NoCredential, read.1)
    else
      var p := PrincipalOf(read.0.value, env);
      var c1 := read.1.(currentUser := p);
      if p != Nobody then (Authorised, WriteLine(c1, "AUTHORISED").1)
      else (Unauthorised, Close(WriteLine(c1, "UNAUTHORISED").1, Normal))
  }

  // -------------------------------------------------------------- dispatch

  /** `@socket.peeraddr`: records the peer's host and port and logs the new connection. */
  function RecordPeer(c: Conn): (c': Conn)
  {
    var s := c.socket;
    c.(host := s.peerHost, port := s.peerPort, log := c.log + [Received(s.peerHost, s.peerPort)])
  }

  /**
   * The parsed header line's fate: it sets `@command` and `@options`, then the
   * named handler is started only if the command set has it; otherwise a
   * warning is logged.
   */
  function Route(c: Conn, p: Parse, env: Env): (res: (DispatchOutcome, Conn))
  {
    match p
    case BlankLine => (BlankHeader, c)
    case Parsed(h) =>
      var c1 := c.(command := h.command, options := h.options);
      match CommandName(h)
      case None => (NoCommandName, c1)
      case Some(name) =>
        if name in env.commands then (Invoked(name), c1)
        else (Warned(name), c1.(log := c1.log + [UnknownCommand(name)]))
  }

  /** After authentication: reads the header line; at end of stream returns without parsing. */
  function DispatchHeader(c: Conn, env: Env): (res: (DispatchOutcome, Conn))
  {
    var read := ReadLine(c);
    if read.0.None? then (NoHeader, read.1) else Route(read.1, ParseHeader(read.0.value), env)
  }

  /**
   * `dispatch`: records the peer, authenticates, then reads, parses and
   * routes the header line.
   */
  function Dispatch(c: Conn, env: Env): (res: (DispatchOutcome, Conn))
  {
    var auth := Authenticate(RecordPeer(c), env);
    if auth.0 == NoCredential then (CredentialMissing, auth.1)
    else if auth.0 == Unauthorised then (Rejected, auth.1)
    else DispatchHeader(auth.1, env)
  }

  // ----------------------------------------------------------------- relay

  /** A prefix stays a prefix behind a common head. */
  lemma PrefixAfter(head: string, a: string, b: string)
    requires a <= b
    ensures head + a <= head + b
  {
    assert (head + b)[..|head + a|] == head + b[..|a|];
  }

  /** Dropping the front of a string and then more of it leaves a suffix of the whole. */
  lemma SuffixAfter(head: string, a: string, k: nat)
    requires k <= |a|
    ensures k <= |head + a| && (head + a)[|head + a| - k..] == a[|a| - k..]
  {
  }

  /** What one `readpartial(512)` does: raise and change nothing, or take 1 to 512 bytes off the front. */
  lemma RecvChunk(i: SocketState)
    ensures var r := RecvStep(i, RelayChunk);
      (r.0.Raised? ==> r.1 == i && r.0.fault == (if i.closed then IOFailure else EndFault(i.ending)) && (!i.closed ==> i.inbox == [])) &&
      (r.0.Returned? ==>
        !i.closed && r.0.value.Some? && 1 <= |r.0.value.value| <= RelayChunk &&
        i.inbox == r.0.value.value + r.1.inbox && r.1 == i.(inbox := r.1.inbox))
  {
  }

  /** What one `write(data)` does: raise and change nothing, or append `data`. */
  lemma WriteChunk(o: SocketState, data: string)
    ensures var w := SendStep(o, data);
      (w.0.Raised? <==> o.closed || o.writeFault.Some?) &&
      (w.0.Raised? ==> w.1 == o) &&
      (w.0.Returned? ==> w.1 == o.(outbox := o.outbox + data))
  {
  }

  /**
   * `plug_sockets(incoming, outgoing)`: copies chunks of at most
   * `RelayChunk` bytes from `i` to `o` until a read or a write raises; on
   * `EOFError` from either it closes `o`, any other fault propagates. Gives
   * the end, both sockets' new states and the chunks written.
   */
  function PlugSockets(i: SocketState, o: SocketState): (RelayEnd, SocketState, SocketState, seq<string>)
    decreases |i.inbox|
  {
    var read := RecvStep(i, RelayChunk);
    match read.0
    case Raised(f) =>
      if f == EndOfFile then (Finished, read.1, o.(closed := true), []) else (Propagated(f), read.1, o, [])
    case Returned(data) =>
      var chunk := data.value;
      var write := SendStep(o, chunk);
      if write.0.Raised? then
        if write.0.fault == EndOfFile then (Finished, read.1, write.1.(closed := true), [])
        else (Propagated(write.0.fault), read.1, write.1, [])
      else
        var rest := PlugSockets(read.1, write.1);
        (rest.0, rest.1, rest.2, [chunk] + rest.3)
  }

  /**
   * The relay only reads the source and only writes to or closes the
   * destination; it closes the destination exactly when it finishes normally.
   */
  lemma {:induction false} PlugSocketsFrame(i: SocketState, o: SocketState)
    ensures var res := PlugSockets(i, o);
      |res.1.inbox| <= |i.inbox| && res.1.inbox == i.inbox[|i.inbox| - |res.1.inbox|..]
    ensures var res := PlugSockets(i, o);
      res.1 == i.(inbox := res.1.inbox) && res.2 == o.(outbox := res.2.outbox, closed := res.2.closed) &&
      (res.0 == Finished ==> res.2.closed) &&
      (res.0 != Finished ==> res.2.closed == o.closed)
    decreases |i.inbox|
  {
    var read := RecvStep(i, RelayChunk);
    RecvChunk(i);
    if read.0.Returned? {
      var chunk := read.0.value.value;
      var write := SendStep(o, chunk);
      WriteChunk(o, chunk);
      if write.0.Returned? {
        PlugSocketsFrame(read.1, write.1);
        var left := PlugSockets(read.1, write.1).1.inbox;
        assert PlugSockets(i, o).1.inbox == left;
        SuffixAfter(chunk, read.1.inbox, |left|);
      } else {
        assert PlugSockets(i, o).1 == read.1;
        SuffixAfter(chunk, read.1.inbox, |read.1.inbox|);
      }
    } else {
      assert i.inbox[|i.inbox| - |i.inbox|..] == i.inbox;
    }
  }

  /** The relay writes chunks of 1 to 512 bytes. */
  lemma {:induction false} PlugSocketsChunkSizes(i: SocketState, o: SocketState)
    ensures forall k :: 0 <= k < |PlugSockets(i, o).3| ==> 1 <= |PlugSockets(i, o).3[k]| <= RelayChunk
    decreases |i.inbox|
  {
    var read := RecvStep(i, RelayChunk);
    RecvChunk(i);
    if read.0.Returned? {
      var chunk := read.0.value.value;
      var write := SendStep(o, chunk);
      if write.0.Returned? {
        PlugSocketsChunkSizes(read.1, write.1);
        var rest := PlugSockets(read.1, write.1).3;
        var chunks := [chunk] + rest;
        assert PlugSockets(i, o).3 == chunks;
        forall k | 0 <= k < |chunks|
          ensures 1 <= |chunks[k]| <= RelayChunk
        {
          if k > 0 {
            assert chunks[k] == rest[k - 1];
          }
        }
      } else {
        assert PlugSockets(i, o).3 == [];
      }
    } else {
      assert PlugSockets(i, o).3 == [];
    }
  }

  /** Appending the chunks one after another appends their concatenation. */
  lemma ConcatCons(chunk: string, rest: seq<string>)
    ensures Concat([chunk] + rest) == chunk + Concat(rest)
  {
    assert ([chunk] + rest)[1..] == rest;
  }

  /** What the relay writes to the destination is exactly the chunks, in order. */
  lemma {:induction false} PlugSocketsWrites(i: SocketState, o: SocketState)
    ensures var res := PlugSockets(i, o);
      res.2.outbox == o.outbox + Concat(res.3)
    decreases |i.inbox|
  {
    var read := RecvStep(i, RelayChunk);
    RecvChunk(i);
    if read.0.Returned? {
      var chunk := read.0.value.value;
      var write := SendStep(o, chunk);
      WriteChunk(o, chunk);
      if write.0.Returned? {
        PlugSocketsWrites(read.1, write.1);
        var rest := PlugSockets(read.1, write.1);
        assert PlugSockets(i, o) == (rest.0, rest.1, rest.2, [chunk] + rest.3);
        ConcatCons(chunk, rest.3);
        assert rest.2.outbox == (o.outbox + chunk) + Concat(rest.3);
      }
    }
  }

  /** The chunks are, in order, a prefix of what the source sent. */
  lemma {:induction false} PlugSocketsReadsPrefix(i: SocketState, o: SocketState)
    ensures Concat(PlugSockets(i, o).3) <= i.inbox
    decreases |i.inbox|
  {
    var read := RecvStep(i, RelayChunk);
    RecvChunk(i);
    if read.0.Returned? {
      var chunk := read.0.value.value;
      var write := SendStep(o, chunk);
      if write.0.Returned? {
        PlugSocketsReadsPrefix(read.1, write.1);
        var rest := PlugSockets(read.1, write.1).3;
        assert PlugSockets(i, o).3 == [chunk] + rest;
        ConcatCons(chunk, rest);
        PrefixAfter(chunk, Concat(rest), read.1.inbox);
      }
    }
  }

  /**
   * How the relay ends. It finishes normally exactly when either the
   * source's stream ends cleanly before any write fails, and then everything
   * the source sent has been copied, or the first write raises `EOFError`.
   * Into a writable destination everything is copied and the relay ends with
   * the source's end-of-stream fault.
   */
  lemma {:induction false} PlugSocketsEnds(i: SocketState, o: SocketState)
    ensures var res := PlugSockets(i, o);
      res.0 == Finished <==>
        !i.closed &&
        (if i.inbox == [] then EndFault(i.ending) == EndOfFile
         else !o.closed && (o.writeFault == Some(EndOfFile) || (o.writeFault.None? && EndFault(i.ending) == EndOfFile)))
    ensures var res := PlugSockets(i, o);
      res.0 == Finished && (i.inbox == [] || o.writeFault.None?) ==> Concat(res.3) == i.inbox && res.1.inbox == []
    ensures var res := PlugSockets(i, o);
      !i.closed && !o.closed && i.inbox != [] && o.writeFault == Some(EndOfFile) ==>
        res.0 == Finished && res.3 == [] && res.2 == o.(closed := true)
    ensures var res := PlugSockets(i, o);
      !i.closed && !o.closed && o.writeFault.None? ==>
        Concat(res.3) == i.inbox && res.1.inbox == [] &&
        res.0 == (if EndFault(i.ending) == EndOfFile then Finished else Propagated(EndFault(i.ending)))
    decreases |i.inbox|
  {
    var read := RecvStep(i, RelayChunk);
    RecvChunk(i);
    if read.0.Returned? {
      var chunk := read.0.value.value;
      var write := SendStep(o, chunk);
      WriteChunk(o, chunk);
      if write.0.Returned? {
        PlugSocketsEnds(read.1, write.1);
        var rest := PlugSockets(read.1, write.1);
        var chunks := [chunk] + rest.3;
        assert PlugSockets(i, o) == (rest.0, rest.1, rest.2, chunks);
        ConcatCons(chunk, rest.3);
      }
    }
  }

  // ---------------------------------------------------------------- lemmas

  /** The line `gets` would return next, if the socket is open and one is there. */
  function NextLine(s: SocketState): Option<string>
  {
    if s.closed then None
    else match GetsFrom(s.inbox, s.ending)
      case Line(l, _) => Some(l)
      case _ => None
  }

  /** The unread bytes after the next line. */
  function AfterNextLine(s: SocketState): string
  {
    match GetsFrom(s.inbox, s.ending)
    case Line(_, rest) => rest
    case _ => s.inbox
  }

  /** The line `gets` would return after the next one: the header that follows a credential. */
  function SecondLine(s: SocketState): Option<string>
  {
    if s.closed then None
    else match GetsFrom(s.inbox, s.ending)
      case Line(_, rest) => NextLine(s.(inbox := rest))
      case _ => None
  }

  /** The next line of a stream depends only on whether it is open, its pending bytes and how it ends. */
  lemma NextLineOfSame(s: SocketState, t: SocketState)
    requires s.closed == t.closed && s.inbox == t.inbox && s.ending == t.ending
    ensures NextLine(s) == NextLine(t)
  {
  }

  /**
   * `close` closes the socket and adds one closing entry, marked "via client"
   * for `:detected`, only while the socket is open; nothing else changes, and
   * closing again changes nothing, so it logs at most once.
   */
  lemma CloseIdempotent(c: Conn, first: CloseKind, second: CloseKind)
    ensures Close(Close(c, first), second) == Close(c, first)
    ensures var c' := Close(c, first);
      c' == c.(socket := c.socket.(closed := true), log := c'.log) &&
      c'.log == c.log + (if c.socket.closed then [] else [Closing(first == Detected)])
  {
  }

  /** Once the socket is closed, every IO call reports failure, logs nothing and leaves the timer alone. */
  lemma ClosedSocketFails(c: Conn, op: Op)
    requires c.socket.closed
    ensures Io(c, op) == (Failed, c)
  {
    assert c.socket.(closed := true) == c.socket;
  }

  /** A successful read gives the next line and resets the timer; otherwise `read_line` gives `nil`. */
  lemma ReadLineResult(c: Conn)
    ensures ReadLine(c).0 == NextLine(c.socket)
    ensures NextLine(c.socket).Some? ==>
      ReadLine(c).1 == c.(socket := c.socket.(inbox := AfterNextLine(c.socket)), timer := Activity(c.timer))
  {
  }

  /** `write_line` on an open socket: the line goes out unless the peer is gone; nothing but socket, timer and log changes. */
  lemma WriteLineOnOpen(c: Conn, line: string)
    requires !c.socket.closed
    ensures var c' := WriteLine(c, line).1;
      c' == c.(socket := c'.socket, timer := c'.timer, log := c'.log) &&
      c'.socket.inbox == c.socket.inbox &&
      c'.socket.outbox == c.socket.outbox + (if c.socket.writeFault.Some? then [] else PutsData(line)) &&
      (c'.socket.closed <==> c.socket.writeFault.Some?)
  {
  }

  /**
   * `authenticate` sets `@current_user` to the principal the credential line
   * decides and succeeds exactly when that is not `Nobody`; it answers
   * `AUTHORISED` or `UNAUTHORISED` (when the write can go through), closes the
   * socket on refusal, and without a credential line fails with nothing sent.
   */
  lemma AuthenticateDecides(c: Conn, env: Env)
    ensures var res := Authenticate(c, env);
      res.0 == NoCredential <==> NextLine(c.socket).None?
    ensures var res := Authenticate(c, env);
      res.0 == NoCredential ==> res.1.currentUser == Nobody && res.1.socket.outbox == c.socket.outbox
    ensures var res := Authenticate(c, env); var line := NextLine(c.socket);
      res.0 != NoCredential ==>
        res.1.currentUser == PrincipalOf(line.value, env) &&
        (res.0 == Authorised <==> PrincipalOf(line.value, env) != Nobody) &&
        res.1.socket.inbox == AfterNextLine(c.socket) &&
        res.1.socket.outbox == c.socket.outbox +
          (if c.socket.writeFault.Some? then [] else PutsData(if res.0 == Authorised then "AUTHORISED" else "UNAUTHORISED"))
    ensures var res := Authenticate(c, env);
      res.0 == Unauthorised ==> res.1.socket.closed
    ensures var res := Authenticate(c, env);
      res.1 == c.(currentUser := res.1.currentUser, socket := res.1.socket, timer := res.1.timer, log := res.1.log)
    ensures var res := Authenticate(c, env);
      res.0 == Authorised ==> (res.1.socket.closed <==> c.socket.writeFault.Some?)
    ensures Authenticate(c, env).1.socket.ending == c.socket.ending
  {
    var c0 := c.(currentUser := Nobody);
    var read := ReadLine(c0);
    ReadLineResult(c0);
    if NextLine(c.socket).None? {
      assert read.0.None?;
      assert read.1.socket.outbox == c.socket.outbox;
    } else {
      var line := NextLine(c.socket).value;
      var p := PrincipalOf(line, env);
      var c1 := read.1.(currentUser := p);
      assert c1.socket == c.socket.(inbox := AfterNextLine(c.socket));
      if p != Nobody {
        WriteLineOnOpen(c1, "AUTHORISED");
      } else {
        WriteLineOnOpen(c1, "UNAUTHORISED");
      }
    }
  }

  /**
   * A credential shorter than 64 characters once stripped is refused: the
   * reply is `UNAUTHORISED` and the socket is closed.
   */
  lemma ShortCredentialRejected(c: Conn, env: Env)
    requires NextLine(c.socket).Some? && |Strip(NextLine(c.socket).value)| < MinKeyLength
    ensures var res := Authenticate(c, env);
      res.0 == Unauthorised && res.1.socket.closed && res.1.currentUser == Nobody &&
      (c.socket.writeFault.None? ==> res.1.socket.outbox == c.socket.outbox + "UNAUTHORISED" + "\n")
  {
    assert PrincipalOf(NextLine(c.socket).value, env) == Nobody;
    AuthenticateDecides(c, env);
    UnauthorisedReply();
  }

  /** `puts 'UNAUTHORISED'` sends the word and one line terminator. */
  lemma UnauthorisedReply()
    ensures PutsData("UNAUTHORISED") == "UNAUTHORISED" + "\n"
  {
    var reply := "UNAUTHORISED";
    assert reply[|reply| - 1] == 'D';
  }

  /** After a refused credential, `dispatch` stops without reading a header or parsing anything. */
  lemma RejectedReadsNoHeader(c: Conn, env: Env)
    ensures var res := Dispatch(c, env);
      res.0 == Rejected <==> NextLine(c.socket).Some? && PrincipalOf(NextLine(c.socket).value, env) == Nobody
    ensures var res := Dispatch(c, env);
      res.0 == Rejected ==>
        res.1.socket.closed && res.1.socket.inbox == AfterNextLine(c.socket) &&
        res.1.command == c.command && res.1.options == c.options
  {
    var auth := Authenticate(RecordPeer(c), env);
    assert RecordPeer(c).socket == c.socket;
    AuthenticateDecides(RecordPeer(c), env);
    if auth.0 == Authorised {
      assert Dispatch(c, env) == DispatchHeader(auth.1, env);
      DispatchHeaderRoutes(auth.1, env);
    }
  }

  /** After authentication, `dispatch` ends with no header, a parse failure, a started handler or a warning. */
  lemma DispatchHeaderRoutes(c: Conn, env: Env)
    ensures var res := DispatchHeader(c, env);
      res.0 in {NoHeader, BlankHeader, NoCommandName} || res.0.Invoked? || res.0.Warned?
  {
    DispatchHeaderReads(c, env);
    if NextLine(c.socket).Some? {
      var c1 := c.(socket := c.socket.(inbox := AfterNextLine(c.socket)), timer := Activity(c.timer));
      RouteAllowList(c1, ParseHeader(NextLine(c.socket).value), env);
    }
  }

  /**
   * The allow-list on one header line: a handler is started only for a name in
   * the command set; a name outside it only adds a warning; neither touches
   * the socket.
   */
  lemma RouteAllowList(c: Conn, p: Parse, env: Env)
    ensures var res := Route(c, p, env);
      res.1.socket == c.socket && res.1.currentUser == c.currentUser &&
      (res.0.Invoked? ==> res.0.name in env.commands && res.1.log == c.log) &&
      (res.0.Warned? ==> res.0.name !in env.commands && res.1.log == c.log + [UnknownCommand(res.0.name)]) &&
      (res.0 == BlankHeader <==> p == BlankLine) &&
      (res.0 != BlankHeader ==>
         res.1.command == p.header.command &&
         res.1.options == p.header.options) &&
      (res.0.Invoked? || res.0.Warned? ==> CommandName(p.header) == Some(res.0.name)) &&
      (res.0 == NoCommandName <==> p.Parsed? && CommandName(p.header).None?)
    ensures var res := Route(c, p, env);
      res.0 != NoHeader && res.0 != CredentialMissing && res.0 != Rejected
  {
  }

  /**
   * After authentication `dispatch` reads one line: without one it returns
   * before any parsing; with one it routes that line, on a socket that stays
   * open.
   */
  lemma DispatchHeaderReads(c: Conn, env: Env)
    ensures var res := DispatchHeader(c, env);
      NextLine(c.socket).None? ==> res.0 == NoHeader && res.1.command == c.command && res.1.options == c.options
    ensures var res := DispatchHeader(c, env);
      NextLine(c.socket).Some? ==>
        !c.socket.closed &&
        res == Route(c.(socket := c.socket.(inbox := AfterNextLine(c.socket)), timer := Activity(c.timer)), ParseHeader(NextLine(c.socket).value), env)
  {
    ReadLineResult(c);
  }

  /** Routing the header line keeps the user, starts only allowed commands and warns about the rest. */
  lemma DispatchHeaderAllowList(c: Conn, env: Env)
    ensures var res := DispatchHeader(c, env);
      res.1.currentUser == c.currentUser &&
      (res.0.Invoked? ==> res.0.name in env.commands && !res.1.socket.closed) &&
      (res.0.Warned? ==>
        res.0.name !in env.commands && !res.1.socket.closed &&
        |res.1.log| > 0 && res.1.log[|res.1.log| - 1] == UnknownCommand(res.0.name))
  {
    var res := DispatchHeader(c, env);
    DispatchHeaderReads(c, env);
    var line := NextLine(c.socket);
    if line.Some? {
      var c1 := c.(socket := c.socket.(inbox := AfterNextLine(c.socket)), timer := Activity(c.timer));
      assert res == Route(c1, ParseHeader(line.value), env);
      RouteAllowList(c1, ParseHeader(line.value), env);
      if res.0.Warned? {
        assert res.1.log == c1.log + [UnknownCommand(res.0.name)];
      }
    } else {
      assert res.0 == NoHeader;
      ReadLineResult(c);
    }
  }

  /**
   * `dispatch` starts a handler only for a name in the command set and only on
   * an authenticated connection; a name outside the set adds a warning and
   * leaves the connection open.
   */
  lemma DispatchAllowList(c: Conn, env: Env)
    ensures var res := Dispatch(c, env);
      res.0.Invoked? ==> res.0.name in env.commands && res.1.currentUser != Nobody && !res.1.socket.closed
    ensures var res := Dispatch(c, env);
      res.0.Warned? ==>
        res.0.name !in env.commands && res.1.currentUser != Nobody && !res.1.socket.closed &&
        |res.1.log| > 0 && res.1.log[|res.1.log| - 1] == UnknownCommand(res.0.name)
  {
    var auth := Authenticate(RecordPeer(c), env);
    AuthenticateDecides(RecordPeer(c), env);
    if auth.0 == Authorised {
      assert Dispatch(c, env) == DispatchHeader(auth.1, env);
      DispatchHeaderAllowList(auth.1, env);
    }
  }

  /**
   * The command that `dispatch` starts or warns about is named by the header
   * line that follows the credential, and `@command` and `@options` are that
   * line's parse; when no header line arrives nothing is parsed.
   */
  lemma DispatchParsesHeader(c: Conn, env: Env)
    ensures var res := Dispatch(c, env); var header := SecondLine(c.socket);
      res.0.Invoked? || res.0.Warned? ==>
        header.Some? && ParseHeader(header.value).Parsed? &&
        CommandName(ParseHeader(header.value).header) == Some(res.0.name) &&
        res.1.command == ParseHeader(header.value).header.command &&
        res.1.options == ParseHeader(header.value).header.options
    ensures var res := Dispatch(c, env);
      res.0 == NoHeader ==> res.1.command == c.command && res.1.options == c.options
  {
    var auth := Authenticate(RecordPeer(c), env);
    var res := Dispatch(c, env);
    assert RecordPeer(c).socket == c.socket;
    assert RecordPeer(c).command == c.command && RecordPeer(c).options == c.options;
    AuthenticateDecides(RecordPeer(c), env);
    if auth.0 == NoCredential {
      assert res.0 == CredentialMissing;
    } else if auth.0 == Unauthorised {
      assert res.0 == Rejected;
    } else {
      assert res == DispatchHeader(auth.1, env);
      DispatchHeaderReads(auth.1, env);
      var line := NextLine(auth.1.socket);
      if line.Some? {
        var c1 := auth.1.(socket := auth.1.socket.(inbox := AfterNextLine(auth.1.socket)), timer := Activity(auth.1.timer));
        assert res == Route(c1, ParseHeader(line.value), env);
        RouteAllowList(c1, ParseHeader(line.value), env);
        var s0 := c.socket;
        assert !s0.closed;
        assert GetsFrom(s0.inbox, s0.ending).Line?;
        var rest := GetsFrom(s0.inbox, s0.ending).rest;
        assert SecondLine(s0) == NextLine(s0.(inbox := rest));
        NextLineOfSame(auth.1.socket, s0.(inbox := rest));
      } else {
        assert res.0 == NoHeader;
      }
    }
  }

  /** Time passing in two steps has the same effect as in one: the timer fires at most once per reset. */
  lemma ElapseAdditive(c: Conn, d1: nat, d2: nat)
    ensures Elapse(Elapse(c, d1), d2) == Elapse(c, d1 + d2)
  {
  }

  /**
   * When the timer fires, the connection is terminated exactly when
   * `@keep_alive` is false; the same elapsed timer with `@keep_alive` set
   * leaves it running.
   */
  lemma TimeoutTerminatesUnlessKeepAlive(c: Conn, d: nat)
    requires c.timer.armed && c.timer.clock + d >= c.timer.deadline && !c.terminated
    ensures Elapse(c, d).terminated <==> !c.keepAlive
    ensures !Elapse(c, d).timer.armed
  {
  }

  /** Activity postpones the timeout: less than a full timeout after it, nothing fires. */
  lemma ActivityPostpones(c: Conn, d: nat)
    requires d < InactivityTimeout
    ensures Elapse(c.(timer := Activity(c.timer)), d).terminated == c.terminated
    ensures Elapse(c.(timer := Activity(c.timer)), d).timer.armed
  {
  }
}
