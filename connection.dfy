/**
 * The Switchboard connection engine as an object: one `Connection` per
 * accepted socket, whose instance variables the operations update in place.
 * Each method is proved to leave the connection in the state the matching
 * function of `Session` gives, so every property proved there holds of the
 * object.
 */
module Connections {
  import opened Wrappers
  import opened RubyText
  import opened Headers
  import opened Credentials
  import opened Sockets
  import S = Session

  class Connection {
    /** `@socket`: the client's socket. */
    const socket: Socket
    /** The command set, the shared secret and the user store. */
    const env: S.Env
    /** `@timer`: the inactivity timer. */
    var timer: S.Timer
    /** `@keep_alive`: when set, inactivity does not terminate the connection. */
    var keepAlive: bool
    /** Whether `terminate` has been called. */
    var terminated: bool
    /** `@current_user`. */
    var currentUser: Principal
    /** `@command` and `@options`, from the header line. */
    var command: seq<string>
    var options: seq<string>
    /** `@host` and `@port`, the peer's address. */
    var host: string
    var port: int
    /** What the connection has logged, oldest first. */
    var log: seq<S.LogEvent>

    /** The connection's whole state as a value. */
    function Snapshot(): S.Conn
      reads this, socket
    {
      S.Conn(socket.State(), timer, keepAlive, terminated, currentUser, command, options, host, port, log)
    }

    /** `initialize(socket)`: not kept alive, with the inactivity timer started at `now`. */
    constructor (socket: Socket, env: S.Env, now: nat)
      ensures this.socket == socket && this.env == env
      ensures Snapshot() == S.Initial(socket.State(), now)
    {
      this.socket, this.env := socket, env;
      timer := S.Timer(now, now + S.InactivityTimeout, true);
      keepAlive, terminated, currentUser := false, false, Nobody;
      command, options, host, port, log := [], [], [], 0, [];
    }

    /** `activity`: resets the inactivity timer. */
    method Activity()
      modifies this
      ensures Snapshot() == old(Snapshot()).(timer := S.Activity(old(timer)))
    {
      timer := timer.(deadline := timer.clock + S.InactivityTimeout, armed := true);
    }

    /** `inactivity_callback`: terminates the connection unless it is kept alive. */
    method InactivityCallback()
      modifies this
      ensures Snapshot() == S.InactivityCallback(old(Snapshot()))
    {
      if !keepAlive {
        terminated := true;
      }
    }

    /** `d` seconds pass on the timer's clock; the timer fires at most once. */
    method Elapse(d: nat)
      modifies this
      ensures Snapshot() == S.Elapse(old(Snapshot()), d)
    {
      var fires := timer.armed && timer.clock + d >= timer.deadline;
      timer := timer.(clock := timer.clock + d);
      if fires {
        timer := timer.(armed := false);
        InactivityCallback();
      }
    }

    /** `close(type)`: logs the closing only while the socket is open, then closes it. */
    method Close(kind: S.CloseKind)
      modifies this, socket
      ensures Snapshot() == S.Close(old(Snapshot()), kind)
    {
      if !socket.closed {
        log := log + [S.Closing(kind == S.Detected)];
      }
      socket.Close();
    }

    /** `io { op }`: the call's value and a timer reset, or `false` after closing as detected. */
    method Io(op: Op) returns (r: S.IoReturn)
      modifies this, socket
      ensures (r, Snapshot()) == S.Io(old(Snapshot()), op)
    {
      var outcome := socket.Perform(op);
      match outcome
      case Returned(v) =>
        Activity();
        r := S.Value(v);
      case Raised(_) =>
        Close(S.Detected);
        r := S.Failed;
    }

    /** `read_line`: the next line, or `nil` at the end of the stream or after a failure. */
    method ReadLine() returns (line: Option<string>)
      modifies this, socket
      ensures (line, Snapshot()) == S.ReadLine(old(Snapshot()))
    {
      var r := Io(Gets);
      line := if r.Value? then r.value else None;
    }

    /** `read_partial(bytes)`: up to `bytes` bytes, or `nil` after a failure. */
    method ReadPartial(bytes: nat) returns (data: Option<string>)
      modifies this, socket
      ensures (data, Snapshot()) == S.ReadPartial(old(Snapshot()), bytes)
    {
      var r := Io(Recv(bytes));
      data := if r.Value? then r.value else None;
    }

    /** `write_line(line)`: `puts` through the IO wrapper. */
    method WriteLine(line: string) returns (r: S.IoReturn)
      modifies this, socket
      ensures (r, Snapshot()) == S.WriteLine(old(Snapshot()), line)
    {
      r := Io(Puts(line));
    }

    /**
     * `authenticate`: reads the credential line and replies `AUTHORISED`, or
     * replies `UNAUTHORISED` and closes the connection.
     */
    method Authenticate() returns (result: S.AuthResult)
      modifies this, socket
      ensures (result, Snapshot()) == S.Authenticate(old(Snapshot()), env)
    {
      currentUser := Nobody;
      var line := ReadLine();
      if line.None? {
        return S.NoCredential;
      }
      var apiKey := Strip(line.value);
      if |apiKey| >= MinKeyLength {
        if env.secret == Some(apiKey) {
          currentUser := Pod;
        } else {
          var users := env.users(apiKey);
          if |users| == 1 {
            currentUser := Member(users[0]);
          }
        }
      }
      assert currentUser == S.PrincipalOf(line.value, env);
      if currentUser != Nobody {
        var _ := WriteLine("AUTHORISED");
        return S.Authorised;
      }
      var _ := WriteLine("UNAUTHORISED");
      Close(S.Normal);
      return S.Unauthorised;
    }

    /**
     * `dispatch`: records the peer, authenticates, reads the header line and
     * starts the command it names if the command set has it.
     */
    method Dispatch() returns (outcome: S.DispatchOutcome)
      modifies this, socket
      ensures (outcome, Snapshot()) == S.Dispatch(old(Snapshot()), env)
    {
      host, port := socket.peerHost, socket.peerPort;
      log := log + [S.Received(host, port)];
      var auth := Authenticate();
      if auth == S.NoCredential {
        return S.CredentialMissing;
      } else if auth == S.Unauthorised {
        return S.Rejected;
      }
      var response := ReadLine();
      if response.None? {
        return S.NoHeader;
      }
      outcome := Route(ParseHeader(response.value));
    }

    /** The second half of `dispatch`: records the parsed header and starts or warns about the command it names. */
    method Route(header: Parse) returns (outcome: S.DispatchOutcome)
      modifies this
      ensures (outcome, Snapshot()) == S.Route(old(Snapshot()), header, env)
    {
      match header
      case BlankLine =>
        return S.BlankHeader;
      case Parsed(h) =>
        command, options := h.command, h.options;
        match CommandName(h)
        case None =>
          return S.NoCommandName;
        case Some(name) =>
          if name in env.commands {
            return S.Invoked(name);
          }
          log := log + [S.UnknownCommand(name)];
          return S.Warned(name);
    }

    /**
     * `plug_sockets(incoming, outgoing)`: copies everything `incoming`
     * delivers to `outgoing`, 512 bytes at a time, closing `outgoing` when
     * `incoming` reaches the end of its stream.
     */
    method PlugSockets(incoming: Socket, outgoing: Socket) returns (end: S.RelayEnd)
      requires incoming != outgoing
      modifies incoming, outgoing
      ensures (end, incoming.State(), outgoing.State()) ==
        (var r := S.PlugSockets(old(incoming.State()), old(outgoing.State())); (r.0, r.1, r.2))
    {
      ghost var goal := S.PlugSockets(incoming.State(), outgoing.State());
      while true
        invariant var r := S.PlugSockets(incoming.State(), outgoing.State()); (r.0, r.1, r.2) == (goal.0, goal.1, goal.2)
        decreases |incoming.inbox|
      {
        var read := incoming.Perform(Recv(S.RelayChunk));
        if read.Raised? {
          if read.fault == EndOfFile {
            outgoing.Close();
            return S.Finished;
          }
          return S.Propagated(read.fault);
        }
        var data := read.value.value;
        var written := outgoing.Perform(Write(data));
        if written.Raised? {
          if written.fault == EndOfFile {
            outgoing.Close();
            return S.Finished;
          }
          return S.Propagated(written.fault);
        }
      }
    }
  }
}
