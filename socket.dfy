/**
 * A stream socket as the connection engine sees it. The peer's side is
 * abstracted as the bytes it has sent (`inbox`) and how its stream ends after
 * them: a clean hang-up, or a transport failure. What the engine sends goes to
 * `outbox`; a write fails with `writeFault` when the peer has gone. `closed` is
 * this side's open/closed flag (`IO#closed?`).
 */
module Sockets {
  import opened Wrappers

  /** The exceptions the engine's IO wrapper rescues: `EOFError`, `Errno::EPIPE`, `IOError`, `Errno::EBADF`. */
  datatype Fault = EndOfFile | BrokenPipe | IOFailure | BadDescriptor

  /** What reading past the last byte the peer sent does. */
  datatype Ending = Hangup | Broken(fault: Fault)

  /** The socket calls the engine makes: `gets`, `recv` and `readpartial` (`Recv`), `write` and `puts`. */
  datatype Op = Gets | Recv(max: nat) | Write(data: string) | Puts(line: string)

  /** A socket call either returns (a string or `nil`) or raises. */
  datatype IoOutcome = Returned(value: Option<string>) | Raised(fault: Fault)

  /** What `gets` finds in the unread bytes. */
  datatype GetsResult = Line(line: string, rest: string) | AtEnd | Fails(fault: Fault)

  datatype SocketState = SocketState(
    closed: bool,
    inbox: string,
    ending: Ending,
    outbox: string,
    writeFault: Option<Fault>,
    peerHost: string,
    peerPort: int)

  /** The fault a read past the end raises: a clean hang-up reads as `EOFError`. */
  function EndFault(e: Ending): Fault
  {
    if e.Hangup? then EndOfFile else e.fault
  }

  /** The index of the first line terminator in `s`, or `|s|` when there is none. */
  function LineBreak(s: string): (i: nat)
    ensures i <= |s|
    ensures forall k :: 0 <= k < i ==> s[k] != '\n'
    ensures i < |s| ==> s[i] == '\n'
  {
    if s == [] || s[0] == '\n' then 0 else 1 + LineBreak(s[1..])
  }

  /**
   * `gets` on the unread bytes: the next line with its terminator; at the end
   * of a cleanly closed stream the unterminated remainder, or `nil` when
   * nothing remains; on a broken stream without a complete line, the fault.
   */
  function GetsFrom(inbox: string, ending: Ending): (g: GetsResult)
    ensures g.Line? ==> g.line != [] && g.line + g.rest == inbox
    ensures g.Line? ==> forall k :: 0 <= k < |g.line| - 1 ==> g.line[k] != '\n'
    ensures g.Line? && g.line[|g.line| - 1] != '\n' ==> g.rest == [] && ending == Hangup
    ensures g == AtEnd <==> inbox == [] && ending == Hangup
    ensures g.Fails? <==> ending.Broken? && '\n' !in inbox
    ensures g.Fails? ==> g.fault == ending.fault
  {
    var i := LineBreak(inbox);
    if i < |inbox| then
      assert inbox[..i + 1] + inbox[i + 1..] == inbox;
      Line(inbox[..i + 1], inbox[i + 1..])
    else if ending.Broken? then
      assert '\n' !in inbox by { assert forall k :: 0 <= k < |inbox| ==> inbox[k] != '\n'; }
      Fails(ending.fault)
    else if inbox == [] then AtEnd
    else
      assert inbox + [] == inbox;
      Line(inbox, [])
  }

  /** What `puts` sends: the line, with a terminator added unless it already ends in one. */
  function PutsData(line: string): (data: string)
    ensures |data| > 0 && data[|data| - 1] == '\n'
    ensures |line| <= |data| && data[..|line|] == line
    ensures data == line || data == line + "\n"
    ensures data == line <==> line != [] && line[|line| - 1] == '\n'
  {
    if line != [] && line[|line| - 1] == '\n' then line else line + "\n"
  }

  function Min(a: nat, b: nat): nat
  {
    if a < b then a else b
  }

  /** `gets`: a closed socket raises `IOError`; otherwise the next line, `nil` at a clean end, or the stream's fault. */
  function GetsStep(s: SocketState): (IoOutcome, SocketState)
  {
    if s.closed then (Raised(IOFailure), s)
    else match GetsFrom(s.inbox, s.ending)
      case Line(l, rest) => (Returned(Some(l)), s.(inbox := rest))
      case AtEnd => (Returned(None), s)
      case Fails(f) => (Raised(f), s)
  }

  /**
   * `recv(n)` / `readpartial(n)`: a closed socket raises `IOError`; otherwise
   * up to `n` bytes from the front, or the end-of-stream fault when none are
   * left.
   */
  function RecvStep(s: SocketState, n: nat): (IoOutcome, SocketState)
  {
    if s.closed then (Raised(IOFailure), s)
    else if n == 0 then (Returned(Some([])), s)
    else if s.inbox == [] then (Raised(EndFault(s.ending)), s)
    else
      var k := Min(n, |s.inbox|);
      assert s.inbox[..k] + s.inbox[k..] == s.inbox;
      (Returned(Some(s.inbox[..k])), s.(inbox := s.inbox[k..]))
  }

  /** `write(data)`: a closed socket raises `IOError`, a gone peer its fault; otherwise `data` is appended. */
  function SendStep(s: SocketState, data: string): (IoOutcome, SocketState)
  {
    if s.closed then (Raised(IOFailure), s)
    else match s.writeFault
      case Some(f) => (Raised(f), s)
      case None => (Returned(None), s.(outbox := s.outbox + data))
  }

  /**
   * One socket call. A call on a closed socket raises `IOError`; a call that
   * raises changes nothing; reads take bytes from the front of `inbox`;
   * writes append to `outbox`; no call opens or closes the socket.
   */
  function Step(s: SocketState, op: Op): (res: (IoOutcome, SocketState))
    ensures s.closed ==> res.0 == Raised(IOFailure)
    ensures res.0.Raised? ==> res.1 == s
    ensures res.1 == s.(inbox := res.1.inbox, outbox := res.1.outbox)
    ensures s.inbox == (if res.0.Returned? && res.0.value.Some? && !op.Write? && !op.Puts? then res.0.value.value else []) + res.1.inbox
    ensures op.Recv? && op.max > 0 && res.0.Returned? ==>
      res.0.value.Some? && 1 <= |res.0.value.value| <= op.max
    ensures (op.Gets? || op.Recv?) ==> res.1.outbox == s.outbox
    ensures op.Write? && res.0.Returned? ==> res.1.outbox == s.outbox + op.data
    ensures op.Puts? && res.0.Returned? ==> res.1.outbox == s.outbox + PutsData(op.line)
    ensures (op.Write? || op.Puts?) ==> res.1.inbox == s.inbox && (res.0.Raised? <==> s.closed || s.writeFault.Some?)
  {
    match op
    case Gets => GetsStep(s)
    case Recv(n) => RecvStep(s, n)
    case Write(data) => SendStep(s, data)
    case Puts(line) => SendStep(s, PutsData(line))
  }

  class Socket {
    var closed: bool
    var inbox: string
    var ending: Ending
    var outbox: string
    var writeFault: Option<Fault>
    const peerHost: string
    const peerPort: int

    function State(): SocketState
      reads this
    {
      SocketState(closed, inbox, ending, outbox, writeFault, peerHost, peerPort)
    }

    /** An open socket whose peer at `host`:`port` will send `inbox` and then end its stream as `ending`. */
    constructor (host: string, port: int, inbox: string, ending: Ending, writeFault: Option<Fault>)
      ensures State() == SocketState(false, inbox, ending, [], writeFault, host, port)
    {
      this.peerHost, this.peerPort := host, port;
      this.closed, this.inbox, this.ending, this.outbox, this.writeFault := false, inbox, ending, [], writeFault;
    }

    /** Carries out one socket call. */
    method Perform(op: Op) returns (o: IoOutcome)
      modifies this
      ensures (o, State()) == Step(old(State()), op)
    {
      var res := Step(State(), op);
      o := res.0;
      inbox, outbox := res.1.inbox, res.1.outbox;
    }

    /** `IO#close`: this side is closed afterwards, whatever it was before. */
    method Close()
      modifies this
      ensures State() == old(State()).(closed := true)
    {
      closed := true;
    }
  }
}
