/** One connection of the local socket: hello first, then a reply per frame (aisense-ipc, transport.rs). */
module Connection {
  import opened Prelude
  import opened Framing

  type Token = seq<byte>
  type Operation = seq<byte>

  datatype Request = Hello(token: Token) | Call(op: Operation) | Malformed

  datatype Response = Unauthorized | AlreadyAuthenticated | InvalidFrame | FrameTooLarge | Body(json: seq<byte>)

  datatype Greeting = Welcome(reply: Response) | Refused(reply: Response)

  /**
   * What the connection does not decide: how a frame decodes, whether a token is accepted, and what
   * the handler answers, which may depend on every operation it handled before.
   */
  datatype Peer = Peer(
    parse: seq<byte> -> Request,
    greet: Token -> Greeting,
    answer: (Token, seq<Operation>) -> Response)

  datatype Event = Asked(token: Token) | Handled(token: Token, op: Operation) | Sent(reply: Response)

  /** ASCII whitespace: tab, newline, form feed, carriage return and space. */
  predicate IsBlank(frame: seq<byte>) {
    forall i :: 0 <= i < |frame| ==> frame[i] in [9, 10, 12, 13, 32]
  }

  lemma AfterFrameIsShorter(left: seq<byte>, broken: bool)
    ensures NextFrame(left, broken, MAX_FRAME).Frame? ==> |AfterFrame(left)| < |left|
  {
  }

  // ---- What a connection must do ----

  /** The frames that deserve a reply: the ones with something in them, until no frame follows. */
  function Frames(left: seq<byte>, broken: bool): seq<seq<byte>>
    decreases |left|
  {
    AfterFrameIsShorter(left, broken);
    match NextFrame(left, broken, MAX_FRAME)
    case Frame(f) => (if IsBlank(f) then [] else [f]) + Frames(AfterFrame(left), broken)
    case _ => []
  }

  predicate EndsTooLarge(left: seq<byte>, broken: bool)
    decreases |left|
  {
    AfterFrameIsShorter(left, broken);
    match NextFrame(left, broken, MAX_FRAME)
    case Frame(f) => EndsTooLarge(AfterFrame(left), broken)
    case TooLarge => true
    case _ => false
  }

  function OperationsIn(p: Peer, frames: seq<seq<byte>>): seq<Operation> {
    if frames == [] then []
    else (if p.parse(frames[0]).Call? then [p.parse(frames[0]).op] else []) + OperationsIn(p, frames[1..])
  }

  lemma OperationsOfOne(p: Peer, frame: seq<byte>)
    ensures OperationsIn(p, [frame]) == if p.parse(frame).Call? then [p.parse(frame).op] else []
  {
    var one := [frame];
    assert one[1..] == [];
  }

  /** The reply a frame gets when `done` was handled before it. */
  function ReplyTo(p: Peer, token: Token, frame: seq<byte>, done: seq<Operation>): Response {
    match p.parse(frame)
    case Hello(_) => AlreadyAuthenticated
    case Call(op) => p.answer(token, done + [op])
    case Malformed => InvalidFrame
  }

  /** One reply per frame, in order, the handler having seen the operations of the frames before. */
  function RepliesTo(p: Peer, token: Token, frames: seq<seq<byte>>, done: seq<Operation>): seq<Response>
    decreases |frames|
  {
    if frames == [] then []
    else [ReplyTo(p, token, frames[0], done)] + RepliesTo(p, token, frames[1..], done + OperationsIn(p, [frames[0]]))
  }

  lemma {:induction false} OneReplyPerFrame(p: Peer, token: Token, frames: seq<seq<byte>>, done: seq<Operation>, k: nat)
    requires k < |frames|
    ensures |RepliesTo(p, token, frames, done)| == |frames|
    ensures RepliesTo(p, token, frames, done)[k]
            == match p.parse(frames[k])
               case Hello(_) => AlreadyAuthenticated
               case Call(op) => p.answer(token, done + OperationsIn(p, frames[..k]) + [op])
               case Malformed => InvalidFrame
    decreases |frames|
  {
    OperationsOfOne(p, frames[0]);
    var first := OperationsIn(p, [frames[0]]);
    if k == 0 {
      if |frames| > 1 { OneReplyPerFrame(p, token, frames[1..], done + first, 0); }
      assert done + [] == done;
    } else {
      OneReplyPerFrame(p, token, frames[1..], done + first, k - 1);
      assert frames[..k][0] == frames[0] && frames[..k][1..] == frames[1..][..k - 1];
      assert OperationsIn(p, frames[..k]) == first + OperationsIn(p, frames[1..][..k - 1]);
      Associative(done, first, OperationsIn(p, frames[1..][..k - 1]));
    }
  }

  // ---- What it does: `writable` is how many writes the peer takes before it is gone ----

  function Conversation(p: Peer, token: Token, left: seq<byte>, broken: bool, done: seq<Operation>,
                        writable: nat): seq<Event>
    decreases |left|
  {
    AfterFrameIsShorter(left, broken);
    match NextFrame(left, broken, MAX_FRAME)
    case EndOfStream => []
    case IoError => []
    case TooLarge => if writable > 0 then [Sent(FrameTooLarge)] else []
    case Frame(f) =>
      if IsBlank(f) then Conversation(p, token, AfterFrame(left), broken, done, writable)
      else
        var request := p.parse(f);
        var handled := if request.Call? then [Handled(token, request.op)] else [];
        var ops := if request.Call? then done + [request.op] else done;
        if writable == 0 then handled
        else
          handled + [Sent(ReplyTo(p, token, f, done))]
          + Conversation(p, token, AfterFrame(left), broken, ops, writable - 1)
  }

  function Served(p: Peer, left: seq<byte>, broken: bool, writable: nat): seq<Event> {
    match NextFrame(left, broken, MAX_FRAME)
    case EndOfStream => []
    case IoError => []
    case TooLarge => if writable > 0 then [Sent(FrameTooLarge)] else []
    case Frame(f) =>
      if !p.parse(f).Hello? then (if writable > 0 then [Sent(Unauthorized)] else [])
      else
        var token := p.parse(f).token;
        if writable == 0 then [Asked(token)]
        else [Asked(token), Sent(p.greet(token).reply)]
             + (if p.greet(token).Welcome? then Conversation(p, token, AfterFrame(left), broken, [], writable - 1)
                else [])
  }

  /** The connection's task, over a buffered reader. */
  method ServeConnection(p: Peer, io: BufferedReader, writable: nat) returns (trace: seq<Event>)
    requires io.Valid()
    modifies io
    ensures trace == Served(p, old(io.Left()), io.broken, writable)
  {
    hide NextFrame, AfterFrame, IsBlank, Conversation;
    ghost var start := io.Left();
    var first, _ := ReadFrame(io, MAX_FRAME);
    var token: Token;
    match first {
      case EndOfStream => return [];
      case IoError => return [];
      case TooLarge => return if writable > 0 then [Sent(FrameTooLarge)] else [];
      case Frame(f) =>
        if !p.parse(f).Hello? {
          return if writable > 0 then [Sent(Unauthorized)] else [];
        }
        token := p.parse(f).token;
    }
    trace := [Asked(token)];
    var greeting := p.greet(token);
    if writable == 0 { return; }
    trace := trace + [Sent(greeting.reply)];
    assert trace == [Asked(token), Sent(greeting.reply)];
    if greeting.Refused? { return; }
    var talk := Converse(p, token, io, writable - 1);
    trace := trace + talk;
  }

  /** What a frame makes the connection do, but for the rest of the conversation. */
  function Turn(p: Peer, token: Token, frame: seq<byte>, done: seq<Operation>, writable: nat): seq<Event> {
    (if p.parse(frame).Call? then [Handled(token, p.parse(frame).op)] else [])
    + (if writable == 0 then [] else [Sent(ReplyTo(p, token, frame, done))])
  }

  lemma ConversationUnfolds(p: Peer, token: Token, left: seq<byte>, broken: bool, done: seq<Operation>, writable: nat)
    ensures match NextFrame(left, broken, MAX_FRAME)
            case Frame(f) =>
              Conversation(p, token, left, broken, done, writable)
              == if IsBlank(f) then Conversation(p, token, AfterFrame(left), broken, done, writable)
                 else if writable == 0 then Turn(p, token, f, done, writable)
                 else Turn(p, token, f, done, writable)
                      + Conversation(p, token, AfterFrame(left), broken,
                                     if p.parse(f).Call? then done + [p.parse(f).op] else done, writable - 1)
            case TooLarge =>
              Conversation(p, token, left, broken, done, writable) == if writable > 0 then [Sent(FrameTooLarge)] else []
            case _ => Conversation(p, token, left, broken, done, writable) == []
  {
    hide NextFrame, AfterFrame, IsBlank, ReplyTo;
    AfterFrameIsShorter(left, broken);
    var next := NextFrame(left, broken, MAX_FRAME);
    if next.Frame? && p.parse(next.bytes).Call? {
      var handled := [Handled(token, p.parse(next.bytes).op)];
      assert handled + [] == handled;
    }
  }

  /** The loop of an accepted connection. */
  method Converse(p: Peer, token: Token, io: BufferedReader, writable: nat) returns (trace: seq<Event>)
    requires io.Valid()
    modifies io
    ensures trace == Conversation(p, token, old(io.Left()), io.broken, [], writable)
  {
    hide NextFrame, AfterFrame, IsBlank, ReplyTo, Conversation;
    var left := writable;
    var done: seq<Operation> := [];
    trace := [];
    assert trace + Conversation(p, token, io.Left(), io.broken, done, left)
        == Conversation(p, token, io.Left(), io.broken, done, left);
    while true
      invariant io.Valid()
      invariant trace + Conversation(p, token, io.Left(), io.broken, done, left)
             == Conversation(p, token, old(io.Left()), io.broken, [], writable)
      decreases |io.Left()|
    {
      AfterFrameIsShorter(io.Left(), io.broken);
      ConversationUnfolds(p, token, io.Left(), io.broken, done, left);
      assert trace + [] == trace;
      var next, _ := ReadFrame(io, MAX_FRAME);
      match next {
        case EndOfStream => return;
        case IoError => return;
        case TooLarge =>
          if left > 0 { trace := trace + [Sent(FrameTooLarge)]; }
          return;
        case Frame(f) =>
          if IsBlank(f) { continue; }
          var request := p.parse(f);
          var reply := ReplyTo(p, token, f, done);
          ghost var turn, before := Turn(p, token, f, done, left), trace;
          if request.Call? {
            trace := trace + [Handled(token, request.op)];
            done := done + [request.op];
          }
          if left == 0 {
            assert trace == before + turn;
            return;
          }
          trace := trace + [Sent(reply)];
          assert trace == before + turn;
          left := left - 1;
          Associative(before, turn, Conversation(p, token, io.Left(), io.broken, done, left));
      }
    }
  }

  // ---- What a peer sees ----

  function Replies(trace: seq<Event>): seq<Response> {
    if trace == [] then []
    else (if trace[0].Sent? then [trace[0].reply] else []) + Replies(trace[1..])
  }

  function HandledOps(trace: seq<Event>): seq<Operation> {
    if trace == [] then []
    else (if trace[0].Handled? then [trace[0].op] else []) + HandledOps(trace[1..])
  }

  function Due(p: Peer, token: Token, left: seq<byte>, broken: bool, done: seq<Operation>): seq<Response> {
    RepliesTo(p, token, Frames(left, broken), done) + (if EndsTooLarge(left, broken) then [FrameTooLarge] else [])
  }

  lemma RepliesOfTurn(handled: seq<Event>, reply: Response, later: seq<Event>)
    requires |handled| <= 1 && forall i :: 0 <= i < |handled| ==> handled[i].Handled?
    ensures Replies(handled + [Sent(reply)] + later) == [reply] + Replies(later)
    ensures HandledOps(handled + [Sent(reply)] + later) == HandledOps(handled) + HandledOps(later)
  {
    var talk := [Sent(reply)] + later;
    assert handled + [Sent(reply)] + later == handled + talk && talk[1..] == later;
    if handled == [] {
      assert handled + talk == talk;
    } else {
      assert (handled + talk)[1..] == talk && handled[1..] == [];
    }
  }

  lemma TakeCons<T>(head: T, tail: seq<T>, n: nat)
    requires n > 0
    ensures Take([head] + tail, n) == [head] + Take(tail, n - 1)
  {
  }

  lemma FramesUnfold(p: Peer, token: Token, left: seq<byte>, broken: bool, done: seq<Operation>)
    requires NextFrame(left, broken, MAX_FRAME).Frame?
    ensures var f := NextFrame(left, broken, MAX_FRAME).bytes;
            Due(p, token, left, broken, done)
            == if IsBlank(f) then Due(p, token, AfterFrame(left), broken, done)
               else [ReplyTo(p, token, f, done)] + Due(p, token, AfterFrame(left), broken, done + OperationsIn(p, [f]))
  {
    hide NextFrame, AfterFrame, IsBlank, ReplyTo, OperationsIn;
    var f := NextFrame(left, broken, MAX_FRAME).bytes;
    var rest := Frames(AfterFrame(left), broken);
    if IsBlank(f) {
      assert [] + rest == rest;
    } else {
      assert ([f] + rest)[1..] == rest;
      assert RepliesTo(p, token, [f] + rest, done)
          == [ReplyTo(p, token, f, done)] + RepliesTo(p, token, rest, done + OperationsIn(p, [f]));
    }
  }

  lemma DueAtEnd(p: Peer, token: Token, left: seq<byte>, broken: bool, done: seq<Operation>)
    requires !NextFrame(left, broken, MAX_FRAME).Frame?
    ensures Due(p, token, left, broken, done)
            == if NextFrame(left, broken, MAX_FRAME).TooLarge? then [FrameTooLarge] else []
  {
    hide NextFrame, AfterFrame, IsBlank, ReplyTo, OperationsIn;
  }

  /** Exactly one reply per non-blank frame, in order, as long as the peer takes them. */
  lemma {:induction false} OneReplyEachInOrder(p: Peer, token: Token, left: seq<byte>, broken: bool,
                                               done: seq<Operation>, writable: nat)
    ensures Replies(Conversation(p, token, left, broken, done, writable))
            == Take(Due(p, token, left, broken, done), writable)
    decreases |left|
  {
    AfterFrameIsShorter(left, broken);
    hide NextFrame, AfterFrame, IsBlank, ReplyTo, Due;
    var next := NextFrame(left, broken, MAX_FRAME);
    if !next.Frame? {
      DueAtEnd(p, token, left, broken, done);
    } else {
      FramesUnfold(p, token, left, broken, done);
      var f := next.bytes;
      var request := p.parse(f);
      if IsBlank(f) {
        OneReplyEachInOrder(p, token, AfterFrame(left), broken, done, writable);
      } else if writable > 0 {
        var handled := if request.Call? then [Handled(token, request.op)] else [];
        var ops := if request.Call? then done + [request.op] else done;
        OperationsOfOne(p, f);
        assert done + [] == done;
        OneReplyEachInOrder(p, token, AfterFrame(left), broken, ops, writable - 1);
        RepliesOfTurn(handled, ReplyTo(p, token, f, done),
            Conversation(p, token, AfterFrame(left), broken, ops, writable - 1));
        TakeCons(ReplyTo(p, token, f, done), Due(p, token, AfterFrame(left), broken, ops), writable);
      } else if request.Call? {
        assert [Handled(token, request.op)][1..] == [];
      }
    }
  }

  /** The handler only ever sees operations of a connection whose own hello it accepted, after the welcome was sent. */
  lemma HandledOnlyAfterHello(p: Peer, left: seq<byte>, broken: bool, writable: nat, i: nat)
    requires i < |Served(p, left, broken, writable)| && Served(p, left, broken, writable)[i].Handled?
    ensures var trace := Served(p, left, broken, writable);
            var token := trace[i].token;
            && i >= 2 && p.greet(token).Welcome?
            && trace[0] == Asked(token) && trace[1] == Sent(p.greet(token).reply)
  {
    hide NextFrame, AfterFrame, Conversation;
    var f := NextFrame(left, broken, MAX_FRAME).bytes;
    var token := p.parse(f).token;
    ConversationKeepsToken(p, token, AfterFrame(left), broken, [], writable - 1);
  }

  lemma {:induction false} ConversationKeepsToken(p: Peer, token: Token, left: seq<byte>, broken: bool,
                                                  done: seq<Operation>, writable: nat)
    ensures forall e :: e in Conversation(p, token, left, broken, done, writable) && e.Handled? ==> e.token == token
    decreases |left|
  {
    AfterFrameIsShorter(left, broken);
    hide NextFrame, AfterFrame, IsBlank, ReplyTo;
    var next := NextFrame(left, broken, MAX_FRAME);
    if next.Frame? {
      var request := p.parse(next.bytes);
      if IsBlank(next.bytes) {
        ConversationKeepsToken(p, token, AfterFrame(left), broken, done, writable);
      } else if writable > 0 {
        var ops := if request.Call? then done + [request.op] else done;
        ConversationKeepsToken(p, token, AfterFrame(left), broken, ops, writable - 1);
      }
    }
  }

  /**
   * The handler gets the operations of all frames, once each and in order, up to and with the first
   * whose reply the peer does not take.
   */
  lemma {:induction false} EveryOperationIsHandledOnce(p: Peer, token: Token, left: seq<byte>, broken: bool,
                                                       done: seq<Operation>, writable: nat)
    ensures HandledOps(Conversation(p, token, left, broken, done, writable))
            == OperationsIn(p, Take(Frames(left, broken), writable + 1))
    decreases |left|
  {
    AfterFrameIsShorter(left, broken);
    ConversationUnfolds(p, token, left, broken, done, writable);
    OperationsUnfold(p, left, broken, writable);
    hide NextFrame, AfterFrame, IsBlank, ReplyTo, Conversation, Frames, OperationsIn, Take;
    var next := NextFrame(left, broken, MAX_FRAME);
    if next.Frame? {
      var f := next.bytes;
      var request := p.parse(f);
      var handled := if request.Call? then [Handled(token, request.op)] else [];
      assert request.Call? ==> handled[1..] == [];
      if IsBlank(f) {
        EveryOperationIsHandledOnce(p, token, AfterFrame(left), broken, done, writable);
      } else if writable > 0 {
        var ops := if request.Call? then done + [request.op] else done;
        EveryOperationIsHandledOnce(p, token, AfterFrame(left), broken, ops, writable - 1);
        RepliesOfTurn(handled, ReplyTo(p, token, f, done),
            Conversation(p, token, AfterFrame(left), broken, ops, writable - 1));
      } else {
        assert handled + [] == handled;
      }
    }
  }

  lemma OperationsUnfold(p: Peer, left: seq<byte>, broken: bool, writable: nat)
    ensures var all := OperationsIn(p, Take(Frames(left, broken), writable + 1));
            match NextFrame(left, broken, MAX_FRAME)
            case Frame(f) =>
              var rest := Frames(AfterFrame(left), broken);
              if IsBlank(f) then Frames(left, broken) == rest
              else all == (if p.parse(f).Call? then [p.parse(f).op] else []) + OperationsIn(p, Take(rest, writable))
                   && (writable == 0 ==> OperationsIn(p, Take(rest, writable)) == [])
            case _ => all == []
  {
    hide NextFrame, AfterFrame, IsBlank;
    var next := NextFrame(left, broken, MAX_FRAME);
    if next.Frame? {
      var rest := Frames(AfterFrame(left), broken);
      assert [] + rest == rest;
      var longer := Take([next.bytes] + rest, writable + 1);
      assert longer == [next.bytes] + Take(rest, writable);
      assert longer[1..] == Take(rest, writable);
    }
  }

  // ---- The whole connection ----

  /**
   * What a connection answers, all in all: the welcome and then what is due to the frames after it,
   * or the one reply that ends it; and nothing after the peer took its last write.
   */
  lemma ServedReplies(p: Peer, left: seq<byte>, broken: bool, writable: nat)
    ensures var replies := Replies(Served(p, left, broken, writable));
            match NextFrame(left, broken, MAX_FRAME)
            case EndOfStream => replies == []
            case IoError => replies == []
            case TooLarge => replies == Take([FrameTooLarge], writable)
            case Frame(f) =>
              match p.parse(f)
              case Hello(token) =>
                (match p.greet(token)
                 case Welcome(reply) =>
                   replies == Take([reply] + Due(p, token, AfterFrame(left), broken, []), writable)
                 case Refused(reply) => replies == Take([reply], writable))
              case _ => replies == Take([Unauthorized], writable)
  {
    hide NextFrame, AfterFrame, Conversation, Due;
    var next := NextFrame(left, broken, MAX_FRAME);
    if next.Frame? && p.parse(next.bytes).Hello? && writable > 0 {
      var token := p.parse(next.bytes).token;
      var reply := p.greet(token).reply;
      var talk := if p.greet(token).Welcome?
                  then Conversation(p, token, AfterFrame(left), broken, [], writable - 1) else [];
      RepliesOfHello(token, reply, talk);
      if p.greet(token).Welcome? {
        OneReplyEachInOrder(p, token, AfterFrame(left), broken, [], writable - 1);
        TakeCons(reply, Due(p, token, AfterFrame(left), broken, []), writable);
      }
    }
  }

  lemma RepliesOfHello(token: Token, reply: Response, talk: seq<Event>)
    ensures Replies([Asked(token), Sent(reply)] + talk) == [reply] + Replies(talk)
    ensures HandledOps([Asked(token), Sent(reply)] + talk) == HandledOps(talk)
  {
    var trace := [Asked(token), Sent(reply)] + talk;
    assert trace[1..][0] == Sent(reply) && trace[1..][1..] == talk;
  }

  /** What a connection's handler gets to do: the frames' operations after an accepted hello, and nothing otherwise. */
  lemma ServedOperations(p: Peer, left: seq<byte>, broken: bool, writable: nat)
    ensures var next := NextFrame(left, broken, MAX_FRAME);
            var greeted := next.Frame? && p.parse(next.bytes).Hello? && writable > 0;
            HandledOps(Served(p, left, broken, writable))
            == if greeted && p.greet(p.parse(next.bytes).token).Welcome?
               then OperationsIn(p, Take(Frames(AfterFrame(left), broken), writable))
               else []
  {
    hide NextFrame, AfterFrame, Conversation;
    var next := NextFrame(left, broken, MAX_FRAME);
    if next.Frame? && p.parse(next.bytes).Hello? && writable > 0 {
      var token := p.parse(next.bytes).token;
      var reply := p.greet(token).reply;
      if p.greet(token).Welcome? {
        RepliesOfHello(token, reply, Conversation(p, token, AfterFrame(left), broken, [], writable - 1));
        EveryOperationIsHandledOnce(p, token, AfterFrame(left), broken, [], writable - 1);
      } else {
        RepliesOfHello(token, reply, []);
      }
    }
  }

  // ---- What the frames are, byte by byte ----

  /** A whole line: blank ones are no frames, others are, without the carriage return at their end. */
  lemma FramesOfALine(line: seq<byte>, rest: seq<byte>, broken: bool)
    requires NEWLINE !in line && |line| <= MAX_FRAME
    ensures var body := if line != [] && line[|line| - 1] == 13 then line[..|line| - 1] else line;
            && Frames(line + [NEWLINE] + rest, broken)
               == (if forall i :: 0 <= i < |body| ==> body[i] in [9, 12, 13, 32] then [] else [body])
                  + Frames(rest, broken)
            && EndsTooLarge(line + [NEWLINE] + rest, broken) == EndsTooLarge(rest, broken)
  {
    var left := line + [NEWLINE] + rest;
    assert left == line + ([NEWLINE] + rest);
    LineGoesOn(line, [NEWLINE] + rest);
    assert left[..|line|] == line && left[|line| + 1..] == rest;
    var body := WithoutReturn(line);
    assert NextFrame(left, broken, MAX_FRAME) == Frame(body) && AfterFrame(left) == rest;
    forall i | 0 <= i < |body| ensures body[i] != NEWLINE { assert body[i] == line[i] && line[i] in line; }
    hide LineLength, NextFrame, AfterFrame;
  }

  /** The end of the stream: what is left is a frame too, unless the stream broke. */
  lemma FramesAtTheEnd(line: seq<byte>, broken: bool)
    requires NEWLINE !in line && |line| <= MAX_FRAME
    ensures Frames(line, broken)
            == if broken || (forall i :: 0 <= i < |line| ==> line[i] in [9, 12, 13, 32]) then [] else [line]
    ensures !EndsTooLarge(line, broken)
  {
    AtEnd(line, broken, MAX_FRAME);
    forall i | 0 <= i < |line| ensures line[i] != NEWLINE { assert line[i] in line; }
    NoFrames(broken);
    hide LineLength, NextFrame, AfterFrame;
  }

  lemma NoFrames(broken: bool)
    ensures Frames([], broken) == [] && !EndsTooLarge([], broken)
  {
  }

  /** A line that is too long ends the frames. */
  lemma FramesEndTooLarge(line: seq<byte>, more: seq<byte>, broken: bool)
    requires NEWLINE !in line && |line| > MAX_FRAME
    ensures Frames(line + more, broken) == [] && EndsTooLarge(line + more, broken)
  {
    LineGoesOn(line, more);
  }
}
