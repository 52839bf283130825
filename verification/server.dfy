/** The server's per-connection handler (`handle_client`) as a state
    machine stepped over the bytes the client sent on the connection. */
module Server {

  import opened Results
  import opened Bytes
  import opened Codec

  /** How the handler left: all declared blocks answered, a wrong type
      code in the Init or in a request, or the stream ending early (the
      exception path). */
  datatype Exit = Completed | InvalidInit(got: nat) | InvalidRequest(got: nat) | ConnectionBroken

  /** Waiting for Init, serving requests with `remaining` still to come, or
      closed. */
  datatype State = AwaitingInit | AwaitingRequest(remaining: nat) | Closed(exit: Exit)

  /** One move of the handler: the next state, the unread rest of the
      input, and the bytes written to the connection. */
  datatype Transition = Transition(next: State, rest: seq<byte>, sent: seq<byte>)

  /** The Agree message the handler sends after a valid Init. */
  function AgreeBytes(): seq<byte>
  {
    Encode(Agree)
  }

  /** The response to a request payload: the payload's bytes reversed,
      under a header carrying type 4 and the payload's length. */
  function Answer(payload: seq<byte>): (m: Message)
    requires |payload| < TWO32
    ensures Encodable(m)
  {
    ReverseIndex(payload);
    ReverseResponse(Reverse(payload))
  }

  /** One step of the handler from a state that is not closed. */
  function Step(s: State, input: seq<byte>): (t: Transition)
    requires !s.Closed?
    ensures !t.next.AwaitingInit?
    ensures s.AwaitingRequest? && t.next.AwaitingRequest? ==> t.next.remaining < s.remaining
  {
    match s
    case AwaitingInit =>
      (match Decode(InitKind, input)
       case Err(Truncated) => Transition(Closed(ConnectionBroken), input, [])
       case Err(WrongType(t)) => Transition(Closed(InvalidInit(t)), input, [])
       case Ok((m, rest)) => Transition(AwaitingRequest(m.numBlocks), rest, AgreeBytes()))
    case AwaitingRequest(remaining) =>
      if remaining == 0 then Transition(Closed(Completed), input, [])
      else
        match Decode(RequestKind, input)
        case Err(Truncated) => Transition(Closed(ConnectionBroken), input, [])
        case Err(WrongType(t)) => Transition(Closed(InvalidRequest(t)), input, [])
        case Ok((m, rest)) => Transition(AwaitingRequest(remaining - 1), rest, Encode(Answer(m.payload)))
  }

  /** What a whole connection did: the bytes sent, the number of requests
      answered, and the final state. */
  datatype ServerRun = ServerRun(sent: seq<byte>, answered: nat, final: State)

  /** Runs the handler from state `s` until it closes. The connection is
      closed on every path, and from `AwaitingRequest(n)` at most `n`
      requests are answered. */
  function Run(s: State, input: seq<byte>): (r: ServerRun)
    ensures r.final.Closed?
    ensures s.AwaitingRequest? ==> r.answered <= s.remaining
    ensures s.Closed? ==> r.sent == [] && r.answered == 0
    decreases if s.AwaitingInit? then 1 else 0, if s.AwaitingRequest? then s.remaining else 0, if s.Closed? then 0 else 1
  {
    if s.Closed? then ServerRun([], 0, s)
    else
      var t := Step(s, input);
      var r := Run(t.next, t.rest);
      var answered := if s.AwaitingRequest? && t.next.AwaitingRequest? then r.answered + 1 else r.answered;
      ServerRun(t.sent + r.sent, answered, r.final)
  }

  /** Running from a state that is not closed is one step followed by the
      run from the state it leads to. */
  lemma RunStep(s: State, input: seq<byte>, t: Transition, r: ServerRun)
    requires !s.Closed? && Step(s, input) == t && Run(t.next, t.rest) == r
    ensures Run(s, input) == ServerRun(t.sent + r.sent,
                                       if s.AwaitingRequest? && t.next.AwaitingRequest? then r.answered + 1 else r.answered,
                                       r.final)
  {
  }

  /** `handle_client(conn)` on a connection whose incoming bytes are `input`. */
  function Handle(input: seq<byte>): (r: ServerRun)
    ensures r.final.Closed?
  {
    Run(AwaitingInit, input)
  }

  /** The handler writes anything at all exactly when the first six bytes
      form an Init header (type 1), and then its first output is exactly the
      two bytes `0x00 0x02`; otherwise it closes without sending Agree. */
  lemma SilentUnlessInit(input: seq<byte>)
    ensures Handle(input).sent != [] <==> 6 <= |input| && UnpackHI(input[..6]).0 == INIT
    ensures Handle(input).sent != [] ==> Handle(input).sent[..2] == [0, 2]
  {
    var t := Step(AwaitingInit, input);
    if 6 <= |input| && UnpackHI(input[..6]).0 == INIT {
      var m := Decode(InitKind, input).value.0;
      assert t.sent == [0, 2];
    } else if 6 <= |input| {
      var (code, v) := UnpackHI(input[..6]);
      HICanonical(input[..6]);
      assert input == PackHI(code, v) + input[6..];
      DecodeWrongType(InitKind, code, v, input[6..]);
    }
  }

  /** When the Init header is well-formed, the handler answers no more
      requests than the Init declared. */
  lemma AnswersAtMostDeclared(input: seq<byte>)
    requires 6 <= |input|
    ensures Handle(input).answered <= UnpackHI(input[..6]).1
  {
    match Decode(InitKind, input)
    case Ok((m, rest)) =>
      HIRoundTrip(INIT, m.numBlocks);
      assert input[..6] == PackHI(INIT, m.numBlocks);
    case Err(_) =>
  }

  /** The requests carrying `payloads`, in order. */
  function Requests(payloads: seq<seq<byte>>): seq<Message>
  {
    seq(|payloads|, i requires 0 <= i < |payloads| => ReverseRequest(payloads[i]))
  }

  predicate AllFit(payloads: seq<seq<byte>>)
  {
    forall i :: 0 <= i < |payloads| ==> |payloads[i]| < TWO32
  }

  /** The answers to `payloads`, in order. */
  function Answers(payloads: seq<seq<byte>>): (ms: seq<Message>)
    requires AllFit(payloads)
    ensures |ms| == |payloads|
    ensures forall i :: 0 <= i < |ms| ==> Encodable(ms[i])
  {
    seq(|payloads|, i requires 0 <= i < |payloads| => Answer(payloads[i]))
  }

  /** A request that arrives while blocks remain is answered with its
      reversal, and the handler goes on with one block fewer. */
  lemma AnswerThen(remaining: nat, p: seq<byte>, tail: seq<byte>)
    requires 0 < remaining && |p| < TWO32
    ensures var r := Run(AwaitingRequest(remaining - 1), tail);
            Run(AwaitingRequest(remaining), Encode(ReverseRequest(p)) + tail)
            == ServerRun(Encode(Answer(p)) + r.sent, r.answered + 1, r.final)
  {
    DecodeEncode(ReverseRequest(p), tail);
    var t := Transition(AwaitingRequest(remaining - 1), tail, Encode(Answer(p)));
    RunStep(AwaitingRequest(remaining), Encode(ReverseRequest(p)) + tail, t, Run(t.next, t.rest));
  }

  /** A request with the wrong type code closes the connection unanswered. */
  lemma RejectsWrongRequest(remaining: nat, t: nat, v: nat, rest: seq<byte>)
    requires 0 < remaining && t < TWO16 && v < TWO32 && t != REQUEST
    ensures Run(AwaitingRequest(remaining), PackHI(t, v) + rest) == ServerRun([], 0, Closed(InvalidRequest(t)))
  {
    DecodeWrongType(RequestKind, t, v, rest);
    RunStep(AwaitingRequest(remaining), PackHI(t, v) + rest,
            Transition(Closed(InvalidRequest(t)), PackHI(t, v) + rest, []),
            ServerRun([], 0, Closed(InvalidRequest(t))));
  }

  /** Splits the first request off a run of requests, and its answer off
      the run of answers. */
  lemma RequestsCons(payloads: seq<seq<byte>>, rest: seq<byte>)
    requires AllFit(payloads) && |payloads| > 0
    ensures AllFit(payloads[1..])
    ensures EncodeAll(Requests(payloads)) + rest
            == Encode(ReverseRequest(payloads[0])) + (EncodeAll(Requests(payloads[1..])) + rest)
    ensures EncodeAll(Answers(payloads)) == Encode(Answer(payloads[0])) + EncodeAll(Answers(payloads[1..]))
  {
    assert Requests(payloads)[1..] == Requests(payloads[1..]);
    assert Answers(payloads)[1..] == Answers(payloads[1..]);
  }

  /** The first of a run of requests is answered before the rest are
      read, so the answers go out in the order of the requests. */
  lemma AnswerFirst(payloads: seq<seq<byte>>, remaining: nat, rest: seq<byte>, final: State)
    requires AllFit(payloads) && 0 < |payloads| && 0 < remaining
    requires AllFit(payloads[1..])
    requires Run(AwaitingRequest(remaining - 1), EncodeAll(Requests(payloads[1..])) + rest)
             == ServerRun(EncodeAll(Answers(payloads[1..])), |payloads| - 1, final)
    ensures Run(AwaitingRequest(remaining), EncodeAll(Requests(payloads)) + rest)
            == ServerRun(EncodeAll(Answers(payloads)), |payloads|, final)
  {
    RequestsCons(payloads, rest);
    AnswerThen(remaining, payloads[0], EncodeAll(Requests(payloads[1..])) + rest);
  }

  /** Serving `n` requests whose payloads are `payloads`: one reversed
      answer per request, in order, after which the handler completes
      without reading further. */
  lemma {:induction false} ServesRequests(payloads: seq<seq<byte>>, rest: seq<byte>)
    requires AllFit(payloads)
    ensures Run(AwaitingRequest(|payloads|), EncodeAll(Requests(payloads)) + rest)
            == ServerRun(EncodeAll(Answers(payloads)), |payloads|, Closed(Completed))
  {
    if |payloads| != 0 {
      assert AllFit(payloads[1..]);
      ServesRequests(payloads[1..], rest);
      AnswerFirst(payloads, |payloads|, rest, Closed(Completed));
    }
  }

  /** A request carrying a type code other than 3, arriving after `payloads`
      have been served and while more were declared, ends the loop: no
      answer is sent for it and the connection is closed. */
  lemma {:induction false} StopsAtWrongRequest(payloads: seq<seq<byte>>, remaining: nat, t: nat, v: nat, rest: seq<byte>)
    requires AllFit(payloads) && |payloads| < remaining
    requires t < TWO16 && v < TWO32 && t != REQUEST
    ensures Run(AwaitingRequest(remaining), EncodeAll(Requests(payloads)) + (PackHI(t, v) + rest))
            == ServerRun(EncodeAll(Answers(payloads)), |payloads|, Closed(InvalidRequest(t)))
  {
    if |payloads| == 0 {
      RejectsWrongRequest(remaining, t, v, rest);
      assert EncodeAll(Requests(payloads)) == [] && EncodeAll(Answers(payloads)) == [];
      assert EncodeAll(Requests(payloads)) + (PackHI(t, v) + rest) == PackHI(t, v) + rest;
    } else {
      assert AllFit(payloads[1..]);
      StopsAtWrongRequest(payloads[1..], remaining - 1, t, v, rest);
      AnswerFirst(payloads, remaining, PackHI(t, v) + rest, Closed(InvalidRequest(t)));
    }
  }

  /** A whole well-behaved connection: Init declaring as many blocks as
      there are requests, then the requests. The handler sends Agree, then
      one answer per request in order, and completes. */
  lemma ServesSession(payloads: seq<seq<byte>>, rest: seq<byte>)
    requires AllFit(payloads) && |payloads| < TWO32
    ensures Handle(Encode(Init(|payloads|)) + (EncodeAll(Requests(payloads)) + rest))
            == ServerRun(AgreeBytes() + EncodeAll(Answers(payloads)), |payloads|, Closed(Completed))
  {
    var tail := EncodeAll(Requests(payloads)) + rest;
    var input := Encode(Init(|payloads|)) + tail;
    DecodeEncode(Init(|payloads|), tail);
    ServesRequests(payloads, rest);
    RunStep(AwaitingInit, input, Transition(AwaitingRequest(|payloads|), tail, AgreeBytes()),
            ServerRun(EncodeAll(Answers(payloads)), |payloads|, Closed(Completed)));
  }
}
