/** The client session: Init, check Agree, then one request per block from
    the last block to the first, appending each answer in the order
    received; the joined answers are the content written out, and nothing is
    written if the session stops early. */
module Client {

  import opened Results
  import opened Bytes
  import opened Codec
  import opened Chunker

  /** Why the client stopped without writing its output file. */
  datatype ClientError =
    | ChunkFailed(cause: ChunkError)
    | ConnectionBroken
    | UnexpectedAgree(got: nat)
    | UnexpectedAnswer(got: nat)
    | NotAscii

  /** What the client did on its connection: the bytes it sent, and either
      the content of the output file or the reason none was written. */
  datatype ClientRun = ClientRun(sent: seq<byte>, output: Result<seq<char>, ClientError>)

  /** Blocks the client can send without `struct.pack` or `str.encode`
      raising: fewer than 2^32 of them, each shorter than 2^32 and ASCII. */
  predicate Sendable(blocks: seq<seq<char>>)
  {
    && |blocks| < TWO32
    && forall i :: 0 <= i < |blocks| ==> |blocks[i]| < TWO32 && IsAscii(blocks[i])
  }

  /** The request carrying block `i`. */
  function RequestFor(blocks: seq<seq<char>>, i: nat): (m: Message)
    requires Sendable(blocks) && i < |blocks|
    ensures Encodable(m)
  {
    ReverseRequest(EncodeAscii(blocks[i]))
  }

  /** The requests in the order the client sends them: the block with index
      `|blocks| - 1` first, the block with index 0 last. */
  function RequestsBackwards(blocks: seq<seq<char>>): (ms: seq<Message>)
    requires Sendable(blocks)
    ensures |ms| == |blocks|
    ensures forall j :: 0 <= j < |ms| ==> Encodable(ms[j])
  {
    seq(|blocks|, j requires 0 <= j < |blocks| => RequestFor(blocks, |blocks| - 1 - j))
  }

  /** Everything a client that finishes sends: Init with the block count,
      then the requests in backwards order. */
  function Transmission(blocks: seq<seq<char>>): seq<byte>
    requires Sendable(blocks)
  {
    Encode(Init(|blocks|)) + EncodeAll(RequestsBackwards(blocks))
  }

  /** The send/receive loop with `i` blocks left to send (the next one being
      block `i - 1`), the server's unread bytes `input`, and the answers
      received so far. Each request is sent before its answer is read. */
  function Collect(blocks: seq<seq<char>>, i: nat, input: seq<byte>, received: seq<seq<char>>): (r: ClientRun)
    requires Sendable(blocks) && i <= |blocks|
    ensures r.sent <= EncodeAll(RequestsBackwards(blocks)[|blocks| - i..])
    ensures r.output.Ok? ==> r.sent == EncodeAll(RequestsBackwards(blocks)[|blocks| - i..])
    decreases i
  {
    var skipped := RequestsBackwards(blocks)[|blocks| - i..];
    if i == 0 then
      ClientRun([], Ok(Concat(received)))
    else
      assert skipped[0] == RequestFor(blocks, i - 1);
      assert skipped[1..] == RequestsBackwards(blocks)[|blocks| - (i - 1)..];
      var request := Encode(RequestFor(blocks, i - 1));
      match Decode(ResponseKind, input)
      case Err(Truncated) => ClientRun(request, Err(ConnectionBroken))
      case Err(WrongType(t)) => ClientRun(request, Err(UnexpectedAnswer(t)))
      case Ok((answer, rest)) =>
        match DecodeAscii(answer.payload)
        case None => ClientRun(request, Err(NotAscii))
        case Some(text) =>
          var r := Collect(blocks, i - 1, rest, received + [text]);
          ClientRun(request + r.sent, r.output)
  }

  /** The session after the connection is made, given the bytes the server
      sends on it: Init first, then Agree must arrive, then the loop. */
  function Exchange(blocks: seq<seq<char>>, fromServer: seq<byte>): (r: ClientRun)
    requires Sendable(blocks)
    ensures r.sent <= Transmission(blocks)
    ensures r.output.Ok? ==> r.sent == Transmission(blocks)
  {
    var init := Encode(Init(|blocks|));
    assert RequestsBackwards(blocks)[0..] == RequestsBackwards(blocks);
    match Decode(AgreeKind, fromServer)
    case Err(Truncated) => ClientRun(init, Err(ConnectionBroken))
    case Err(WrongType(t)) => ClientRun(init, Err(UnexpectedAgree(t)))
    case Ok((_, rest)) =>
      var r := Collect(blocks, |blocks|, rest, []);
      ClientRun(init + r.sent, r.output)
  }

  /** The whole client: split the text, then run the session. A failed
      split stops the client before it connects. */
  function Session(content: seq<char>, minLen: nat, maxLen: nat, draw: nat -> nat, fromServer: seq<byte>): (r: ClientRun)
    requires 1 <= minLen
    requires IsAscii(content) && |content| < TWO32
    ensures Chunk(content, minLen, maxLen, draw).Err? ==> r.sent == [] && r.output.Err?
    ensures r.output.Ok? ==> Chunk(content, minLen, maxLen, draw).Ok? &&
                             Sendable(Chunk(content, minLen, maxLen, draw).value) &&
                             r.sent == Transmission(Chunk(content, minLen, maxLen, draw).value)
  {
    match Chunk(content, minLen, maxLen, draw)
    case Err(e) => ClientRun([], Err(ChunkFailed(e)))
    case Ok(blocks) =>
      ChunkSendable(content, minLen, maxLen, draw);
      Exchange(blocks, fromServer)
  }

  /** The blocks of an ASCII text shorter than 2^32 can all be sent. */
  lemma ChunkSendable(content: seq<char>, minLen: nat, maxLen: nat, draw: nat -> nat)
    requires 1 <= minLen && IsAscii(content) && |content| < TWO32
    requires Chunk(content, minLen, maxLen, draw).Ok?
    ensures Sendable(Chunk(content, minLen, maxLen, draw).value)
  {
    var blocks := Chunk(content, minLen, maxLen, draw).value;
    WellShapedNonEmpty(blocks, minLen, maxLen);
    ConcatLength(blocks);
    forall i | 0 <= i < |blocks| ensures IsAscii(blocks[i]) {
      forall c | c in blocks[i] ensures c as int < 128 {
        ConcatContains(blocks, i, c);
      }
    }
  }

  /** The answers carrying `texts`, in order. */
  function Responses(texts: seq<seq<char>>): (ms: seq<Message>)
    requires forall j :: 0 <= j < |texts| ==> |texts[j]| < TWO32 && IsAscii(texts[j])
    ensures |ms| == |texts|
    ensures forall j :: 0 <= j < |ms| ==> Encodable(ms[j])
  {
    seq(|texts|, j requires 0 <= j < |texts| => ReverseResponse(EncodeAscii(texts[j])))
  }

  /** An Agree carrying a type code other than 2 stops the client after
      it has sent only Init, with no output written. */
  lemma RejectsWrongAgree(blocks: seq<seq<char>>, fromServer: seq<byte>)
    requires Sendable(blocks)
    requires 2 <= |fromServer| && UnpackU16(fromServer[..2]) != AGREE
    ensures Exchange(blocks, fromServer) ==
            ClientRun(Encode(Init(|blocks|)), Err(UnexpectedAgree(UnpackU16(fromServer[..2]))))
  {
    var t := UnpackU16(fromServer[..2]);
    U16Canonical(fromServer[..2]);
    assert fromServer == PackU16(t) + fromServer[2..];
    DecodeWrongAgree(t, fromServer[2..]);
  }

  /** An answer received while `i` blocks are left: the request for block
      `i - 1` goes out, the answer's text is appended, and the loop goes on. */
  lemma CollectAnswer(blocks: seq<seq<char>>, i: nat, text: seq<char>, tail: seq<byte>, received: seq<seq<char>>)
    requires Sendable(blocks) && 0 < i <= |blocks|
    requires |text| < TWO32 && IsAscii(text)
    ensures var r := Collect(blocks, i - 1, tail, received + [text]);
            Collect(blocks, i, Encode(ReverseResponse(EncodeAscii(text))) + tail, received)
            == ClientRun(Encode(RequestFor(blocks, i - 1)) + r.sent, r.output)
  {
    DecodeEncode(ReverseResponse(EncodeAscii(text)), tail);
    AsciiRoundTrip(text);
  }

  /** Splits the first answer off a run of answers. */
  lemma ResponsesCons(texts: seq<seq<char>>, rest: seq<byte>)
    requires 0 < |texts|
    requires forall j :: 0 <= j < |texts| ==> |texts[j]| < TWO32 && IsAscii(texts[j])
    ensures EncodeAll(Responses(texts)) + rest
            == Encode(ReverseResponse(EncodeAscii(texts[0]))) + (EncodeAll(Responses(texts[1..])) + rest)
  {
    assert Responses(texts)[1..] == Responses(texts[1..]);
  }

  /** The first of a run of answers is appended before the rest are read. */
  lemma FirstAnswer(blocks: seq<seq<char>>, i: nat, texts: seq<seq<char>>, rest: seq<byte>,
                    received: seq<seq<char>>, output: Result<seq<char>, ClientError>)
    requires Sendable(blocks) && 0 < i <= |blocks| && 0 < |texts|
    requires forall j :: 0 <= j < |texts| ==> |texts[j]| < TWO32 && IsAscii(texts[j])
    requires Collect(blocks, i - 1, EncodeAll(Responses(texts[1..])) + rest, received + [texts[0]]).output == output
    ensures Collect(blocks, i, EncodeAll(Responses(texts)) + rest, received).output == output
  {
    ResponsesCons(texts, rest);
    CollectAnswer(blocks, i, texts[0], EncodeAll(Responses(texts[1..])) + rest, received);
  }

  /** Answers received for every outstanding request are appended in the
      order they arrive, and the output is their concatenation. */
  lemma {:induction false} CollectsInReceiptOrder(blocks: seq<seq<char>>, texts: seq<seq<char>>, rest: seq<byte>, received: seq<seq<char>>)
    requires Sendable(blocks) && |texts| <= |blocks|
    requires forall j :: 0 <= j < |texts| ==> |texts[j]| < TWO32 && IsAscii(texts[j])
    ensures Collect(blocks, |texts|, EncodeAll(Responses(texts)) + rest, received).output == Ok(Concat(received + texts))
  {
    if |texts| == 0 {
      assert received + texts == received;
    } else {
      CollectsInReceiptOrder(blocks, texts[1..], rest, received + [texts[0]]);
      AppendCons(received, texts);
      FirstAnswer(blocks, |texts|, texts, rest, received, Ok(Concat(received + texts)));
    }
  }

  /** A whole session in which Agree and then one answer per block arrive:
      the output file receives the answers joined in the order received. */
  lemma Reassembles(blocks: seq<seq<char>>, texts: seq<seq<char>>, rest: seq<byte>)
    requires Sendable(blocks) && |texts| == |blocks|
    requires forall j :: 0 <= j < |texts| ==> |texts[j]| < TWO32 && IsAscii(texts[j])
    ensures Exchange(blocks, Encode(Agree) + (EncodeAll(Responses(texts)) + rest)).output == Ok(Concat(texts))
  {
    DecodeEncode(Agree, EncodeAll(Responses(texts)) + rest);
    CollectsInReceiptOrder(blocks, texts, rest, []);
    assert [] + texts == texts;
  }

  /** An answer carrying a type code other than 4, arriving while a request
      is outstanding, stops the client at once with no output written. */
  lemma WrongAnswerNow(blocks: seq<seq<char>>, i: nat, t: nat, v: nat, rest: seq<byte>, received: seq<seq<char>>)
    requires Sendable(blocks) && 0 < i <= |blocks|
    requires t < TWO16 && v < TWO32 && t != RESPONSE
    ensures Collect(blocks, i, PackHI(t, v) + rest, received).output == Err(UnexpectedAnswer(t))
  {
    DecodeWrongType(ResponseKind, t, v, rest);
  }

  /** An answer carrying a type code other than 4, arriving after the
      answers `texts` and while requests are still outstanding, stops the
      client with no output written. */
  lemma {:induction false} StopsAtWrongAnswer(blocks: seq<seq<char>>, i: nat, texts: seq<seq<char>>, t: nat, v: nat, rest: seq<byte>, received: seq<seq<char>>)
    requires Sendable(blocks) && |texts| < i <= |blocks|
    requires forall j :: 0 <= j < |texts| ==> |texts[j]| < TWO32 && IsAscii(texts[j])
    requires t < TWO16 && v < TWO32 && t != RESPONSE
    ensures Collect(blocks, i, EncodeAll(Responses(texts)) + (PackHI(t, v) + rest), received).output
            == Err(UnexpectedAnswer(t))
  {
    if |texts| == 0 {
      assert EncodeAll(Responses(texts)) + (PackHI(t, v) + rest) == PackHI(t, v) + rest;
      WrongAnswerNow(blocks, i, t, v, rest, received);
    } else {
      StopsAtWrongAnswer(blocks, i - 1, texts[1..], t, v, rest, received + [texts[0]]);
      FirstAnswer(blocks, i, texts, PackHI(t, v) + rest, received, Err(UnexpectedAnswer(t)));
    }
  }

  /** A wrong answer type anywhere in the session means no output. */
  lemma RejectsWrongAnswer(blocks: seq<seq<char>>, texts: seq<seq<char>>, t: nat, v: nat, rest: seq<byte>)
    requires Sendable(blocks) && |texts| < |blocks|
    requires forall j :: 0 <= j < |texts| ==> |texts[j]| < TWO32 && IsAscii(texts[j])
    requires t < TWO16 && v < TWO32 && t != RESPONSE
    ensures Exchange(blocks, Encode(Agree) + (EncodeAll(Responses(texts)) + (PackHI(t, v) + rest))).output
            == Err(UnexpectedAnswer(t))
  {
    DecodeEncode(Agree, EncodeAll(Responses(texts)) + (PackHI(t, v) + rest));
    StopsAtWrongAnswer(blocks, |blocks|, texts, t, v, rest, []);
  }
}
