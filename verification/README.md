# Reverse-TCP protocol core in Dafny

This project models the protocol core shared by the two programs of the
reverse-TCP system (`reversetcpclient.py` and `reversetcpserver.py`) and proves
its properties.

- **The client** splits a text into random-length blocks. It sends an Init
  message with the block count and waits for Agree. It then sends the blocks
  from the last to the first as reversal requests. The answers are appended in
  the order received, and their concatenation is the output file's content.
- **The server handler** checks the Init and answers Agree. It then answers
  exactly the declared number of requests, each with the byte reversal of the
  request's payload. It closes the connection on every path.

Layout, one module per file:

- `results.dfy` has `Result` and `Option`. They stand for the programs'
  exceptions and early exits.
- `bytes.dfy` has bytes, concatenation of slices, reversal, and ASCII
  encode/decode. It also holds the key equation
  `reverse(b0 ++ … ++ bn-1) == reverse(bn-1) ++ … ++ reverse(b0)`.
- `stream.dfy` has `recv_exact` and `send_all`. Both are loops over a socket
  that moves any number of bytes per call; an oracle picks that number. `Take`
  is the whole-stream view of `recv_exact`, which the loop is proved to
  implement for every fragmentation.
- `codec.dfy` has the big-endian `>H` and `>HI` layouts, the four messages
  (type codes 1–4), and their encoding and state-directed decoding.
- `chunker.dfy` has the chunking loop. `random.randint` is an injected oracle
  mapped into the requested range, so every in-range choice is reachable.
- `server.dfy` has `handle_client`. It is a state machine
  (`AwaitingInit`, `AwaitingRequest(remaining)`, `Closed(exit)`) stepped over
  the bytes the client sent.
- `client.dfy` has the client session. It is a function of the bytes the
  server sent, and it returns what the client sent and either the output
  content or the reason nothing was written.
- `session.dfy` connects the two sides by one byte stream per direction, as a
  pair `c2s` / `s2c` in which each side's output is what it sends given the
  other's. It proves the round trip and the worked example.

## Model

| member | source | states |
|---|---|---|
| Stream.RecvExact | reversetcpclient.py:17-24 | For every way the socket fragments the stream, the loop returns exactly the first `n` bytes and leaves the rest unread, so it never over-reads. It fails with ConnectionBroken exactly when fewer than `n` bytes ever arrive. |
| Stream.Take | reversetcpserver.py:7-14 | The whole-stream reading of the server's `recv_exact`: it succeeds iff at least `n` bytes remain, and then returns `n` bytes which, followed by the rest, are the stream. |
| Stream.SendAll | reversetcpclient.py:8-14 | What reaches the stream is always a prefix of `data`, and the call succeeds iff all of `data` went out. It raises `ConnectionBroken` exactly when some `send` call is the first to send nothing while bytes remain. What went out is then exactly what the calls before it sent. |
| Stream.SentGrows | reversetcpclient.py:10-14 | The count of bytes sent never decreases from one call of the loop to the next. |
| Codec.PackHILayout | reversetcpclient.py:73 | A `>HI` header is six bytes, big-endian: the type's high and low byte, then the 32-bit value from its most to its least significant byte. |
| Codec.Encode | reversetcpclient.py:73-92 | Agree is the two bytes `0x00 0x02`. Every other message starts with a 6-byte header that unpacks to its type code and to its block count or payload length. Init is that header alone. A request or response has its payload right after the header. |
| Codec.HIRoundTrip | reversetcpserver.py:26 | Unpacking with `>HI` gives back the type and count the client packed. |
| Codec.HICanonical | reversetcpserver.py:39 | Every 6-byte header is the packing of what it unpacks to, so `>HI` is a bijection between headers and (u16, u32) pairs. |
| Codec.U16Canonical | reversetcpclient.py:78 | Every 2-byte `>H` header is the packing of the type it unpacks to. |
| Codec.Decode | reversetcpclient.py:95-101 | A decoded message has the expected kind, fits its length field, and its encoding followed by the returned rest is exactly the input, so the header is read first and then exactly the declared payload. |
| Codec.DecodeEncode | reversetcpserver.py:38-46 | Decoding a message encoded in front of any stream gives that message and that stream: frames are never split or merged. |
| Codec.DecodeWrongType | reversetcpserver.py:41-43 | A 6-byte header with an unexpected type code is rejected with that code before any payload is read. |
| Codec.DecodeWrongAgree | reversetcpclient.py:77-81 | A 2-byte header other than type 2 is rejected when Agree is expected. |
| Chunker.Pick | reversetcpclient.py:57 | The injected `randint(lo, hi)` lies in `[lo, hi]`. |
| Chunker.ChunkFrom | reversetcpclient.py:53-59 | The recursive chunker fails only when `randint` is asked for an empty range `[min_len, hi]` with `hi < min_len`, which needs `max_len < min_len`. |
| Chunker.ChunkFromSound | reversetcpclient.py:53-59 | For every sequence of random choices, a successful split concatenates back to the text, and each block obeys the length rule for what remained when it was cut. The split fails, because `randint` gets an empty range, exactly when `maxLen < minLen <= len(rest)`. |
| Chunker.Chunk | reversetcpclient.py:50-60 | The same two facts for the whole content. |
| Chunker.ChunkLoop | reversetcpclient.py:50-60 | The `while` loop as written gives the same result. On success its blocks rebuild `content` and `index` ends equal to `total_len`. |
| Chunker.WellShapedNonEmpty | reversetcpclient.py:53-60 | With `min_len >= 1` every block is non-empty. There are at most `len(content)` blocks, and `num_blocks == 0` iff the content is empty. |
| Chunker.Reachable | reversetcpclient.py:54-57 | Conversely, every split obeying the length rule is produced by some sequence of random choices. |
| Chunker.ChunkStep | reversetcpclient.py:54-59 | One loop iteration cuts a block of the chosen length from the front and continues after it. |
| Bytes.ReverseIndex | reversetcpserver.py:48 | The recursive reversal is `[::-1]`: same length, with position `i` holding input position `len-1-i`. |
| Bytes.ReverseInvolutive | reversetcpserver.py:48 | Reversing a payload twice gives back the original. |
| Bytes.ReverseAppend | reversetcpserver.py:48 | Reversal of a concatenation is the concatenation of the reversals, swapped. |
| Bytes.ReverseConcat | reversetcpclient.py:86-114 | Reversed blocks concatenated from the last block to the first give the reversal of the concatenated blocks. |
| Bytes.ConcatAppend | reversetcpclient.py:114 | Joining distributes over appending lists of parts. |
| Bytes.DecodeAscii | reversetcpclient.py:101 | ASCII decoding succeeds iff every byte is below 128, and then re-encoding gives back the bytes. |
| Bytes.AsciiRoundTrip | reversetcpclient.py:92 | Decoding the ASCII encoding of a block gives back the block. |
| Bytes.AsciiReverse | reversetcpserver.py:48 | Reversing the encoded bytes is encoding the reversed text, so a byte-level server serves a character-level client. |
| Server.Step | reversetcpserver.py:17-53 | No step returns to awaiting Init. Every step that stays in the request loop lowers the remaining-block counter. |
| Server.Handle | reversetcpserver.py:17-59 | `handle_client` always ends with the connection closed, whatever arrives. |
| Server.Run | reversetcpserver.py:56-59 | Every run ends in the Closed state, on normal completion, a bad type or a broken stream. At most `remaining` requests are answered. |
| Server.SilentUnlessInit | reversetcpserver.py:26-34 | The handler sends anything iff the first six bytes carry type 1. Its first output is then exactly `0x00 0x02`; otherwise Agree is never sent. |
| Server.AnswersAtMostDeclared | reversetcpserver.py:36 | The handler answers no more requests than the Init's `num_blocks`. |
| Server.AnswerThen | reversetcpserver.py:46-53 | A request is answered by a response with type 4, length `data_len` and the reversed payload. The loop then continues with one block fewer. |
| Server.RejectsWrongRequest | reversetcpserver.py:41-43 | A request with a type other than 3 gets no response, and the connection closes with InvalidRequest. |
| Server.StopsAtWrongRequest | reversetcpserver.py:36-53 | After any number of good requests, a bad-type request ends the loop. Only the earlier requests have been answered, in order. |
| Server.AnswerFirst | reversetcpserver.py:36-53 | The first request of a run is answered before the rest are read, so answers go out in request order. |
| Server.ServesRequests | reversetcpserver.py:36-53 | Exactly `num_blocks` well-formed requests get one reversed answer each, in order. The handler then completes without reading more. |
| Server.ServesSession | reversetcpserver.py:17-59 | A well-behaved connection gets Agree followed by the answers, and the handler completes normally. |
| Client.Collect | reversetcpclient.py:86-106 | What the loop sends is always a prefix of the requests in order block `n-1` down to block 0. On success it is all of them. |
| Client.Session | reversetcpclient.py:50-114 | A failed split sends nothing and writes no output. A client that writes output sent Init and every request, in full. |
| Client.Exchange | reversetcpclient.py:73-106 | The client sends a prefix of Init followed by those requests, and all of it when the session succeeds. |
| Client.CollectAnswer | reversetcpclient.py:87-106 | One iteration sends the request for block `i-1`, decodes the answer and appends its text. |
| Client.CollectsInReceiptOrder | reversetcpclient.py:85-106 | Answers are appended in the order received, and the result is their concatenation. |
| Client.Reassembles | reversetcpclient.py:104-114 | If Agree and one answer per block arrive, the written content is the answers joined in receipt order. |
| Client.RejectsWrongAgree | reversetcpclient.py:77-81 | An Agree with a type other than 2 stops the client after Init alone, with no output. |
| Client.WrongAnswerNow | reversetcpclient.py:95-99 | An answer with a type other than 4, while a request is outstanding, stops the client at once with no output. |
| Client.StopsAtWrongAnswer | reversetcpclient.py:95-99 | An answer with a type other than 4 stops the loop with no output, however many answers came before. |
| Client.RejectsWrongAnswer | reversetcpclient.py:95-114 | In a whole session, a wrong answer type means the output file is never written. |
| Client.ChunkSendable | reversetcpclient.py:50-60 | The blocks of an ASCII text shorter than 2^32 are ASCII, fewer than 2^32, and each shorter than 2^32. |
| Session.AnswersAreReversedBlocks | reversetcpserver.py:46-53 | The server's answers to the client's requests are the blocks reversed, from the last block to the first. |
| Session.RoundTrip | reversetcpclient.py:50-114 | For every ASCII text shorter than 2^32 characters, every `1 <= min_len <= max_len` and every random choice, the server answers every block and completes. The client sends its whole transmission and outputs exactly the reversal of the text. |
| Session.HelloWorldChunks | reversetcpclient.py:53-59 | "HELLOWORLD" with lengths 3 to 5 and choices giving 5 then 4 splits into "HELLO", "WORL", "D". |
| Session.HelloWorldReversed | reversetcpclient.py:86-114 | Those blocks come back as "D", "LROW", "OLLEH", and the output "DLROWOLLEH" is the reversal of "HELLOWORLD". |

## Left out

- Sockets are not modelled: `connect`, `bind`, `listen`, `accept` and `SO_REUSEADDR`. The connect failure is not modelled either. Each direction of a connection is a byte sequence, and partial transfers come from an oracle.
- The server's accept loop and one daemon thread per connection are not modelled. They only add concurrency, and connections share no state, so one handler is modelled per connection.
- Command-line parsing, reading the input file, deriving the output file name, writing the file, and `print` logging are not modelled. The written content is the `Ok` value of the client's result, and an `Err` means no file is written.
- `random.randint` is an oracle `draw`, not a random generator.
- Both sides' writes are modelled as appending to the outgoing stream: the server's `conn.sendall` and the client's `send_all` in the session. Write failures to a closed peer are not modelled on either side. `Stream.SendAll` models the client's `send_all` on its own, including its failure.
- Client.Session: requires ASCII text shorter than 2^32 characters. That makes every block encodable. A longer text whose blocks each stay shorter than 2^32 is sent without error by the program, but it is not modelled. A non-ASCII text, or a block too long for `struct.pack`, makes the program raise; that is left out too. The server cannot overflow, because its lengths come from 32-bit fields.
- Chunker.Chunk: requires `min_len >= 1`. With `min_len <= 0` the loop can pick 0 or a negative length and never end. That case is not modelled.
- Session.RoundTrip: the session is the pair of streams in which each side's output is what it sends given the other's. Blocking and interleaving of the two sides in time are not modelled. The protocol is lockstep, and the client's sends do not depend on what it receives except where it stops, so the pair describes the real exchange.
