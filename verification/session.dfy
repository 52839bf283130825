/** A whole session: the client and the server connected by two byte
    streams, one per direction.

    The client's outgoing stream does not depend on what it receives except
    in where it stops, and the server reads its input strictly in order, so
    a session is described by the pair of streams `c2s` (client to server)
    and `s2c` (server to client) with `c2s` what the client sends when it
    reads `s2c`, and `s2c` what the server sends when it reads `c2s`. */
module Session {

  import opened Results
  import opened Bytes
  import opened Codec
  import opened Chunker
  import Server
  import Client

  /** The request payloads as the server sees them: the encoded blocks,
      last block first. */
  function PayloadsOnWire(blocks: seq<seq<char>>): (ps: seq<seq<byte>>)
    requires Client.Sendable(blocks)
    ensures Server.AllFit(ps) && |ps| == |blocks|
  {
    seq(|blocks|, j requires 0 <= j < |blocks| => EncodeAscii(blocks[|blocks| - 1 - j]))
  }

  /** The server's answers to the client's requests are, as messages, the
      responses carrying each block reversed, last block first. */
  lemma AnswersAreReversedBlocks(blocks: seq<seq<char>>)
    requires Client.Sendable(blocks)
    ensures forall j :: 0 <= j < |blocks| ==>
      var text := ReverseEachBackwards(blocks)[j]; |text| < TWO32 && IsAscii(text)
    ensures Server.Answers(PayloadsOnWire(blocks)) == Client.Responses(ReverseEachBackwards(blocks))
    ensures Client.RequestsBackwards(blocks) == Server.Requests(PayloadsOnWire(blocks))
  {
    var n := |blocks|;
    forall j | 0 <= j < n
      ensures var text := ReverseEachBackwards(blocks)[j]; |text| < TWO32 && IsAscii(text)
      ensures Server.Answer(PayloadsOnWire(blocks)[j]) == ReverseResponse(EncodeAscii(ReverseEachBackwards(blocks)[j]))
      ensures Client.RequestsBackwards(blocks)[j] == Server.Requests(PayloadsOnWire(blocks))[j]
    {
      var b := blocks[n - 1 - j];
      assert Client.RequestsBackwards(blocks)[j] == Client.RequestFor(blocks, n - 1 - j) == ReverseRequest(EncodeAscii(b));
      ReverseIndex(b);
      AsciiReverse(b);
    }
  }

  /** The round trip: for every text, every pair of block-length bounds with
      `1 <= minLen <= maxLen`, and every sequence of random choices, the
      session completes, the server answers every block and closes
      normally, and the client's output is exactly the reversal of the
      text. */
  lemma RoundTrip(content: seq<char>, minLen: nat, maxLen: nat, draw: nat -> nat)
    requires IsAscii(content) && |content| < TWO32
    requires 1 <= minLen <= maxLen
    ensures Chunk(content, minLen, maxLen, draw).Ok?
    ensures var blocks := Chunk(content, minLen, maxLen, draw).value;
            Client.Sendable(blocks) &&
            var c2s := Client.Transmission(blocks);
            var s2c := Server.Handle(c2s).sent;
            && Server.Handle(c2s) == Server.ServerRun(s2c, |blocks|, Server.Closed(Server.Completed))
            && Client.Session(content, minLen, maxLen, draw, s2c) == Client.ClientRun(c2s, Ok(Reverse(content)))
  {
    var blocks := Chunk(content, minLen, maxLen, draw).value;
    Client.ChunkSendable(content, minLen, maxLen, draw);
    var payloads := PayloadsOnWire(blocks);
    var texts := ReverseEachBackwards(blocks);
    AnswersAreReversedBlocks(blocks);
    var c2s := Client.Transmission(blocks);
    assert c2s == Encode(Init(|payloads|)) + (EncodeAll(Server.Requests(payloads)) + []);
    Server.ServesSession(payloads, []);
    var s2c := Server.Handle(c2s).sent;
    assert s2c == Encode(Agree) + (EncodeAll(Client.Responses(texts)) + []);
    Client.Reassembles(blocks, texts, []);
    ReverseConcat(blocks);
  }

  /** The worked example: "HELLOWORLD" with block lengths between 3 and 5,
      the random choices giving lengths 5 and 4, is cut into "HELLO",
      "WORL" and "D". */
  lemma HelloWorldChunks()
    ensures Chunk("HELLOWORLD", 3, 5, (k: nat) => if k == 0 then 2 else 1) == Ok(["HELLO", "WORL", "D"])
  {
    var draw := (k: nat) => if k == 0 then 2 else 1;
    var content := "HELLOWORLD";
    assert content[..5] == "HELLO" && content[5..] == "WORLD";
    assert "WORLD"[..4] == "WORL" && "WORLD"[4..] == "D";
    assert ChunkFrom("D", 3, 5, draw, 2) == Ok(["D"]);
    ChunkStep("WORLD", 3, 5, draw, 1, 4, 2);
    assert ["WORL"] + ["D"] == ["WORL", "D"];
    ChunkStep(content, 3, 5, draw, 0, 5, 1);
    assert ["HELLO"] + ["WORL", "D"] == ["HELLO", "WORL", "D"];
  }

  /** The blocks of the worked example travel as "D", "WORL", "HELLO",
      come back as "D", "LROW", "OLLEH", and the output "DLROWOLLEH" is the
      reversal of "HELLOWORLD". */
  lemma HelloWorldReversed()
    ensures ReverseEachBackwards(["HELLO", "WORL", "D"]) == ["D", "LROW", "OLLEH"]
    ensures Concat(["D", "LROW", "OLLEH"]) == Reverse("HELLOWORLD") == "DLROWOLLEH"
  {
    assert Reverse("D") == "D";
    assert Reverse("WORL") == "LROW";
    assert Reverse("HELLO") == "OLLEH";
    ReverseConcat(["HELLO", "WORL", "D"]);
    assert Concat(["HELLO", "WORL", "D"]) == "HELLOWORLD";
    assert Concat(["D", "LROW", "OLLEH"]) == "DLROWOLLEH";
  }
}
