/** The client's random splitting of the text into contiguous blocks.

    `random.randint` is an injected oracle: `draw(k)` is an arbitrary
    natural number for the `k`-th call, mapped into the requested range by
    `Pick`. Every in-range choice is reachable, so what is proved holds for
    every sequence of random choices. */
module Chunker {

  import opened Results
  import opened Bytes

  /** `random.randint(lo, hi)` with `hi < lo` raises ValueError. */
  datatype ChunkError = EmptyRange(lo: nat, hi: nat)

  /** `random.randint(lo, hi)` fed with the raw choice `raw`. */
  function Pick(lo: nat, hi: nat, raw: nat): (v: nat)
    requires lo <= hi
    ensures lo <= v <= hi
  {
    lo + raw % (hi - lo + 1)
  }

  /** Every value of the range is the pick of some raw choice. */
  lemma PickExact(lo: nat, hi: nat, v: nat)
    requires lo <= v <= hi
    ensures Pick(lo, hi, v - lo) == v
  {
  }

  /** One pass of the chunking loop onwards from the text still to split,
      `rest`, where `k` random draws have been made so far. */
  function ChunkFrom<T>(rest: seq<T>, minLen: nat, maxLen: nat, draw: nat -> nat, k: nat)
    : (r: Result<seq<seq<T>>, ChunkError>)
    requires 1 <= minLen
    ensures r.Err? ==> r.error.hi < r.error.lo == minLen && maxLen < minLen
    decreases |rest|
  {
    if |rest| == 0 then Ok([])
    else if |rest| < minLen then Ok([rest])
    else
      var hi := Min(maxLen, |rest|);
      if hi < minLen then Err(EmptyRange(minLen, hi))
      else
        var len := Pick(minLen, hi, draw(k));
        match ChunkFrom(rest[len..], minLen, maxLen, draw, k + 1)
        case Ok(blocks) => Ok([rest[..len]] + blocks)
        case Err(e) => Err(e)
  }

  /** Whatever the random choices, a successful split concatenates back to
      the text and every block obeys the length rule; the split fails
      exactly when `randint` is asked for an empty range. */
  lemma {:induction false} ChunkFromSound<T>(rest: seq<T>, minLen: nat, maxLen: nat, draw: nat -> nat, k: nat)
    requires 1 <= minLen
    ensures var r := ChunkFrom(rest, minLen, maxLen, draw, k);
            && (r.Ok? ==> Concat(r.value) == rest && WellShaped(r.value, minLen, maxLen))
            && (r.Err? <==> maxLen < minLen <= |rest|)
    decreases |rest|
  {
    if minLen <= |rest| && minLen <= Min(maxLen, |rest|) {
      var len := Pick(minLen, Min(maxLen, |rest|), draw(k));
      ChunkFromSound(rest[len..], minLen, maxLen, draw, k + 1);
      match ChunkFrom(rest[len..], minLen, maxLen, draw, k + 1) {
        case Ok(blocks) =>
          assert rest[..len] + rest[len..] == rest;
          assert ([rest[..len]] + blocks)[1..] == blocks;
        case Err(_) =>
      }
    }
  }

  /** Splits `content` the way the client does before connecting. */
  function Chunk<T>(content: seq<T>, minLen: nat, maxLen: nat, draw: nat -> nat)
    : (r: Result<seq<seq<T>>, ChunkError>)
    requires 1 <= minLen
    ensures r.Ok? ==> Concat(r.value) == content && WellShaped(r.value, minLen, maxLen)
    ensures r.Err? <==> maxLen < minLen <= |content|
  {
    ChunkFromSound(content, minLen, maxLen, draw, 0);
    ChunkFrom(content, minLen, maxLen, draw, 0)
  }

  /** The rule each block obeys, given the length still to split when it is
      cut: it is cut only while something remains; a remainder shorter than
      `minLen` is taken whole; otherwise its length lies in
      `[minLen, min(maxLen, remaining)]`. */
  ghost predicate BlockFits(len: nat, remaining: nat, minLen: nat, maxLen: nat)
  {
    && 0 < remaining
    && if remaining < minLen then len == remaining
       else minLen <= len <= Min(maxLen, remaining)
  }

  /** Every block fits the rule, the remaining length at each block being
      the length of that block and everything after it. */
  ghost predicate WellShaped<T>(blocks: seq<seq<T>>, minLen: nat, maxLen: nat)
  {
    |blocks| == 0 ||
    (BlockFits(|blocks[0]|, |Concat(blocks)|, minLen, maxLen) && WellShaped(blocks[1..], minLen, maxLen))
  }

  /** Well-shaped blocks cut with `minLen >= 1` are all non-empty, there are
      no more of them than characters, and there are none exactly when the
      text is empty. */
  lemma {:induction false} WellShapedNonEmpty<T>(blocks: seq<seq<T>>, minLen: nat, maxLen: nat)
    requires 1 <= minLen && WellShaped(blocks, minLen, maxLen)
    ensures forall i :: 0 <= i < |blocks| ==> |blocks[i]| > 0
    ensures |blocks| <= |Concat(blocks)|
    ensures |blocks| == 0 <==> |Concat(blocks)| == 0
  {
    if |blocks| != 0 {
      WellShapedNonEmpty(blocks[1..], minLen, maxLen);
      assert forall i :: 1 <= i < |blocks| ==> blocks[i] == blocks[1..][i - 1];
      ConcatLength(blocks);
    }
  }

  /** Every well-shaped split is one the client can produce: some sequence
      of random choices yields exactly these blocks. */
  lemma Reachable<T>(blocks: seq<seq<T>>, minLen: nat, maxLen: nat)
    requires 1 <= minLen <= maxLen && WellShaped(blocks, minLen, maxLen)
    ensures Chunk(Concat(blocks), minLen, maxLen, ChoicesFor(blocks, minLen)) == Ok(blocks)
  {
    ReachableFrom(blocks, minLen, maxLen, 0);
    assert blocks[0..] == blocks;
  }

  /** The raw choices that make `Pick` return the length of each block. */
  function ChoicesFor<T>(blocks: seq<seq<T>>, minLen: nat): nat -> nat
  {
    (k: nat) => if k < |blocks| && minLen <= |blocks[k]| then |blocks[k]| - minLen else 0
  }

  lemma {:induction false} ReachableFrom<T>(blocks: seq<seq<T>>, minLen: nat, maxLen: nat, k: nat)
    requires 1 <= minLen <= maxLen && k <= |blocks| && WellShaped(blocks[k..], minLen, maxLen)
    ensures ChunkFrom(Concat(blocks[k..]), minLen, maxLen, ChoicesFor(blocks, minLen), k) == Ok(blocks[k..])
    decreases |blocks| - k
  {
    var draw := ChoicesFor(blocks, minLen);
    var rest := Concat(blocks[k..]);
    if k < |blocks| {
      var b := blocks[k];
      var tail := blocks[k + 1..];
      assert blocks[k..][0] == b && blocks[k..][1..] == tail;
      assert blocks[k..] == [b] + tail;
      assert rest == b + Concat(tail);
      assert rest[..|b|] == b && rest[|b|..] == Concat(tail);
      ReachableFrom(blocks, minLen, maxLen, k + 1);
      if |rest| < minLen {
        WellShapedNonEmpty(tail, minLen, maxLen);
        assert tail == [];
        ChunkStep(rest, minLen, maxLen, draw, k, |b|, k);
        assert ChunkFrom(rest[|b|..], minLen, maxLen, draw, k) == Ok([]);
      } else {
        PickExact(minLen, Min(maxLen, |rest|), |b|);
        assert draw(k) == |b| - minLen;
        ChunkStep(rest, minLen, maxLen, draw, k, |b|, k + 1);
      }
    }
  }

  /** The result of splitting with `blocks` already cut in front. */
  function Prepend<T>(blocks: seq<seq<T>>, r: Result<seq<seq<T>>, ChunkError>): Result<seq<seq<T>>, ChunkError>
  {
    match r
    case Ok(tail) => Ok(blocks + tail)
    case Err(e) => Err(e)
  }

  lemma PrependAppend<T>(a: seq<seq<T>>, b: seq<seq<T>>, r: Result<seq<seq<T>>, ChunkError>)
    ensures Prepend(a, Prepend(b, r)) == Prepend(a + b, r)
  {
    if r.Ok? {
      assert a + (b + r.value) == (a + b) + r.value;
    }
  }

  /** One iteration of the chunking loop cuts the block of length `len`
      from the front of `rest` and continues after it. */
  lemma ChunkStep<T>(rest: seq<T>, minLen: nat, maxLen: nat, draw: nat -> nat, k: nat, len: nat, k': nat)
    requires 1 <= minLen && 0 < |rest|
    requires
      || (|rest| < minLen && len == |rest| && k' == k)
      || (minLen <= |rest| && minLen <= Min(maxLen, |rest|) &&
          len == Pick(minLen, Min(maxLen, |rest|), draw(k)) && k' == k + 1)
    ensures len <= |rest|
    ensures ChunkFrom(rest, minLen, maxLen, draw, k) ==
            Prepend([rest[..len]], ChunkFrom(rest[len..], minLen, maxLen, draw, k'))
  {
    if |rest| < minLen {
      assert rest[..len] == rest && rest[len..] == [];
      assert [rest] + [] == [rest];
    }
  }

  /** The loop invariant of `ChunkLoop`: the blocks cut so far rebuild the
      text up to `index`, and cutting the rest gives the whole result. */
  ghost predicate LoopInvariant<T>(content: seq<T>, minLen: nat, maxLen: nat, draw: nat -> nat,
                                   blocks: seq<seq<T>>, index: nat, calls: nat)
    requires 1 <= minLen
  {
    && index <= |content|
    && Concat(blocks) == content[..index]
    && Chunk(content, minLen, maxLen, draw) == Prepend(blocks, ChunkFrom(content[index..], minLen, maxLen, draw, calls))
  }

  /** Cutting the block of length `len` at `index` keeps the invariant. */
  lemma LoopStep<T>(content: seq<T>, minLen: nat, maxLen: nat, draw: nat -> nat,
                    blocks: seq<seq<T>>, index: nat, calls: nat, len: nat, calls': nat)
    requires 1 <= minLen && index < |content|
    requires LoopInvariant(content, minLen, maxLen, draw, blocks, index, calls)
    requires
      || (|content| - index < minLen && len == |content| - index && calls' == calls)
      || (minLen <= |content| - index && minLen <= Min(maxLen, |content| - index) &&
          len == Pick(minLen, Min(maxLen, |content| - index), draw(calls)) && calls' == calls + 1)
    ensures index + len <= |content|
    ensures LoopInvariant(content, minLen, maxLen, draw, blocks + [content[index..index + len]], index + len, calls')
  {
    var rest := content[index..];
    var block := content[index..index + len];
    ChunkStep(rest, minLen, maxLen, draw, calls, len, calls');
    assert rest[..len] == block;
    assert rest[len..] == content[index + len..];
    PrependAppend(blocks, [block], ChunkFrom(content[index + len..], minLen, maxLen, draw, calls'));
    ConcatAppend(blocks, [block]);
    assert content[..index] + block == content[..index + len];
  }

  /** The invariant holds before the first iteration. */
  lemma LoopStart<T>(content: seq<T>, minLen: nat, maxLen: nat, draw: nat -> nat)
    requires 1 <= minLen
    ensures LoopInvariant(content, minLen, maxLen, draw, [], 0, 0)
  {
    assert content[0..] == content;
    match Chunk(content, minLen, maxLen, draw) {
      case Ok(all) => assert [] + all == all;
      case Err(_) =>
    }
  }

  /** The chunking loop of the client as written: `index` walks through the
      text, each block is cut at `index`, and `index` ends at the length of
      the text. */
  method ChunkLoop<T>(content: seq<T>, minLen: nat, maxLen: nat, draw: nat -> nat)
    returns (r: Result<seq<seq<T>>, ChunkError>, index: nat)
    requires 1 <= minLen
    ensures r == Chunk(content, minLen, maxLen, draw)
    ensures r.Ok? ==> index == |content|
    ensures r.Ok? ==> Concat(r.value) == content && WellShaped(r.value, minLen, maxLen)
    ensures r.Err? <==> maxLen < minLen <= |content|
  {
    var blocks: seq<seq<T>> := [];
    index := 0;
    var calls := 0;
    var totalLen := |content|;
    LoopStart(content, minLen, maxLen, draw);
    while index < totalLen
      invariant LoopInvariant(content, minLen, maxLen, draw, blocks, index, calls)
      decreases totalLen - index
    {
      var blockLen;
      var calls' := calls;
      if totalLen - index < minLen {
        blockLen := totalLen - index;
      } else {
        var hi := Min(maxLen, totalLen - index);
        if hi < minLen {
          assert ChunkFrom(content[index..], minLen, maxLen, draw, calls).Err?;
          return Err(EmptyRange(minLen, hi)), index;
        }
        blockLen := Pick(minLen, hi, draw(calls));
        calls' := calls + 1;
      }
      LoopStep(content, minLen, maxLen, draw, blocks, index, calls, blockLen, calls');
      blocks := blocks + [content[index..index + blockLen]];
      index := index + blockLen;
      calls := calls';
    }
    assert content[index..] == [];
    assert blocks + [] == blocks;
    return Ok(blocks), index;
  }
}
