/** Byte and character sequences: concatenation of slices, reversal, and the
    single-byte text encoding both programs use on the wire. */
module Bytes {

  import opened Results

  /** An unsigned 8-bit value, the element of a Python `bytes` object. */
  type byte = x: int | 0 <= x < 256

  /** The smaller of two counts. */
  function Min(a: nat, b: nat): nat
  {
    if a <= b then a else b
  }

  /** Concatenation of `ss` in index order (`''.join` and `b''.join`). */
  function Concat<T>(ss: seq<seq<T>>): seq<T>
  {
    if |ss| == 0 then [] else ss[0] + Concat(ss[1..])
  }

  /** Concatenation distributes over appending sequences of slices. */
  lemma {:induction false} ConcatAppend<T>(a: seq<seq<T>>, b: seq<seq<T>>)
    ensures Concat(a + b) == Concat(a) + Concat(b)
  {
    if |a| == 0 {
      assert a + b == b;
    } else {
      assert (a + b)[1..] == a[1..] + b;
      ConcatAppend(a[1..], b);
    }
  }

  /** Re-associates appending the head of `s` and then its tail. */
  lemma AppendCons<T>(a: seq<T>, s: seq<T>)
    requires |s| > 0
    ensures a + [s[0]] + s[1..] == a + s
  {
  }

  /** When no slice is empty there are no more slices than elements, and
      each slice is no longer than the whole. */
  lemma {:induction false} ConcatLength<T>(ss: seq<seq<T>>)
    requires forall i :: 0 <= i < |ss| ==> |ss[i]| > 0
    ensures |ss| <= |Concat(ss)|
    ensures forall i :: 0 <= i < |ss| ==> |ss[i]| <= |Concat(ss)|
  {
    if |ss| != 0 {
      ConcatLength(ss[1..]);
      forall i | 1 <= i < |ss| ensures |ss[i]| <= |Concat(ss)| {
        assert ss[i] == ss[1..][i - 1];
      }
    }
  }

  /** Every element of every slice occurs in the concatenation. */
  lemma {:induction false} ConcatContains<T>(ss: seq<seq<T>>, i: nat, x: T)
    requires i < |ss| && x in ss[i]
    ensures x in Concat(ss)
  {
    if i > 0 {
      ConcatContains(ss[1..], i - 1, x);
    }
  }

  /** The reversal of `s`; Python writes it `s[::-1]`. */
  function Reverse<T>(s: seq<T>): seq<T>
  {
    if |s| == 0 then [] else Reverse(s[1..]) + [s[0]]
  }

  /** The reversal, element by element: position `i` of the result holds
      position `|s| - 1 - i` of the input, which is what `[::-1]` means. */
  lemma {:induction false} ReverseIndex<T>(s: seq<T>)
    ensures |Reverse(s)| == |s|
    ensures forall i :: 0 <= i < |s| ==> Reverse(s)[i] == s[|s| - 1 - i]
  {
    if |s| != 0 {
      ReverseIndex(s[1..]);
    }
  }

  /** Reversal turns concatenation around. */
  lemma {:induction false} ReverseAppend<T>(a: seq<T>, b: seq<T>)
    ensures Reverse(a + b) == Reverse(b) + Reverse(a)
  {
    if |a| == 0 {
      assert a + b == b;
    } else {
      assert (a + b)[1..] == a[1..] + b;
      ReverseAppend(a[1..], b);
    }
  }

  /** Reversing twice gives back the original. */
  lemma {:induction false} ReverseInvolutive<T>(s: seq<T>)
    ensures Reverse(Reverse(s)) == s
  {
    if |s| != 0 {
      ReverseInvolutive(s[1..]);
      ReverseAppend(Reverse(s[1..]), [s[0]]);
      assert Reverse([s[0]]) == [s[0]];
      assert [s[0]] + s[1..] == s;
    }
  }

  /** Reversal keeps the same elements. */
  lemma ReverseContains<T>(s: seq<T>, x: T)
    ensures x in Reverse(s) <==> x in s
  {
    ReverseIndex(s);
    if x in s {
      var i :| 0 <= i < |s| && s[i] == x;
      assert Reverse(s)[|s| - 1 - i] == x;
    }
  }

  /** The slices of `ss` taken last to first, each of them reversed: the
      order in which the client receives the server's answers. */
  function ReverseEachBackwards<T>(ss: seq<seq<T>>): seq<seq<T>>
  {
    seq(|ss|, j requires 0 <= j < |ss| => Reverse(ss[|ss| - 1 - j]))
  }

  /** The designed invariant of the protocol: reversing a concatenation is
      the same as concatenating the reversed slices in backwards order,
      `reverse(b0 ++ ... ++ bn-1) == reverse(bn-1) ++ ... ++ reverse(b0)`. */
  lemma {:induction false} ReverseConcat<T>(ss: seq<seq<T>>)
    ensures Concat(ReverseEachBackwards(ss)) == Reverse(Concat(ss))
  {
    if |ss| != 0 {
      var tail := ss[1..];
      ReverseConcat(tail);
      ReverseAppend(ss[0], Concat(tail));
      assert ReverseEachBackwards(ss) == ReverseEachBackwards(tail) + [Reverse(ss[0])];
      ConcatAppend(ReverseEachBackwards(tail), [Reverse(ss[0])]);
      assert Concat([Reverse(ss[0])]) == Reverse(ss[0]);
    }
  }

  /** Text every character of which fits the 7-bit ASCII range. */
  predicate IsAscii(s: seq<char>)
  {
    forall c | c in s :: c as int < 128
  }

  /** A suffix of ASCII text is ASCII text. */
  lemma AsciiSuffix(s: seq<char>, k: nat)
    requires IsAscii(s) && k <= |s|
    ensures IsAscii(s[k..])
  {
    forall c | c in s[k..] ensures c as int < 128 {
      var i :| k <= i < |s| && s[i] == c;
      assert c in s;
    }
  }

  /** Python's `str.encode('ascii')`, defined on ASCII text only. */
  function EncodeAscii(s: seq<char>): (b: seq<byte>)
    requires IsAscii(s)
    ensures |b| == |s|
    ensures forall i :: 0 <= i < |s| ==> b[i] == s[i] as int
  {
    if |s| == 0 then []
    else
      assert s[0] in s;
      var first: byte := s[0] as int;
      AsciiSuffix(s, 1);
      [first] + EncodeAscii(s[1..])
  }

  /** Python's `bytes.decode('ascii')`: fails on any byte of 128 or more. */
  function DecodeAscii(b: seq<byte>): (r: Option<seq<char>>)
    ensures r.Some? <==> forall i :: 0 <= i < |b| ==> b[i] < 128
    ensures r.Some? ==> IsAscii(r.value) && EncodeAscii(r.value) == b
  {
    if |b| == 0 then Some([])
    else if b[0] >= 128 then None
    else match DecodeAscii(b[1..])
      case None => None
      case Some(rest) => Some([b[0] as char] + rest)
  }

  /** Decoding undoes encoding. */
  lemma {:induction false} AsciiRoundTrip(s: seq<char>)
    requires IsAscii(s)
    ensures DecodeAscii(EncodeAscii(s)) == Some(s)
  {
    if |s| != 0 {
      AsciiSuffix(s, 1);
      AsciiRoundTrip(s[1..]);
      var e := EncodeAscii(s);
      assert e[1..] == EncodeAscii(s[1..]);
      assert s[0] in s;
      assert e[0] < 128 && e[0] as char == s[0];
      assert [s[0]] + s[1..] == s;
    }
  }

  /** Reversal commutes with the encoding, so reversing bytes on the server
      is reversing characters for the client. */
  lemma {:induction false} AsciiReverse(s: seq<char>)
    requires IsAscii(s)
    ensures IsAscii(Reverse(s))
    ensures EncodeAscii(Reverse(s)) == Reverse(EncodeAscii(s))
  {
    forall c | c in Reverse(s) ensures c as int < 128 {
      ReverseContains(s, c);
    }
    ReverseIndex(s);
    ReverseIndex(EncodeAscii(s));
  }
}
