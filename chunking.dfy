/** The splitting of a long model answer into chat replies (main3.py lines 83-87):
    an answer longer than the limit goes out as the consecutive slices
    `answer[i:i+4000]` for `i` in `range(0, len(answer), 4000)`, any other answer
    as a single reply. */
module Chunking {
  import opened Strings

  /** The largest number of characters the handler puts into one reply. */
  const ChunkLimit: nat := 4000

  /** The number of indices in Python's `range(0, n, ChunkLimit)`: ceil(n / ChunkLimit). */
  function ChunkCount(n: nat): nat {
    (n + ChunkLimit - 1) / ChunkLimit
  }

  /** The slices of `s`, in order: every slice is non-empty and at most ChunkLimit
      long, every slice but the last is exactly ChunkLimit long, and there are
      ChunkCount(|s|) of them. */
  function Chunks(s: string): (parts: seq<string>)
    ensures |parts| == ChunkCount(|s|)
    ensures forall k :: 0 <= k < |parts| ==> 0 < |parts[k]| <= ChunkLimit
    ensures forall k :: 0 <= k < |parts| - 1 ==> |parts[k]| == ChunkLimit
    decreases |s|
  {
    if s == [] then []
    else if |s| <= ChunkLimit then [s]
    else [s[..ChunkLimit]] + Chunks(s[ChunkLimit..])
  }

  /** The characters of the parts, in order. */
  function Concat(parts: seq<string>): string {
    if parts == [] then [] else parts[0] + Concat(parts[1..])
  }

  lemma {:induction false} ConcatAppend(ps: seq<string>, qs: seq<string>)
    ensures Concat(ps + qs) == Concat(ps) + Concat(qs)
  {
    if ps == [] {
      assert ps + qs == qs;
    } else {
      assert (ps + qs)[1..] == ps[1..] + qs;
      ConcatAppend(ps[1..], qs);
    }
  }

  /** Splitting loses nothing: the slices put back together give the answer. */
  lemma {:induction false} ConcatChunks(s: string)
    ensures Concat(Chunks(s)) == s
    decreases |s|
  {
    if |s| > ChunkLimit {
      ConcatChunks(s[ChunkLimit..]);
      assert s == s[..ChunkLimit] + s[ChunkLimit..];
    }
  }

  /** The k-th part is Python's `s[i:i+4000]` for the k-th index `i = 4000 * k` of
      `range(0, len(s), 4000)`. */
  lemma {:induction false} ChunkAt(s: string, k: nat)
    requires k < |Chunks(s)|
    ensures k * ChunkLimit < |s|
    ensures Chunks(s)[k] == s[k * ChunkLimit .. Min(k * ChunkLimit + ChunkLimit, |s|)]
    decreases |s|
  {
    if k > 0 {
      var t := s[ChunkLimit..];
      ChunkAt(t, k - 1);
      var i := (k - 1) * ChunkLimit;
      assert k * ChunkLimit == i + ChunkLimit;
      var j := Min(i + ChunkLimit, |t|);
      assert j + ChunkLimit == Min(k * ChunkLimit + ChunkLimit, |s|);
      SliceOfSuffix(s, ChunkLimit, i, j);
    }
  }

  lemma SliceOfSuffix(s: string, c: nat, i: nat, j: nat)
    requires c <= |s| && i <= j <= |s| - c
    ensures s[c..][i..j] == s[c + i..c + j]
  {
  }

  /** Chunks is the only split with its shape: any parts that are all ChunkLimit
      long except a last, non-empty one of at most ChunkLimit, and that put back
      together give `s`, are Chunks(s). */
  lemma {:induction false} ChunksCharacterized(s: string, parts: seq<string>)
    requires forall k :: 0 <= k < |parts| ==> 0 < |parts[k]| <= ChunkLimit
    requires forall k :: 0 <= k < |parts| - 1 ==> |parts[k]| == ChunkLimit
    requires Concat(parts) == s
    ensures parts == Chunks(s)
    decreases |parts|
  {
    if parts != [] {
      var rest := Concat(parts[1..]);
      assert s == parts[0] + rest;
      if |parts| == 1 {
        assert rest == [];
        assert s == parts[0];
      } else {
        assert |parts[0]| == ChunkLimit;
        assert 0 < |parts[1]| && Concat(parts[1..]) == parts[1..][0] + Concat(parts[2..]);
        assert s[..ChunkLimit] == parts[0] && s[ChunkLimit..] == rest;
        ChunksCharacterized(rest, parts[1..]);
        assert parts == [parts[0]] + parts[1..];
      }
    }
  }

  /** The texts the handler sends for a successful answer, when every send goes
      through: the slices for an answer longer than ChunkLimit, else the answer
      itself as one reply, the empty answer included. */
  function Replies(answer: string): (texts: seq<string>)
  {
    if |answer| > ChunkLimit then Chunks(answer) else [answer]
  }

  /** What a successful answer turns into, for every answer: at least one reply,
      each at most ChunkLimit long, all but the last exactly ChunkLimit long, one
      reply per ChunkLimit characters begun, the answer again when put back
      together, and the same slices as Chunks for every non-empty answer (the two
      branches of the source differ only on the empty answer). */
  lemma {:induction false} RepliesSplit(answer: string)
    ensures |Replies(answer)| == if answer == [] then 1 else ChunkCount(|answer|)
    ensures forall k :: 0 <= k < |Replies(answer)| ==> |Replies(answer)[k]| <= ChunkLimit
    ensures forall k :: 0 <= k < |Replies(answer)| - 1 ==> |Replies(answer)[k]| == ChunkLimit
    ensures Concat(Replies(answer)) == answer
    ensures answer != [] ==> Replies(answer) == Chunks(answer)
  {
    if |answer| > ChunkLimit {
      ConcatChunks(answer);
    } else {
      assert Concat([answer]) == answer + Concat([]);
    }
  }
}
