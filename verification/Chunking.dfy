/** Cutting a message into F-codepoint chunks, one codepoint at a time or all at once. */
module Chunking {

  /** The complete chunks of `msg`. */
  function FullChunks<T>(f: nat, msg: seq<T>): (chunks: seq<seq<T>>)
    requires f > 0
    ensures forall k :: 0 <= k < |chunks| ==> |chunks[k]| == f
    decreases |msg|
  {
    if |msg| < f then [] else [msg[..f]] + FullChunks(f, msg[f..])
  }

  /** What does not fill a chunk. */
  function Leftover<T>(f: nat, msg: seq<T>): (left: seq<T>)
    requires f > 0
    ensures |left| < f
    decreases |msg|
  {
    if |msg| < f then msg else Leftover(f, msg[f..])
  }

  /** Chunks a stream of `msg` takes, the partial last one included. */
  function ChunkCount<T>(f: nat, msg: seq<T>): nat
    requires f > 0
  {
    |FullChunks(f, msg)| + if |Leftover(f, msg)| == 0 then 0 else 1
  }

  /** One more codepoint either completes the open chunk or lengthens it. */
  lemma {:induction false} AppendOne<T>(f: nat, msg: seq<T>, x: T)
    requires f > 0
    ensures var left := Leftover(f, msg) + [x];
            if |left| == f then FullChunks(f, msg + [x]) == FullChunks(f, msg) + [left] && Leftover(f, msg + [x]) == []
            else FullChunks(f, msg + [x]) == FullChunks(f, msg) && Leftover(f, msg + [x]) == left
    decreases |msg|
  {
    var more := msg + [x];
    if |msg| >= f {
      AppendOne(f, msg[f..], x);
      assert more[f..] == msg[f..] + [x] && more[..f] == msg[..f];
    } else if |more| == f {
      assert more[..f] == more && more[f..] == [];
    }
  }

  lemma {:induction false} CountGrows<T>(f: nat, msg: seq<T>, n: nat)
    requires f > 0 && n <= |msg|
    ensures |FullChunks(f, msg[..n])| <= |FullChunks(f, msg)|
    decreases |msg|
  {
    if n >= f {
      assert msg[..n][f..] == msg[f..][..n - f];
      CountGrows(f, msg[f..], n - f);
    }
  }

  lemma OneMore(f: nat, count: nat)
    requires count > 0
    ensures f * count == f * (count - 1) + f >= f
  {
  }

  /** `count` chunks suffice exactly for messages of at most F * count codepoints. */
  lemma {:induction false} ChunkCountExact<T>(f: nat, msg: seq<T>, count: nat)
    requires f > 0
    ensures ChunkCount(f, msg) <= count <==> |msg| <= f * count
    ensures |FullChunks(f, msg)| >= count <==> |msg| >= f * count
    decreases |msg|
  {
    if count > 0 {
      OneMore(f, count);
      if |msg| >= f {
        ChunkCountExact(f, msg[f..], count - 1);
      }
    }
  }

  function Flatten<T>(chunks: seq<seq<T>>): seq<T> {
    if chunks == [] then [] else chunks[0] + Flatten(chunks[1..])
  }

  lemma {:induction false} FlattenAppend<T>(chunks: seq<seq<T>>, chunk: seq<T>)
    ensures Flatten(chunks + [chunk]) == Flatten(chunks) + chunk
  {
    var more := chunks + [chunk];
    if chunks == [] {
      assert more[1..] == [];
    } else {
      assert more[1..] == chunks[1..] + [chunk];
      FlattenAppend(chunks[1..], chunk);
    }
  }

  /** Cutting loses nothing. */
  lemma {:induction false} CutWhole<T>(f: nat, msg: seq<T>)
    requires f > 0
    ensures Flatten(FullChunks(f, msg)) + Leftover(f, msg) == msg
    decreases |msg|
  {
    if |msg| >= f {
      CutWhole(f, msg[f..]);
      assert FullChunks(f, msg)[1..] == FullChunks(f, msg[f..]);
      assert msg == msg[..f] + msg[f..];
    }
  }
}
