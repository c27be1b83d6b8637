/** Reading exact counts of bytes from an input that arrives in slices of any size. */
module ByteReader {
  import opened Bytes

  class StreamReader {
    var input: seq<seq<byte>>
    var buf: seq<byte>

    /** Every byte not yet consumed. */
    function Rest(): seq<byte>
      reads this
    {
      buf + Concat(input)
    }

    constructor (byteChunks: seq<seq<byte>>)
      ensures Rest() == Concat(byteChunks)
    {
      input, buf := byteChunks, [];
    }

    /** Pull byte chunks until `n` bytes are buffered; None when the input ends first. */
    method ReadN(n: nat) returns (data: Option<seq<byte>>)
      modifies this
      ensures data.Some? <==> n <= |old(Rest())|
      ensures data.Some? ==> data.value == old(Rest())[..n] && Rest() == old(Rest())[n..]
    {
      ghost var all := Rest();
      while |buf| < n
        invariant Rest() == all
        decreases |input|
      {
        if input == [] {
          assert Concat(input) == [];
          return None;
        }
        assert buf + (input[0] + Concat(input[1..])) == buf + input[0] + Concat(input[1..]);
        buf := buf + input[0];
        input := input[1..];
      }
      data := Some(buf[..n]);
      buf := buf[n..];
    }
  }
}
