/** The operating-system calls the request handler makes, as values: what a
    peer or a file will deliver to successive read() calls, and what
    successive write() calls will report. */
module IoModel {

  /** What successive read() calls on a socket or a file descriptor see: the
      pieces in which the bytes arrive. An empty piece, or the end of the
      sequence, is end of stream or an error (a read result <= 0). */
  type Input = seq<seq<char>>

  /** A measure that every successful read decreases. */
  function Pending(input: Input): nat
  {
    if input == [] then 0 else |input[0]| + 1 + Pending(input[1..])
  }

  /** The bytes delivered before end of stream. */
  function Content(input: Input): seq<char>
  {
    if input == [] || input[0] == [] then [] else input[0] + Content(input[1..])
  }

  /** read(fd, dst, max): at most `max` bytes of the next piece; what does not
      fit stays for the next read. The empty result stands for a return
      value <= 0 (end of stream, an error, or max == 0). */
  function Receive(input: Input, max: nat): (r: (seq<char>, Input))
    ensures |r.0| <= max
    ensures r.0 != [] ==> Pending(r.1) < Pending(input)
    ensures r.0 != [] ==> r.0 + Content(r.1) == Content(input)
    ensures max > 0 && r.0 == [] ==> Content(input) == []
  {
    if max == 0 || input == [] || input[0] == [] then ([], input)
    else if |input[0]| <= max then (input[0], input[1..])
    else (input[0][..max], [input[0][max..]] + input[1..])
  }

  /** write(fd, src, requested) against a schedule of results, one per call:
      a positive result is clamped to the request (write never reports more
      than it was asked for); an exhausted schedule reports an error. */
  function Transmit(writes: seq<int>, requested: nat): (r: (int, seq<int>))
    ensures r.0 <= requested
    ensures writes != [] ==> r.1 == writes[1..]
  {
    if writes == [] then (-1, [])
    else if writes[0] > requested then (requested, writes[1..])
    else (writes[0], writes[1..])
  }
}
