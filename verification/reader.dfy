/**
 The inbound side of a session: `read` reuses one 16 KiB buffer, hands the
 freshly read prefix of it to the JSON pretty-printer (and the colouriser
 unless `-p` was given), prints the result after the inbound marker, and ends
 the program on the first read error. The pretty-printer, the colouriser and
 the connection's reads are outside this model and appear as parameters.
 */
module Reader {
  import opened Base

  /** Size of the receive buffer `read` allocates once. */
  const BufferSize: nat := 16384

  /** One call of the connection's `Read`: the bytes it stored, or its error. */
  datatype ReadResult = Got(data: seq<byte>) | Failed(error: string)

  /** `"<< "` */
  const InboundMarker: seq<byte> := [60, 60, 32]
  /** `"\n"` */
  const Newline: seq<byte> := [10]

  /** The colour switch of `main`: colour stays on unless `-p` was given. */
  function UseColor(plain: bool): bool
  {
    !plain
  }

  /** What `read` prints for one payload. */
  function Line(payload: seq<byte>, plain: bool, pretty: seq<byte> -> seq<byte>, color: seq<byte> -> seq<byte>): (line: seq<byte>)
    ensures |line| > |InboundMarker|
    ensures line[..|InboundMarker|] == InboundMarker && line[|line| - 1..] == Newline
    ensures plain ==> line[|InboundMarker|..|line| - 1] == pretty(payload)
    ensures !plain ==> line[|InboundMarker|..|line| - 1] == color(pretty(payload))
  {
    var result := pretty(payload);
    InboundMarker + (if UseColor(plain) then color(result) else result) + Newline
  }

  /**
   The read loop over the reads the connection delivers. Each successful read
   prints exactly the bytes that read stored, never bytes left in the buffer
   by an earlier, longer read; the first failed read stops the loop with its
   error (Go's `read` logs it and exits with status 1). The loop in `read`
   never ends on its own: `fatal == None` only means that the reads given
   here ran out while the loop was still waiting for the next one.
   */
  method ReadLoop(received: seq<ReadResult>, plain: bool, pretty: seq<byte> -> seq<byte>, color: seq<byte> -> seq<byte>)
    returns (printed: seq<seq<byte>>, fatal: Option<string>)
    requires forall i | 0 <= i < |received| :: received[i].Got? ==> |received[i].data| <= BufferSize
    ensures |printed| <= |received|
    ensures forall i | 0 <= i < |printed| :: received[i].Got? && printed[i] == Line(received[i].data, plain, pretty, color)
    ensures fatal.None? ==> |printed| == |received|
    ensures fatal.Some? ==> |printed| < |received| && received[|printed|] == Failed(fatal.value)
    ensures fatal.Some? <==> exists i | 0 <= i < |received| :: received[i].Failed?
  {
    var msg: seq<byte> := seq(BufferSize, _ => 0);
    printed := [];
    fatal := None;
    var i := 0;
    while i < |received|
      invariant 0 <= i <= |received|
      invariant |msg| == BufferSize
      invariant |printed| == i
      invariant forall k | 0 <= k < i :: received[k].Got? && printed[k] == Line(received[k].data, plain, pretty, color)
    {
      match received[i]
      case Failed(e) =>
        fatal := Some(e);
        return;
      case Got(data) =>
        var n := |data|;
        msg := data + msg[n..];
        var text := msg[..n];
        assert text == data;
        printed := printed + [Line(text, plain, pretty, color)];
        i := i + 1;
    }
  }
}
