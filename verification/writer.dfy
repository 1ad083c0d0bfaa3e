/**
 The outbound side of a session: the optional `-c` command is written first,
 in the main flow before the writer task starts, and then every line read from
 standard input is written as one text frame, verbatim. Each write is followed
 by an echo of the frame on standard output.
 */
module Writer {

  /** What the outbound side does, in the order it does it. */
  datatype Event = Sent(frame: string) | Echoed(line: string)

  /** The echo `writeText` prints after writing `t`. */
  function Echo(t: string): string
  {
    ">> " + t + "\n"
  }

  /** The echo is the outbound marker, the frame unchanged, and a newline: the frame can be read back from it. */
  lemma EchoFrame(t: string)
    ensures |Echo(t)| == |t| + 4
    ensures Echo(t)[..3] == ">> " && Echo(t)[|Echo(t)| - 1] == '\n'
    ensures Echo(t)[3..|Echo(t)| - 1] == t
  {
  }

  /**
   `writeText`: write the frame, then echo it. `writeText` discards
   the result of the write, so the echo follows whether or not it succeeded.
   */
  function WriteText(t: string): seq<Event>
  {
    [Sent(t), Echoed(Echo(t))]
  }

  /**
   Reference order of the frames: the command, only when it is non-empty,
   then the input lines unchanged and in order.
   */
  function Outbound(cmd: string, lines: seq<string>): (frames: seq<string>)
    ensures |frames| == |lines| + (if cmd == "" then 0 else 1)
    ensures cmd != "" ==> frames[0] == cmd
    ensures frames[|frames| - |lines|..] == lines
  {
    if cmd == "" then lines else [cmd] + lines
  }

  /** The trace of `writeText` called on each frame in turn. */
  function Trace(frames: seq<string>): (trace: seq<Event>)
    ensures |trace| == 2 * |frames|
  {
    if |frames| == 0 then [] else Trace(frames[..|frames| - 1]) + WriteText(frames[|frames| - 1])
  }

  /** One more `writeText` extends the trace by that frame's write and echo. */
  lemma TraceSnoc(frames: seq<string>, t: string)
    ensures Trace(frames + [t]) == Trace(frames) + WriteText(t)
  {
    assert (frames + [t])[..|frames|] == frames;
  }

  /** The payloads of the `Sent` events of a trace, in trace order. */
  function Frames(trace: seq<Event>): seq<string>
  {
    if |trace| == 0 then []
    else (if trace[0].Sent? then [trace[0].frame] else []) + Frames(trace[1..])
  }

  lemma {:induction false} FramesAppend(a: seq<Event>, b: seq<Event>)
    ensures Frames(a + b) == Frames(a) + Frames(b)
    decreases |a|
  {
    if |a| > 0 {
      var head := if a[0].Sent? then [a[0].frame] else [];
      assert (a + b)[0] == a[0];
      assert (a + b)[1..] == a[1..] + b;
      FramesAppend(a[1..], b);
      calc {
        Frames(a + b);
        head + Frames(a[1..] + b);
        head + (Frames(a[1..]) + Frames(b));
        (head + Frames(a[1..])) + Frames(b);
        Frames(a) + Frames(b);
      }
    } else {
      assert a + b == b;
    }
  }

  /** The trace sends exactly the given frames, in order, and nothing else. */
  lemma {:induction false} TraceFrames(frames: seq<string>)
    ensures Frames(Trace(frames)) == frames
    decreases |frames|
  {
    if |frames| > 0 {
      var init := frames[..|frames| - 1];
      var t := frames[|frames| - 1];
      TraceFrames(init);
      FramesAppend(Trace(init), WriteText(t));
      assert Frames(WriteText(t)) == [t] by {
        var w := WriteText(t);
        assert w[1..][1..] == [];
        assert Frames(w[1..]) == [];
      }
      assert frames == init + [t];
    }
  }

  /** In the trace every frame is written and then, at once, echoed with the outbound marker. */
  lemma {:induction false} TraceEchoes(frames: seq<string>)
    ensures |Trace(frames)| == 2 * |frames|
    ensures forall k | 0 <= k < |frames| ::
              Trace(frames)[2 * k] == Sent(frames[k]) && Trace(frames)[2 * k + 1] == Echoed(Echo(frames[k]))
    decreases |frames|
  {
    if |frames| > 0 {
      var n := |frames| - 1;
      var init := frames[..n];
      TraceEchoes(init);
      var tr := Trace(frames);
      assert tr == Trace(init) + WriteText(frames[n]);
      forall k | 0 <= k < |frames|
        ensures tr[2 * k] == Sent(frames[k]) && tr[2 * k + 1] == Echoed(Echo(frames[k]))
      {
        if k < n {
          assert tr[2 * k] == Trace(init)[2 * k];
          assert tr[2 * k + 1] == Trace(init)[2 * k + 1];
          assert frames[k] == init[k];
        }
      }
    }
  }

  /**
   The outbound session of `main`, `write` and `writeText`: the command goes
   out first when it is non-empty, then one frame per input line, each
   written by `writeText`. `lines` are the lines the writer task reaches
   before the process ends; the read loop's fatal error or an interrupt can
   end it earlier, and the lines not yet written are then never sent.
   */
  method Run(cmd: string, lines: seq<string>) returns (trace: seq<Event>)
    ensures trace == Trace(Outbound(cmd, lines))
    ensures Frames(trace) == Outbound(cmd, lines)
  {
    ghost var first: seq<string> := if cmd == "" then [] else [cmd];
    trace := [];
    if cmd != "" {
      TraceSnoc([], cmd);
      trace := trace + WriteText(cmd);
    }
    var i := 0;
    while i < |lines|
      invariant 0 <= i <= |lines|
      invariant trace == Trace(first + lines[..i])
    {
      TraceSnoc(first + lines[..i], lines[i]);
      assert first + lines[..i + 1] == (first + lines[..i]) + [lines[i]];
      trace := trace + WriteText(lines[i]);
      i := i + 1;
    }
    assert first + lines[..i] == Outbound(cmd, lines);
    TraceFrames(Outbound(cmd, lines));
  }
}
