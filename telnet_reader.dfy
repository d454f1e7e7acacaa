/**
 * `TelnetReader.run`: the remote-to-local relay. Characters are accumulated while
 * the remote stream has data ready; as soon as it has none, the buffer is sanitized
 * and written to the local client, so prompts without a newline still appear.
 * The remote stream is given as the sequence of outcomes of the loop's polls.
 */
module Downlink {
  import opened Sequences
  import opened Sanitizer
  import opened Sockets

  /** What one iteration of the polling loop observes. */
  datatype ReadEvent =
    | Char(c: char)            // ready() holds and read() returns c
    | EndOfStream              // ready() holds and read() returns -1
    | ReadFailure              // ready() or read() throws an IOException
    | Idle(interrupted: bool)  // ready() is false; the 50 ms sleep is interrupted or not
    | PeerClosed               // the uplink worker closed the shared local socket before this guard check

  /** The events after which the loop is left. */
  predicate EndsLoop(e: ReadEvent)
  {
    e.EndOfStream? || e.ReadFailure? || (e.Idle? && e.interrupted) || e.PeerClosed?
  }

  /** Every character the loop has read, in order. */
  function ReadChars(evs: seq<ReadEvent>): string
  {
    if evs == [] then []
    else
      var e := evs[|evs| - 1];
      ReadChars(evs[..|evs| - 1]) + (if e.Char? then [e.c] else [])
  }

  /** The buffer after the events: characters since the last idle poll. */
  function Pending(evs: seq<ReadEvent>): string
  {
    if evs == [] then []
    else
      match evs[|evs| - 1]
      case Char(c) => Pending(evs[..|evs| - 1]) + [c]
      case Idle(_) => []
      case _ => Pending(evs[..|evs| - 1])
  }

  /** The raw chunks handed to sanitizeOutput: the buffer at each idle poll that found it non-empty. */
  function Flushed(evs: seq<ReadEvent>): (chunks: seq<string>)
  {
    if evs == [] then []
    else
      var init := evs[..|evs| - 1];
      Flushed(init) + (if evs[|evs| - 1].Idle? && Pending(init) != [] then [Pending(init)] else [])
  }

  /** The local writes for a sequence of chunks: one sanitized `print` each. */
  function Emitted(chunks: seq<string>): (outs: seq<LocalOutput>)
    ensures |outs| == |chunks|
  {
    if chunks == [] then []
    else Emitted(chunks[..|chunks| - 1]) + [Data(Sanitize(chunks[|chunks| - 1]))]
  }

  /** An idle poll with an empty buffer writes nothing: no chunk is empty. */
  lemma {:induction false} FlushedNonEmpty(evs: seq<ReadEvent>)
    ensures forall k :: 0 <= k < |Flushed(evs)| ==> Flushed(evs)[k] != []
  {
    if evs != [] {
      FlushedNonEmpty(evs[..|evs| - 1]);
    }
  }

  /** One sanitized write per chunk, in order. */
  lemma {:induction false} EmittedPointwise(chunks: seq<string>)
    ensures |Emitted(chunks)| == |chunks|
    ensures forall k :: 0 <= k < |chunks| ==> Emitted(chunks)[k] == Data(Sanitize(chunks[k]))
  {
    if chunks != [] {
      EmittedPointwise(chunks[..|chunks| - 1]);
    }
  }

  /** Nothing read is lost or reordered: the flushed chunks followed by the buffer are the input. */
  lemma {:induction false} ReadOrder(evs: seq<ReadEvent>)
    ensures Flatten(Flushed(evs)) + Pending(evs) == ReadChars(evs)
  {
    if evs != [] {
      var init := evs[..|evs| - 1];
      ReadOrder(init);
      var e := evs[|evs| - 1];
      assert evs == init + [e];
      Step(init, e);
      if e.Idle? && Pending(init) != [] {
        FlattenSnoc(Flushed(init), Pending(init));
      } else {
        assert Flushed(evs) == Flushed(init);
      }
    }
  }

  /** How one more event changes the buffer and the flushed chunks. */
  lemma Step(evs: seq<ReadEvent>, e: ReadEvent)
    ensures Pending(evs + [e]) == (if e.Char? then Pending(evs) + [e.c] else if e.Idle? then [] else Pending(evs))
    ensures e.Idle? && Pending(evs) != [] ==> Flushed(evs + [e]) == Flushed(evs) + [Pending(evs)]
    ensures !(e.Idle? && Pending(evs) != []) ==> Flushed(evs + [e]) == Flushed(evs)
    ensures Emitted(Flushed(evs + [e])) ==
            Emitted(Flushed(evs)) + (if e.Idle? && Pending(evs) != [] then [Data(Sanitize(Pending(evs)))] else [])
    ensures ReadChars(evs + [e]) == ReadChars(evs) + (if e.Char? then [e.c] else [])
  {
  }

  /** `Step` stated on prefixes of one event sequence, as the loop consumes it. */
  lemma StepAt(evs: seq<ReadEvent>, i: nat)
    requires i < |evs|
    ensures var e := evs[i];
      Pending(evs[..i + 1]) == (if e.Char? then Pending(evs[..i]) + [e.c] else if e.Idle? then [] else Pending(evs[..i]))
    ensures var e := evs[i];
      Emitted(Flushed(evs[..i + 1])) ==
      Emitted(Flushed(evs[..i])) + (if e.Idle? && Pending(evs[..i]) != [] then [Data(Sanitize(Pending(evs[..i])))] else [])
  {
    assert evs[..i + 1] == evs[..i] + [evs[i]];
    Step(evs[..i], evs[i]);
  }

  lemma EmittedSnoc(chunks: seq<string>, x: string)
    ensures Emitted(chunks + [x]) == Emitted(chunks) + [Data(Sanitize(x))]
  {
  }

  /** An idle poll with a non-empty buffer writes exactly that buffer, sanitized, and empties it. */
  lemma IdleFlushes(evs: seq<ReadEvent>, interrupted: bool)
    requires Pending(evs) != []
    ensures Emitted(Flushed(evs + [Idle(interrupted)])) == Emitted(Flushed(evs)) + [Data(Sanitize(Pending(evs)))]
    ensures Pending(evs + [Idle(interrupted)]) == []
  {
  }

  /** End of stream flushes nothing: the buffered characters are read but never delivered. */
  lemma EndOfStreamDiscards(evs: seq<ReadEvent>)
    ensures Flushed(evs + [EndOfStream]) == Flushed(evs)
    ensures ReadChars(evs + [EndOfStream]) == Flatten(Flushed(evs)) + Pending(evs)
  {
    var evs' := evs + [EndOfStream];
    assert evs'[..|evs|] == evs;
    ReadOrder(evs);
  }

  lemma {:induction false} EmittedText(chunks: seq<string>)
    ensures IsSubsequence(Text(Emitted(chunks)), Flatten(chunks))
    ensures forall k :: 0 <= k < |Text(Emitted(chunks))| ==> Keep(Text(Emitted(chunks))[k])
  {
    if chunks != [] {
      var init := chunks[..|chunks| - 1];
      var last := chunks[|chunks| - 1];
      EmittedText(init);
      var outs := Emitted(chunks);
      assert outs[..|outs| - 1] == Emitted(init);
      var before := Text(Emitted(init));
      assert Text(outs) == before + Sanitize(last);
      SanitizeOnlyDeletes(last);
      FilterKeepsOnlyKept(StripSequences(last));
      SubsequenceConcat(before, Flatten(init), Sanitize(last), last);
      forall k | 0 <= k < |Text(outs)|
        ensures Keep(Text(outs)[k])
      {
        if k >= |before| {
          assert Text(outs)[k] == Sanitize(last)[k - |before|];
        }
      }
    }
  }

  /**
   * What reaches the local client is the remote input with characters deleted, in the
   * same order, and holds none of the characters the filter drops.
   */
  lemma DeliveredText(evs: seq<ReadEvent>)
    ensures IsSubsequence(Text(Emitted(Flushed(evs))), ReadChars(evs))
    ensures forall k :: 0 <= k < |Text(Emitted(Flushed(evs)))| ==> Keep(Text(Emitted(Flushed(evs)))[k])
  {
    var chunks := Flushed(evs);
    EmittedText(chunks);
    ReadOrder(evs);
    SubsequenceOfExtension(Flatten(chunks), Pending(evs));
    SubsequenceTransitive(Text(Emitted(chunks)), Flatten(chunks), ReadChars(evs));
  }

  /** Characters that arrive back to back: `ready()` holds at every poll. */
  function Chars(s: string): seq<ReadEvent>
  {
    if s == [] then [] else Chars(s[..|s| - 1]) + [Char(s[|s| - 1])]
  }

  /** Back-to-back characters are appended to the buffer and flush nothing. */
  lemma {:induction false} CharsBuffered(evs: seq<ReadEvent>, s: string)
    ensures Pending(evs + Chars(s)) == Pending(evs) + s
    ensures Flushed(evs + Chars(s)) == Flushed(evs)
  {
    if s == [] {
      assert evs + Chars(s) == evs;
    } else {
      var init, x := s[..|s| - 1], s[|s| - 1];
      assert s == init + [x];
      CharsBuffered(evs, init);
      assert evs + Chars(s) == (evs + Chars(init)) + [Char(x)];
      CharBuffered(evs + Chars(init), x);
    }
  }

  /** One character read is appended to the buffer and writes nothing. */
  lemma CharBuffered(evs: seq<ReadEvent>, x: char)
    ensures Pending(evs + [Char(x)]) == Pending(evs) + [x]
    ensures Flushed(evs + [Char(x)]) == Flushed(evs)
  {
    assert (evs + [Char(x)])[..|evs|] == evs;
  }

  /**
   * Sanitizing is per chunk. A CSI sequence `c` that arrives whole is removed, but one
   * split by an idle poll after its ESC is not recognised: the ESC is dropped on its
   * own and the rest of the sequence (`[1m` of ESC `[1m`, say) reaches the client as text.
   */
  lemma SplitSequenceLeaks(c: string, b: string)
    requires IsCsiSequence(c) && Clean(b)
    ensures Text(Emitted(Flushed(Chars(c + b) + [Idle(false)]))) == b
    ensures Text(Emitted(Flushed(Chars([ESC]) + [Idle(false)] + Chars(c[1..] + b) + [Idle(false)]))) == c[1..] + b
  {
    var t := c[1..] + b;
    WholeCsiRemoved(c, b);
    CsiTailClean(c, b);
    SanitizeCleanIdentity(t);
    LoneEscapeVanishes();
    OneChunkText(c + b);
    TwoChunksText([ESC], t);
    EmptyPrefix(t);
  }

  /** Characters arriving back to back, then an idle poll: the client gets them in one sanitized write. */
  lemma OneChunkText(s: string)
    requires s != []
    ensures Text(Emitted(Flushed(Chars(s) + [Idle(false)]))) == Sanitize(s)
  {
    ChunkThenIdle([], s);
    EmptyPrefix(Chars(s));
    TextSnoc([], Sanitize(s));
  }

  /** Two such runs, each ended by an idle poll: the client gets two separately sanitized writes. */
  lemma TwoChunksText(s: string, t: string)
    requires s != [] && t != []
    ensures Text(Emitted(Flushed(Chars(s) + [Idle(false)] + Chars(t) + [Idle(false)]))) == Sanitize(s) + Sanitize(t)
  {
    var e := Chars(s) + [Idle(false)];
    var first := [Data(Sanitize(s))];
    ChunkThenIdle([], s);
    EmptyPrefix(Chars(s));
    EmptyPrefix(first);
    assert Emitted(Flushed(e)) == first;
    ChunkThenIdle(e, t);
    assert Emitted(Flushed(e + Chars(t) + [Idle(false)])) == first + [Data(Sanitize(t))];
    TextSnoc([], Sanitize(s));
    EmptyPrefix(first);
    EmptyPrefix(Sanitize(s));
    assert Text(first) == Sanitize(s);
    TextSnoc(first, Sanitize(t));
  }

  /** A chunk of back-to-back characters, then an idle poll: one write of the chunk, sanitized. */
  lemma ChunkThenIdle(evs: seq<ReadEvent>, s: string)
    requires Pending(evs) == [] && s != []
    ensures Emitted(Flushed(evs + Chars(s) + [Idle(false)])) == Emitted(Flushed(evs)) + [Data(Sanitize(s))]
    ensures Pending(evs + Chars(s) + [Idle(false)]) == []
  {
    var u := evs + Chars(s);
    CharsBuffered(evs, s);
    assert Pending(u) == s;
    IdleFlushes(u, false);
  }

  /** The text of one more write is that write's text appended. */
  lemma TextSnoc(outs: seq<LocalOutput>, t: string)
    ensures Text(outs + [Data(t)]) == Text(outs) + t
  {
    assert (outs + [Data(t)])[..|outs|] == outs;
  }

  /** The index of the event that ends the loop, or the number of events if none does. */
  function StopIndex(evs: seq<ReadEvent>): (r: nat)
    ensures r <= |evs|
    ensures r < |evs| ==> EndsLoop(evs[r])
  {
    if evs == [] || EndsLoop(evs[0]) then 0 else 1 + StopIndex(evs[1..])
  }

  /** No event before `StopIndex` ends the loop. */
  lemma {:induction false} BeforeStop(evs: seq<ReadEvent>, j: nat)
    requires j < StopIndex(evs)
    ensures !EndsLoop(evs[j])
  {
    if j > 0 {
      BeforeStop(evs[1..], j - 1);
    }
  }

  /** Scanning the events in order, the first one that ends the loop is the one at `StopIndex`. */
  lemma StopIndexStep(evs: seq<ReadEvent>, i: nat)
    requires i <= StopIndex(evs) && i < |evs|
    ensures EndsLoop(evs[i]) <==> i == StopIndex(evs)
  {
    if i < StopIndex(evs) {
      BeforeStop(evs, i);
    }
  }

  class TelnetReader {
    /** The remote stream, as the outcomes of successive polls. */
    const input: seq<ReadEvent>
    /** The local client's socket, shared with the session's uplink worker. */
    const local: Socket<LocalOutput>

    constructor (input: seq<ReadEvent>, local: Socket<LocalOutput>)
      ensures this.input == input && this.local == local
    {
      this.input := input;
      this.local := local;
    }

    /**
     * `run()`: the polling loop inside `try`, then the `finally` block that closes the
     * local socket. It returns how many events were consumed, whether the loop was left
     * (if not, the events ran out while the session is still running) and the buffer
     * held at the end. `closeFails` is the outcome of the final `close()`.
     */
    method Run(closeFails: bool) returns (consumed: nat, stopped: bool, pending: string)
      modifies local
      ensures consumed <= |input|
      ensures stopped == (old(local.closed) || StopIndex(input) < |input|)
      ensures old(local.closed) ==> consumed == 0 && pending == [] && local.output == old(local.output)
      ensures !old(local.closed) ==>
                consumed == (if StopIndex(input) < |input| then StopIndex(input) + 1 else |input|)
      ensures !old(local.closed) ==> pending == Pending(input[..consumed])
      ensures !old(local.closed) ==> local.output == old(local.output) + Emitted(Flushed(input[..consumed]))
      ensures stopped ==>
                local.closed == (old(local.closed) || (consumed > 0 && input[consumed - 1].PeerClosed?) || !closeFails)
      ensures stopped ==>
                local.closeCalls ==
                old(local.closeCalls) + (if !old(local.closed) && input[consumed - 1].PeerClosed? then 2 else 1)
      ensures !stopped ==> !local.closed && local.closeCalls == old(local.closeCalls)
    {
      if local.closed {
        // getOutputStream() throws on a closed socket: straight to the finally block
        local.Close(closeFails);
        return 0, true, [];
      }
      consumed, stopped, pending := Poll();
      if stopped {
        local.Close(closeFails);
      }
    }

    /**
     * The body of the `try` block: poll the remote stream until an event ends the loop.
     * The guard `!bpqSocket.isClosed()` fails only after the uplink worker closed the
     * socket, which the PeerClosed event stands for.
     */
    method Poll() returns (consumed: nat, stopped: bool, pending: string)
      requires !local.closed
      modifies local
      ensures consumed == (if StopIndex(input) < |input| then StopIndex(input) + 1 else |input|)
      ensures stopped == (StopIndex(input) < |input|)
      ensures pending == Pending(input[..consumed])
      ensures local.output == old(local.output) + Emitted(Flushed(input[..consumed]))
      ensures stopped && input[consumed - 1].PeerClosed? ==>
                local.closed && local.closeCalls == old(local.closeCalls) + 1
      ensures !(stopped && input[consumed - 1].PeerClosed?) ==>
                !local.closed && local.closeCalls == old(local.closeCalls)
    {
      var buffer: string := [];
      var i := 0;
      while i < |input|
        invariant i <= StopIndex(input)
        invariant buffer == Pending(input[..i])
        invariant local.output == old(local.output) + Emitted(Flushed(input[..i]))
        invariant !local.closed && local.closeCalls == old(local.closeCalls)
      {
        var e := input[i];
        StopIndexStep(input, i);
        StepAt(input, i);
        ghost var x := if e.Idle? && buffer != [] then [Data(Sanitize(buffer))] else [];
        ConcatAssoc(old(local.output), Emitted(Flushed(input[..i])), x);
        buffer := Handle(e, buffer);
        i := i + 1;
        if EndsLoop(e) {
          return i, true, buffer;
        }
      }
      return i, false, buffer;
    }

    /**
     * One iteration of the loop: append a character that is ready, or, when none is,
     * print the sanitized buffer to the local client if it is not empty, and empty it.
     * The PeerClosed event is the other worker's `close()` of the local socket.
     */
    method Handle(e: ReadEvent, buffer: string) returns (next: string)
      requires !local.closed
      modifies local
      ensures next == (if e.Char? then buffer + [e.c] else if e.Idle? then [] else buffer)
      ensures local.output == old(local.output) + (if e.Idle? && buffer != [] then [Data(Sanitize(buffer))] else [])
      ensures local.closed == e.PeerClosed?
      ensures local.closeCalls == old(local.closeCalls) + (if e.PeerClosed? then 1 else 0)
    {
      next := buffer;
      match e {
        case Char(c) =>
          next := buffer + [c];
        case Idle(_) =>
          if |buffer| > 0 {
            Flush(buffer);
          }
          next := [];
        case PeerClosed =>
          local.Close(false);
        case _ =>
      }
    }

    /** `print(sanitizeOutput(buffer))` followed by `flush()` on the open local writer. */
    method Flush(buffer: string)
      requires !local.closed
      modifies local
      ensures local.output == old(local.output) + [Data(Sanitize(buffer))]
      ensures !local.closed && local.closeCalls == old(local.closeCalls)
    {
      var text := SanitizeOutput(buffer);
      local.Send(Data(text));
    }
  }
}
