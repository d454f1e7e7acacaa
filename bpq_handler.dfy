/**
 * `BPQHandler.run`: one session as seen from the local (BPQ32) side. It opens the
 * remote Telnet connection, reports the outcome to the local client, forwards the
 * client's lines until the exit command and finally closes both sockets.
 * The client's lines and the outcome of each remote write are parameters.
 */
module Uplink {
  import opened Sequences
  import opened Sockets

  /** The command that ends a session. */
  const EXIT_COMMAND: string := "exit"

  /** `String.trim()` drops leading and trailing characters up to and including the space. */
  predicate IsTrimmed(c: char) { c <= ' ' }

  predicate AllTrimmed(s: string)
  {
    forall k :: 0 <= k < |s| ==> IsTrimmed(s[k])
  }

  /**
   * `String.trim()`: drop trimmed characters from the start, then from the end. The
   * result is no longer than the line and, unless empty, starts and ends with a
   * character that is not trimmed.
   */
  function Trim(s: string): (r: string)
    ensures |r| <= |s|
    ensures r != [] ==> !IsTrimmed(r[0]) && !IsTrimmed(r[|r| - 1])
    decreases |s|
  {
    if s != [] && IsTrimmed(s[0]) then Trim(s[1..])
    else if s != [] && IsTrimmed(s[|s| - 1]) then Trim(s[..|s| - 1])
    else s
  }

  /** Trimming a word padded with trimmed characters gives back the word. */
  lemma {:induction false} TrimPadded(pre: string, w: string, post: string)
    requires AllTrimmed(pre) && AllTrimmed(post)
    requires w != [] && !IsTrimmed(w[0]) && !IsTrimmed(w[|w| - 1])
    ensures Trim(pre + w + post) == w
    decreases |pre| + |post|
  {
    var s := pre + w + post;
    if pre != [] {
      assert s[0] == pre[0];
      assert s[1..] == pre[1..] + w + post;
      TrimPadded(pre[1..], w, post);
    } else if post != [] {
      assert s[0] == w[0] && s[|s| - 1] == post[|post| - 1];
      assert s[..|s| - 1] == pre + w + post[..|post| - 1];
      TrimPadded(pre, w, post[..|post| - 1]);
    } else {
      EmptyPrefix(w);
      EmptySuffix(w);
    }
  }

  /** The trimmed line is empty exactly when every character of the line is trimmed. */
  lemma {:induction false} TrimEmptyIffBlank(s: string)
    ensures Trim(s) == [] <==> AllTrimmed(s)
    decreases |s|
  {
    if s != [] && IsTrimmed(s[0]) {
      TrimEmptyIffBlank(s[1..]);
      assert AllTrimmed(s) <==> AllTrimmed(s[1..]) by {
        assert forall k :: 1 <= k < |s| ==> s[k] == s[1..][k - 1];
      }
    } else if s != [] && IsTrimmed(s[|s| - 1]) {
      TrimEmptyIffBlank(s[..|s| - 1]);
      assert |s| > 1 && s[..|s| - 1][0] == s[0] && !IsTrimmed(s[0]);
    }
  }

  /** Case folding restricted to ASCII letters. */
  function ToLowerAscii(c: char): (r: char)
    // no capital survives, and only a capital changes, into a lower-case letter
    ensures !('A' <= r <= 'Z')
    ensures r != c ==> 'A' <= c <= 'Z' && 'a' <= r <= 'z'
  {
    if 'A' <= c <= 'Z' then (c as int + 32) as char else c
  }

  /** `String.equalsIgnoreCase`, with ASCII case folding: equal lengths, then character by character. */
  predicate EqualsIgnoreCaseAscii(a: string, b: string)
  {
    |a| == |b| && (a == [] || (ToLowerAscii(a[0]) == ToLowerAscii(b[0]) && EqualsIgnoreCaseAscii(a[1..], b[1..])))
  }

  /** Equal ignoring case exactly when of the same length and folding alike at every position. */
  lemma {:induction false} EqualsIgnoreCasePointwise(a: string, b: string)
    ensures EqualsIgnoreCaseAscii(a, b) <==>
            |a| == |b| && forall k :: 0 <= k < |a| ==> ToLowerAscii(a[k]) == ToLowerAscii(b[k])
  {
    if a != [] && |a| == |b| {
      EqualsIgnoreCasePointwise(a[1..], b[1..]);
      assert forall k :: 0 <= k < |a| - 1 ==> a[1..][k] == a[k + 1] && b[1..][k] == b[k + 1];
    }
  }

  /** The test of the loop: the trimmed line equals `exit`, ignoring case. */
  predicate IsExitCommand(line: string)
  {
    EqualsIgnoreCaseAscii(Trim(line), EXIT_COMMAND)
  }

  /** Surrounding blanks and the letters' case do not matter. */
  lemma ExitIgnoresBlanksAndCase(pre: string, word: string, post: string)
    requires AllTrimmed(pre) && AllTrimmed(post)
    requires EqualsIgnoreCaseAscii(word, EXIT_COMMAND)
    ensures IsExitCommand(pre + word + post)
  {
    EqualsIgnoreCasePointwise(word, EXIT_COMMAND);
    assert ToLowerAscii(word[0]) == 'e' && ToLowerAscii(word[3]) == 't';
    TrimPadded(pre, word, post);
  }

  /** A character after the word that is not trimmed makes the line ordinary input. */
  lemma ExitRejectsSuffix(word: string, c: char)
    requires EqualsIgnoreCaseAscii(word, EXIT_COMMAND) && !IsTrimmed(c)
    ensures !IsExitCommand(word + [c])
  {
  }

  /** A blank line is not the exit command. */
  lemma BlankIsNotExit(line: string)
    requires AllTrimmed(line)
    ensures !IsExitCommand(line)
  {
    TrimEmptyIffBlank(line);
  }

  /** The index of the first exit command, or the number of lines if there is none. */
  function ExitIndex(lines: seq<string>): (r: nat)
    ensures r <= |lines|
    ensures r < |lines| ==> IsExitCommand(lines[r])
  {
    if lines == [] || IsExitCommand(lines[0]) then 0 else 1 + ExitIndex(lines[1..])
  }

  /** No line before `ExitIndex` is an exit command. */
  lemma {:induction false} BeforeExit(lines: seq<string>, j: nat)
    requires j < ExitIndex(lines)
    ensures !IsExitCommand(lines[j])
  {
    if j > 0 {
      BeforeExit(lines[1..], j - 1);
    }
  }

  /** Scanning the lines in order, the first exit command met is the one at `ExitIndex`. */
  lemma ExitIndexStep(lines: seq<string>, i: nat)
    requires i <= ExitIndex(lines) && i < |lines|
    ensures IsExitCommand(lines[i]) <==> i == ExitIndex(lines)
  {
    if i < ExitIndex(lines) {
      BeforeExit(lines, i);
    }
  }

  /** What the remote side receives for the first `k` lines: each line and `\n`, unless its write failed. */
  function Forwarded(lines: seq<string>, failed: set<nat>, k: nat): seq<string>
    requires k <= |lines|
  {
    if k == 0 then []
    else Forwarded(lines, failed, k - 1) + (if k - 1 in failed then [] else [lines[k - 1] + "\n"])
  }

  /** What the local side receives for the first `k` lines: one error notice per failed write. */
  function WriteErrors(lines: seq<string>, failed: set<nat>, k: nat): seq<LocalOutput>
    requires k <= |lines|
  {
    if k == 0 then []
    else WriteErrors(lines, failed, k - 1) + (if k - 1 in failed then [NoticeLine(WriteFailed)] else [])
  }

  /** The notice that ends the loop: sent only when the client typed the exit command. */
  function Farewell(lines: seq<string>): seq<LocalOutput>
  {
    if ExitIndex(lines) < |lines| then [NoticeLine(Disconnecting)] else []
  }

  /** Without write failures the remote side receives exactly the lines, each with `\n`, in order. */
  lemma {:induction false} ForwardedWithoutFailures(lines: seq<string>, failed: set<nat>, k: nat)
    requires k <= |lines|
    requires forall j :: 0 <= j < k ==> j !in failed
    ensures |Forwarded(lines, failed, k)| == k
    ensures forall j :: 0 <= j < k ==> Forwarded(lines, failed, k)[j] == lines[j] + "\n"
  {
    if k > 0 {
      ForwardedWithoutFailures(lines, failed, k - 1);
    }
  }

  /** A failed write only drops its own line: the rest arrive in order. */
  lemma {:induction false} FailuresOnlyDrop(lines: seq<string>, failed: set<nat>, k: nat)
    requires k <= |lines|
    ensures IsSubsequence(Forwarded(lines, failed, k), Forwarded(lines, {}, k))
  {
    if k == 0 {
      SubsequenceReflexive<string>([]);
    } else {
      FailuresOnlyDrop(lines, failed, k - 1);
      var x := [lines[k - 1] + "\n"];
      if k - 1 in failed {
        SubsequenceConcat(Forwarded(lines, failed, k - 1), Forwarded(lines, {}, k - 1), [], x);
        assert Forwarded(lines, failed, k - 1) + [] == Forwarded(lines, failed, k);
      } else {
        SubsequenceReflexive(x);
        SubsequenceConcat(Forwarded(lines, failed, k - 1), Forwarded(lines, {}, k - 1), x, x);
      }
    }
  }

  /** Lines before `f` do not see whether the write of line `f` fails. */
  lemma {:induction false} FailureLaterIsInvisible(lines: seq<string>, failed: set<nat>, f: nat, k: nat)
    requires k <= f && k <= |lines|
    ensures Forwarded(lines, failed + {f}, k) == Forwarded(lines, failed, k)
    ensures WriteErrors(lines, failed + {f}, k) == WriteErrors(lines, failed, k)
    decreases k
  {
    if k > 0 {
      FailureLaterIsInvisible(lines, failed, f, k - 1);
    }
  }

  /**
   * Making the write of line `f` fail removes exactly that line, with its `\n`, from what
   * the remote side receives, keeps every other entry in place and adds one error notice.
   */
  lemma {:induction false} FailedWriteDropsOnlyItsLine(lines: seq<string>, failed: set<nat>, f: nat, k: nat)
    requires f < k <= |lines| && f !in failed
    ensures |Forwarded(lines, failed, k)| > |Forwarded(lines, failed, f)|
    ensures Forwarded(lines, failed, k)[|Forwarded(lines, failed, f)|] == lines[f] + "\n"
    ensures Forwarded(lines, failed + {f}, k) ==
            Forwarded(lines, failed, f) + Forwarded(lines, failed, k)[|Forwarded(lines, failed, f)| + 1..]
    ensures |WriteErrors(lines, failed + {f}, k)| == |WriteErrors(lines, failed, k)| + 1
    decreases k
  {
    var p := Forwarded(lines, failed, f);
    FailureLaterIsInvisible(lines, failed, f, f);
    if k == f + 1 {
      var x := lines[f] + "\n";
      assert Forwarded(lines, failed, k) == p + [x];
      assert Forwarded(lines, failed + {f}, k) == p + [];
      assert (p + [x])[|p| + 1..] == [];
    } else {
      FailedWriteDropsOnlyItsLine(lines, failed, f, k - 1);
      assert (k - 1 in failed + {f}) == (k - 1 in failed);
      var q := Forwarded(lines, failed, k - 1);
      var t := if k - 1 in failed then [] else [lines[k - 1] + "\n"];
      assert Forwarded(lines, failed, k) == q + t;
      assert (q + t)[|p|] == q[|p|];
      assert (q + t)[|p| + 1..] == q[|p| + 1..] + t;
    }
  }

  /** Every line read before the exit command is either forwarded or reported, never both. */
  lemma {:induction false} EveryLineAccounted(lines: seq<string>, failed: set<nat>, k: nat)
    requires k <= |lines|
    ensures |Forwarded(lines, failed, k)| + |WriteErrors(lines, failed, k)| == k
    ensures forall j :: 0 <= j < |WriteErrors(lines, failed, k)| ==> WriteErrors(lines, failed, k)[j] == NoticeLine(WriteFailed)
  {
    if k > 0 {
      EveryLineAccounted(lines, failed, k - 1);
    }
  }

  /** The forwarded form of a line: the line itself, then `\n`. */
  predicate IsForwardedLine(x: string)
  {
    |x| > 0 && x[|x| - 1] == '\n' && !IsExitCommand(x[..|x| - 1])
  }

  /** Nothing at or after the exit command is forwarded: no forwarded line is an exit command. */
  lemma {:induction false} ExitNeverForwarded(lines: seq<string>, failed: set<nat>, k: nat)
    requires k <= ExitIndex(lines)
    ensures forall m :: 0 <= m < |Forwarded(lines, failed, k)| ==> IsForwardedLine(Forwarded(lines, failed, k)[m])
  {
    if k > 0 {
      ExitNeverForwarded(lines, failed, k - 1);
      var x := lines[k - 1] + "\n";
      BeforeExit(lines, k - 1);
      assert x[..|x| - 1] == lines[k - 1];
      assert IsForwardedLine(x);
    }
  }

  /** The disconnect notice is sent if and only if some line is the exit command. */
  lemma FarewellIffExit(lines: seq<string>)
    ensures Farewell(lines) == [NoticeLine(Disconnecting)] <==> exists j :: 0 <= j < |lines| && IsExitCommand(lines[j])
    ensures Farewell(lines) == [] <==> forall j :: 0 <= j < |lines| ==> !IsExitCommand(lines[j])
  {
    forall j | 0 <= j < ExitIndex(lines)
      ensures !IsExitCommand(lines[j])
    {
      BeforeExit(lines, j);
    }
  }

  /** How the attempt to reach the remote system ends. */
  datatype ConnectOutcome =
    | Connected     // the socket and its output stream were both obtained
    | Refused       // `new Socket(host, port)` throws: no remote socket exists
    | StreamFailed  // the socket exists but `getOutputStream()` throws

  class BPQHandler {
    /** The session's local (BPQ32) socket. */
    const local: Socket<LocalOutput>

    constructor (local: Socket<LocalOutput>)
      ensures this.local == local
    {
      this.local := local;
    }

    /**
     * One session. It returns the remote socket it opened (null if none) and how many
     * lines it read. `failed` holds the indices of the lines whose remote write throws.
     * `readerCloses` says that the downlink worker closed the local socket after the
     * last line, so that the next `readLine` throws instead of returning a line. The
     * last two flags are the outcomes of the two `close()` calls in the `finally` block.
     */
    method Run(connect: ConnectOutcome, lines: seq<string>, failed: set<nat>, readerCloses: bool,
               remoteCloseFails: bool, localCloseFails: bool)
      returns (remote: Socket?<string>, consumed: nat)
      modifies local
      ensures remote != null ==> fresh(remote)
      // the local socket ends closed unless its close throws; when the downlink worker closed
      // it first, the `finally` block leaves it alone, so it is closed once in every case
      ensures local.closed ==
                (old(local.closed) || !localCloseFails ||
                 (connect == Connected && readerCloses && ExitIndex(lines) == |lines|))
      ensures local.closeCalls == old(local.closeCalls) + (if old(local.closed) then 0 else 1)
      // the remote socket, once it exists, is closed exactly once, and ends closed unless that throws
      ensures remote != null ==> remote.closeCalls == 1 && remote.closed == !remoteCloseFails
      // getOutputStream() on a closed local socket throws: nothing is attempted
      ensures old(local.closed) ==> remote == null && consumed == 0 && local.output == old(local.output)
      ensures !old(local.closed) && connect == Refused ==>
                remote == null && consumed == 0 && local.output == old(local.output) + [NoticeLine(ConnectFailed)]
      ensures !old(local.closed) && connect == StreamFailed ==>
                remote != null && consumed == 0 && remote.output == [] &&
                local.output == old(local.output) + [NoticeLine(ConnectFailed)]
      ensures !old(local.closed) && connect == Connected ==>
                && remote != null
                && consumed == (if ExitIndex(lines) < |lines| then ExitIndex(lines) + 1 else |lines|)
                && remote.output == Forwarded(lines, failed, ExitIndex(lines))
                && local.output == old(local.output) + [NoticeLine(BridgeEstablished)]
                                   + WriteErrors(lines, failed, ExitIndex(lines)) + Farewell(lines)
    {
      remote := null;
      consumed := 0;
      if !local.closed {
        match connect {
          case Refused =>
            local.Send(NoticeLine(ConnectFailed));
          case StreamFailed =>
            remote := new Socket<string>();
            local.Send(NoticeLine(ConnectFailed));
          case Connected =>
            remote := new Socket<string>();
            local.Send(NoticeLine(BridgeEstablished));
            var exited;
            consumed, exited := Relay(remote, lines, failed);
            if readerCloses && !exited {
              // the downlink worker's `close()`, which makes the next `readLine` throw
              local.Close(false);
            }
        }
      }
      CloseSession(remote, remoteCloseFails, localCloseFails);
    }

    /**
     * The `readLine` loop: stop at the exit command (after the disconnect notice) or
     * at the end of the input; otherwise write the line and `\n` to the remote side,
     * and report a failed write to the local client. `exited` tells the two ends apart.
     */
    method Relay(remote: Socket<string>, lines: seq<string>, failed: set<nat>)
      returns (consumed: nat, exited: bool)
      requires !local.closed && !remote.closed
      modifies local, remote
      ensures exited == (ExitIndex(lines) < |lines|)
      ensures consumed == (if exited then ExitIndex(lines) + 1 else |lines|)
      ensures remote.output == old(remote.output) + Forwarded(lines, failed, ExitIndex(lines))
      ensures local.output == old(local.output) + WriteErrors(lines, failed, ExitIndex(lines)) + Farewell(lines)
      ensures !local.closed && local.closeCalls == old(local.closeCalls)
      ensures !remote.closed && remote.closeCalls == old(remote.closeCalls)
    {
      var i := 0;
      while i < |lines|
        invariant i <= ExitIndex(lines)
        invariant remote.output == old(remote.output) + Forwarded(lines, failed, i)
        invariant local.output == old(local.output) + WriteErrors(lines, failed, i)
        invariant !local.closed && local.closeCalls == old(local.closeCalls)
        invariant !remote.closed && remote.closeCalls == old(remote.closeCalls)
      {
        var line := lines[i];
        ExitIndexStep(lines, i);
        if IsExitCommand(line) {
          local.Send(NoticeLine(Disconnecting));
          return i + 1, true;
        }
        ConcatAssoc(old(remote.output), Forwarded(lines, failed, i), if i in failed then [] else [line + "\n"]);
        ConcatAssoc(old(local.output), WriteErrors(lines, failed, i), if i in failed then [NoticeLine(WriteFailed)] else []);
        Write(remote, line, i in failed);
        i := i + 1;
      }
      assert Farewell(lines) == [];
      EmptySuffix(old(local.output) + WriteErrors(lines, failed, i));
      return i, false;
    }

    /** The guarded write of one line: on failure the local client gets the error notice instead. */
    method Write(remote: Socket<string>, line: string, fails: bool)
      requires !local.closed && !remote.closed
      modifies local, remote
      ensures remote.output == old(remote.output) + (if fails then [] else [line + "\n"])
      ensures local.output == old(local.output) + (if fails then [NoticeLine(WriteFailed)] else [])
      ensures !local.closed && local.closeCalls == old(local.closeCalls)
      ensures !remote.closed && remote.closeCalls == old(remote.closeCalls)
    {
      if fails {
        local.Send(NoticeLine(WriteFailed));
      } else {
        remote.Send(line + "\n");
      }
    }

    /** The `finally` block: close each socket that exists and is still open; a failing close does not stop the next. */
    method CloseSession(remote: Socket?<string>, remoteCloseFails: bool, localCloseFails: bool)
      modifies local, remote
      ensures local.output == old(local.output)
      ensures local.closed == (old(local.closed) || !localCloseFails)
      ensures local.closeCalls == old(local.closeCalls) + (if old(local.closed) then 0 else 1)
      ensures remote != null ==> remote.output == old(remote.output)
      ensures remote != null ==> remote.closed == (old(remote.closed) || !remoteCloseFails)
      ensures remote != null ==> remote.closeCalls == old(remote.closeCalls) + (if old(remote.closed) then 0 else 1)
    {
      if remote != null && !remote.closed {
        remote.Close(remoteCloseFails);
      }
      if !local.closed {
        local.Close(localCloseFails);
      }
    }
  }
}
