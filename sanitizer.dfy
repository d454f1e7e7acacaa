/**
 * `TelnetReader.sanitizeOutput`: four regular-expression deletions followed by a
 * per-character filter. Each `replaceAll(regex, "")` is modelled by one left-to-right
 * scanner (`RemoveAll`) and a matcher per pattern (`MatchLength`) that returns the
 * length of the match Java's regex engine finds at the start of the text.
 * Characters are Unicode scalar values; Java's regex engine also works on code points.
 */
module Sanitizer {
  import opened Sequences

  const ESC: char := 0x1B as char
  const DEL: char := 0x7F as char
  /** Telnet Interpret-As-Command and the command bytes, as decoded characters. */
  const IAC: char := 0xFF as char
  const SB: char := 0xFA as char
  const SE: char := 0xF0 as char
  const WILL: char := 0xFB as char
  const DONT: char := 0xFE as char
  /** U+2640, the one printable glyph the filter drops. */
  const FEMALE_SIGN: char := 0x2640 as char

  /** The characters Java's regex `.` does not match (no DOTALL, no UNIX_LINES). */
  predicate IsLineTerminator(c: char)
  {
    c == '\n' || c == '\r' || c == 0x85 as char || c == 0x2028 as char || c == 0x2029 as char
  }

  /** `[;\d]`: `\d` is ASCII digits only. */
  predicate IsCsiParameter(c: char) { c == ';' || '0' <= c <= '9' }
  /** `[ -/]` */
  predicate IsCsiIntermediate(c: char) { ' ' <= c <= '/' }
  /** `[@-~]` */
  predicate IsCsiFinal(c: char) { '@' <= c <= '~' }
  /** `[û-þ]`: WILL, WONT, DO, DONT. */
  predicate IsNegotiationCommand(c: char) { WILL <= c <= DONT }

  /** Length of the longest prefix of `s` whose characters all satisfy `p` (a greedy `[...]*`). */
  function Span(s: string, p: char -> bool): (n: nat)
    ensures n <= |s|
    ensures forall k :: 0 <= k < n ==> p(s[k])
    ensures n < |s| ==> !p(s[n])
  {
    if s != [] && p(s[0]) then 1 + Span(s[1..], p) else 0
  }

  /** The four patterns of BPQTelnetGateway.java:207-214, in the order they are applied. */
  datatype Pattern =
    | Csi             // \u001B\[[;\d]*[ -/]*[@-~]
    | Subnegotiation  // ÿú.*?ÿð
    | Triplet         // ÿ[û-þ].
    | LoneIac         // ÿ.

  /** The character every match of the pattern starts with. */
  function Trigger(p: Pattern): char
  {
    if p == Csi then ESC else IAC
  }

  /**
   * The lazy `.*?ÿð` tail of a subnegotiation, tried from index `j`: at each step
   * the closing IAC SE is tried first, and only then one more non-terminator is consumed.
   * Returns the end of the match, or 0 when there is none.
   */
  function SubnegotiationEnd(s: string, j: nat): (e: nat)
    ensures e == 0 || (j + 2 <= e <= |s| && s[e - 2] == IAC && s[e - 1] == SE)
    ensures e > 0 ==> forall k :: j <= k < e - 2 ==> !IsLineTerminator(s[k]) && !(s[k] == IAC && s[k + 1] == SE)
    decreases |s| - j
  {
    if j + 2 <= |s| && s[j] == IAC && s[j + 1] == SE then j + 2
    else if j < |s| && !IsLineTerminator(s[j]) then SubnegotiationEnd(s, j + 1)
    else 0
  }

  /**
   * Length of the match of `p` that starts at the beginning of `s`, 0 if none.
   * The three CSI classes are disjoint, so the greedy runs never need to backtrack.
   */
  function MatchLength(p: Pattern, s: string): (n: nat)
    ensures n == 0 || (2 <= n <= |s| && s[0] == Trigger(p))
    ensures n > 0 && p != Csi ==> !IsLineTerminator(s[1])
  {
    match p
    case Csi =>
      if 2 <= |s| && s[0] == ESC && s[1] == '[' then
        var i := 2 + Span(s[2..], IsCsiParameter);
        var j := i + Span(s[i..], IsCsiIntermediate);
        if j < |s| && IsCsiFinal(s[j]) then j + 1 else 0
      else 0
    case Subnegotiation =>
      if 2 <= |s| && s[0] == IAC && s[1] == SB then SubnegotiationEnd(s, 2) else 0
    case Triplet =>
      if 3 <= |s| && s[0] == IAC && IsNegotiationCommand(s[1]) && !IsLineTerminator(s[2]) then 3 else 0
    case LoneIac =>
      if 2 <= |s| && s[0] == IAC && !IsLineTerminator(s[1]) then 2 else 0
  }

  /** `replaceAll(p, "")`: delete the leftmost match, resume after it, copy what does not match. */
  function RemoveAll(p: Pattern, s: string): (r: string)
    ensures |r| <= |s|
    decreases |s|
  {
    if s == [] then []
    else
      var n := MatchLength(p, s);
      if n > 0 then RemoveAll(p, s[n..]) else [s[0]] + RemoveAll(p, s[1..])
  }

  /** The pass-5 test: the character is appended to the result. */
  predicate Keep(c: char)
  {
    c != FEMALE_SIGN && !((c < ' ' && c != '\n' && c != '\r' && c != '\t') || c == DEL)
  }

  /** Pass 5: the characters that pass `Keep`, in order. */
  function Filter(s: string): (r: string)
    ensures |r| <= |s|
  {
    if s == [] then [] else (if Keep(s[0]) then [s[0]] else []) + Filter(s[1..])
  }

  /** The first four passes, in the source's order. */
  function StripSequences(s: string): string
  {
    RemoveAll(LoneIac, RemoveAll(Triplet, RemoveAll(Subnegotiation, RemoveAll(Csi, s))))
  }

  /** The whole of sanitizeOutput on a non-null string. */
  function Sanitize(s: string): string
  {
    Filter(StripSequences(s))
  }

  /** The source's method: the four deletions, then the filter loop appending to a builder. */
  method SanitizeOutput(input: string) returns (r: string)
    ensures r == Sanitize(input)
  {
    var cleaned := RemoveAll(Csi, input);
    cleaned := RemoveAll(Subnegotiation, cleaned);
    cleaned := RemoveAll(Triplet, cleaned);
    cleaned := RemoveAll(LoneIac, cleaned);
    var sb: string := [];
    for i := 0 to |cleaned|
      invariant sb == Filter(cleaned[..i])
    {
      var c := cleaned[i];
      FilterStep(cleaned, i);
      if c == FEMALE_SIGN {
        continue;
      }
      if (c < ' ' && c != '\n' && c != '\r' && c != '\t') || c == DEL {
        continue;
      }
      sb := sb + [c];
    }
    assert cleaned[..|cleaned|] == cleaned;
    r := sb;
  }

  // ---------------------------------------------------------------------------
  // Only deletions

  lemma {:induction false} RemoveAllOnlyDeletes(p: Pattern, s: string)
    ensures IsSubsequence(RemoveAll(p, s), s)
    decreases |s|
  {
    if s != [] {
      var n := MatchLength(p, s);
      if n > 0 {
        RemoveAllOnlyDeletes(p, s[n..]);
        SubsequenceDrop(RemoveAll(p, s[n..]), s, n);
      } else {
        RemoveAllOnlyDeletes(p, s[1..]);
        var r := RemoveAll(p, s);
        assert r == [s[0]] + RemoveAll(p, s[1..]);
        assert r[0] == s[0] && r[1..] == RemoveAll(p, s[1..]);
      }
    }
  }

  lemma {:induction false} FilterOnlyDeletes(s: string)
    ensures IsSubsequence(Filter(s), s)
    decreases |s|
  {
    if s != [] {
      FilterOnlyDeletes(s[1..]);
      var r := Filter(s);
      if Keep(s[0]) {
        assert r[0] == s[0] && r[1..] == Filter(s[1..]);
      } else {
        assert r == Filter(s[1..]);
      }
    }
  }

  /** sanitizeOutput never inserts or changes a character: its result is a subsequence of its input. */
  lemma SanitizeOnlyDeletes(s: string)
    ensures IsSubsequence(Sanitize(s), s)
  {
    var s1 := RemoveAll(Csi, s);
    var s2 := RemoveAll(Subnegotiation, s1);
    var s3 := RemoveAll(Triplet, s2);
    var s4 := RemoveAll(LoneIac, s3);
    RemoveAllOnlyDeletes(Csi, s);
    RemoveAllOnlyDeletes(Subnegotiation, s1);
    RemoveAllOnlyDeletes(Triplet, s2);
    RemoveAllOnlyDeletes(LoneIac, s3);
    FilterOnlyDeletes(s4);
    SubsequenceTransitive(s2, s1, s);
    SubsequenceTransitive(s3, s2, s);
    SubsequenceTransitive(s4, s3, s);
    SubsequenceTransitive(Filter(s4), s4, s);
  }

  lemma {:induction false} FilterKeepsOnlyKept(s: string)
    ensures forall k :: 0 <= k < |Filter(s)| ==> Keep(Filter(s)[k])
    decreases |s|
  {
    if s != [] {
      FilterKeepsOnlyKept(s[1..]);
      var rest := Filter(s[1..]);
      if Keep(s[0]) {
        forall k | 0 <= k < |Filter(s)|
          ensures Keep(Filter(s)[k])
        {
          if k > 0 {
            assert Filter(s)[k] == rest[k - 1];
          }
        }
      }
    }
  }

  /**
   * sanitizeOutput emits no control character other than LF, CR and TAB, no DEL and
   * no U+2640.
   */
  lemma SanitizeEmitsOnlyKept(s: string)
    ensures forall k :: 0 <= k < |Sanitize(s)| ==>
              (Sanitize(s)[k] >= ' ' || Sanitize(s)[k] in "\n\r\t") && Sanitize(s)[k] != DEL && Sanitize(s)[k] != FEMALE_SIGN
  {
    FilterKeepsOnlyKept(StripSequences(s));
  }

  // ---------------------------------------------------------------------------
  // How the passes act on text that cannot start a match

  lemma NoMatchWithoutTrigger(p: Pattern, s: string)
    requires s != [] && s[0] != Trigger(p)
    ensures MatchLength(p, s) == 0
  {
  }

  lemma UnfoldNoMatch(p: Pattern, s: string)
    requires s != [] && MatchLength(p, s) == 0
    ensures RemoveAll(p, s) == [s[0]] + RemoveAll(p, s[1..])
  {
  }

  lemma {:induction false} RemoveAllPlainPrefix(p: Pattern, a: string, b: string)
    requires forall k :: 0 <= k < |a| ==> a[k] != Trigger(p)
    ensures RemoveAll(p, a + b) == a + RemoveAll(p, b)
    decreases |a|
  {
    if a == [] {
      assert a + b == b;
    } else {
      var s := a + b;
      assert RemoveAll(p, s) == [a[0]] + RemoveAll(p, a[1..] + b) by {
        assert s[0] == a[0] && s[1..] == a[1..] + b;
        NoMatchWithoutTrigger(p, s);
        UnfoldNoMatch(p, s);
      }
      RemoveAllPlainPrefix(p, a[1..], b);
      assert [a[0]] + (a[1..] + RemoveAll(p, b)) == a + RemoveAll(p, b) by {
        assert a == [a[0]] + a[1..];
      }
    }
  }

  /** A pass changes nothing when it matches nowhere. */
  lemma {:induction false} RemoveAllNoMatch(p: Pattern, s: string)
    requires forall i :: 0 <= i < |s| ==> MatchLength(p, s[i..]) == 0
    ensures RemoveAll(p, s) == s
    decreases |s|
  {
    if s != [] {
      assert s[0..] == s;
      forall i | 0 <= i < |s| - 1
        ensures MatchLength(p, s[1..][i..]) == 0
      {
        assert s[1..][i..] == s[i + 1..];
      }
      RemoveAllNoMatch(p, s[1..]);
      assert s == [s[0]] + s[1..];
    }
  }

  lemma {:induction false} FilterAppend(a: string, b: string)
    ensures Filter(a + b) == Filter(a) + Filter(b)
    decreases |a|
  {
    if a == [] {
      assert a + b == b;
    } else {
      assert (a + b)[0] == a[0] && (a + b)[1..] == a[1..] + b;
      FilterAppend(a[1..], b);
      var head := if Keep(a[0]) then [a[0]] else [];
      calc {
        Filter(a + b);
        head + Filter(a[1..] + b);
        head + (Filter(a[1..]) + Filter(b));
        (head + Filter(a[1..])) + Filter(b);
      }
    }
  }

  /** The filter loop's step: one more character of input, at most one more of output. */
  lemma FilterStep(s: string, i: nat)
    requires i < |s|
    ensures Filter(s[..i + 1]) == Filter(s[..i]) + (if Keep(s[i]) then [s[i]] else [])
  {
    assert s[..i + 1] == s[..i] + [s[i]];
    FilterAppend(s[..i], [s[i]]);
    assert [s[i]][1..] == [];
  }

  lemma {:induction false} FilterKeepsAll(s: string)
    requires forall k :: 0 <= k < |s| ==> Keep(s[k])
    ensures Filter(s) == s
    decreases |s|
  {
    if s != [] {
      FilterKeepsAll(s[1..]);
      assert s == [s[0]] + s[1..];
    }
  }

  /** Text every pass leaves alone: only kept characters and no IAC (hence no ESC either). */
  predicate Clean(s: string)
  {
    forall k :: 0 <= k < |s| ==> Keep(s[k]) && s[k] != IAC
  }

  lemma CleanPrefix(a: string, b: string)
    requires Clean(a)
    ensures Sanitize(a + b) == a + Sanitize(b)
  {
    var b1 := RemoveAll(Csi, b);
    var b2 := RemoveAll(Subnegotiation, b1);
    var b3 := RemoveAll(Triplet, b2);
    var b4 := RemoveAll(LoneIac, b3);
    RemoveAllPlainPrefix(Csi, a, b);
    RemoveAllPlainPrefix(Subnegotiation, a, b1);
    RemoveAllPlainPrefix(Triplet, a, b2);
    RemoveAllPlainPrefix(LoneIac, a, b3);
    FilterAppend(a, b4);
    FilterKeepsAll(a);
  }

  /** Clean text passes through unchanged. */
  lemma SanitizeCleanIdentity(s: string)
    requires Clean(s)
    ensures Sanitize(s) == s
  {
    CleanPrefix(s, []);
    assert s + [] == s;
  }

  /** The three IAC passes leave text without IAC alone. */
  lemma IacFreePasses(s: string)
    requires forall k :: 0 <= k < |s| ==> s[k] != IAC
    ensures RemoveAll(LoneIac, RemoveAll(Triplet, RemoveAll(Subnegotiation, s))) == s
  {
    assert s + [] == s;
    RemoveAllPlainPrefix(Subnegotiation, s, []);
    RemoveAllPlainPrefix(Triplet, s, []);
    RemoveAllPlainPrefix(LoneIac, s, []);
  }

  /** Without ESC and IAC only the character filter acts. */
  lemma SanitizePlainText(s: string)
    requires forall k :: 0 <= k < |s| ==> s[k] != ESC && s[k] != IAC
    ensures Sanitize(s) == Filter(s)
  {
    assert RemoveAll(Csi, s) == s by {
      assert s + [] == s;
      RemoveAllPlainPrefix(Csi, s, []);
    }
    IacFreePasses(s);
  }

  // ---------------------------------------------------------------------------
  // Pass 1: what the CSI matcher accepts

  /** ESC, `[`, parameters `[;0-9]*`, then intermediates `[ -/]*`, then one final `[@-~]`. */
  predicate IsCsiSequence(c: string)
  {
    && |c| >= 3 && c[0] == ESC && c[1] == '[' && IsCsiFinal(c[|c| - 1])
    && (forall k :: 2 <= k < |c| - 1 ==> IsCsiParameter(c[k]) || IsCsiIntermediate(c[k]))
    && (forall j, k :: 2 <= j < k < |c| - 1 ==> !(IsCsiIntermediate(c[j]) && IsCsiParameter(c[k])))
  }

  /** Every complete CSI sequence at the start of the text is matched, exactly. */
  lemma CsiRecognized(c: string, rest: string)
    requires IsCsiSequence(c)
    ensures MatchLength(Csi, c + rest) == |c|
  {
    var s := c + rest;
    var m := |c| - 1;
    var i := 2 + Span(s[2..], IsCsiParameter);
    // the final character is no parameter, so the parameter run stops at or before it
    assert s[2..][m - 2] == s[m] && !IsCsiParameter(s[m]);
    assert i <= m;
    forall k | i <= k < m
      ensures IsCsiIntermediate(s[k])
    {
      assert s[i] == c[i] && !IsCsiParameter(s[i]);
      assert IsCsiIntermediate(c[i]);
      assert i < k ==> !(IsCsiIntermediate(c[i]) && IsCsiParameter(c[k]));
    }
    var t := s[i..];
    assert forall k :: 0 <= k < m - i ==> t[k] == s[i + k] && IsCsiIntermediate(t[k]);
    assert t[m - i] == s[m] && !IsCsiIntermediate(t[m - i]);
  }

  /** Everything the CSI matcher removes is a complete CSI sequence. */
  lemma CsiMatchSound(s: string)
    requires MatchLength(Csi, s) > 0
    ensures IsCsiSequence(s[..MatchLength(Csi, s)])
  {
  }

  lemma CsiRemoved(a: string, c: string, b: string)
    requires Clean(a) && IsCsiSequence(c)
    ensures Sanitize(a + c + b) == a + Sanitize(b)
  {
    assert a + c + b == a + (c + b);
    CleanPrefix(a, c + b);
    CsiRecognized(c, b);
    assert (c + b)[|c|..] == b;
    assert RemoveAll(Csi, c + b) == RemoveAll(Csi, b);
  }

  // ---------------------------------------------------------------------------
  // Pass 2: what the subnegotiation matcher accepts

  /** A block body the lazy match spans: no line terminator and no IAC SE pair inside. */
  predicate IsShortestBody(body: string)
  {
    && (forall k :: 0 <= k < |body| ==> !IsLineTerminator(body[k]))
    && (forall k :: 0 <= k < |body| - 1 ==> !(body[k] == IAC && body[k + 1] == SE))
  }

  function SubnegotiationBlock(body: string): string
  {
    [IAC, SB] + body + [IAC, SE]
  }

  lemma {:induction false} SubnegotiationEndReaches(s: string, j: nat, e: nat)
    requires j <= e && e + 2 <= |s| && s[e] == IAC && s[e + 1] == SE
    requires forall k :: j <= k < e ==> !IsLineTerminator(s[k]) && !(s[k] == IAC && s[k + 1] == SE)
    ensures SubnegotiationEnd(s, j) == e + 2
    decreases e - j
  {
    if j < e {
      SubnegotiationEndReaches(s, j + 1, e);
    }
  }

  /** Every shortest IAC SB ... IAC SE block without a line terminator is matched, exactly. */
  lemma SubnegotiationRecognized(body: string, rest: string)
    requires IsShortestBody(body)
    ensures MatchLength(Subnegotiation, SubnegotiationBlock(body) + rest) == |body| + 4
  {
    var s := SubnegotiationBlock(body) + rest;
    var e := |body| + 2;
    assert s[e] == IAC && s[e + 1] == SE;
    forall k | 2 <= k < e
      ensures !IsLineTerminator(s[k]) && !(s[k] == IAC && s[k + 1] == SE)
    {
      assert s[k] == body[k - 2];
      if k + 1 < e {
        assert s[k + 1] == body[k - 1];
      }
    }
    SubnegotiationEndReaches(s, 2, e);
  }

  /** Everything the subnegotiation matcher removes is such a block. */
  lemma SubnegotiationMatchSound(s: string)
    requires MatchLength(Subnegotiation, s) > 0
    ensures var n := MatchLength(Subnegotiation, s);
            n >= 4 && s[..n] == SubnegotiationBlock(s[2..n - 2]) && IsShortestBody(s[2..n - 2])
  {
  }

  /** A block at the start of the text disappears and the text after it is sanitized as usual. */
  lemma SubnegotiationVanishes(body: string, b: string)
    requires IsShortestBody(body)
    requires forall k :: 0 <= k < |body| ==> body[k] != ESC
    ensures Sanitize(SubnegotiationBlock(body) + b) == Sanitize(b)
  {
    var blk := SubnegotiationBlock(body);
    var b1 := RemoveAll(Csi, b);
    assert RemoveAll(Csi, blk + b) == blk + b1 by {
      assert forall k :: 0 <= k < |blk| ==> blk[k] != ESC;
      RemoveAllPlainPrefix(Csi, blk, b);
    }
    assert RemoveAll(Subnegotiation, blk + b1) == RemoveAll(Subnegotiation, b1) by {
      SubnegotiationRecognized(body, b1);
      assert (blk + b1)[|blk|..] == b1;
    }
  }

  lemma SubnegotiationRemoved(a: string, body: string, b: string)
    requires Clean(a) && IsShortestBody(body)
    requires forall k :: 0 <= k < |body| ==> body[k] != ESC
    ensures Sanitize(a + SubnegotiationBlock(body) + b) == a + Sanitize(b)
  {
    var blk := SubnegotiationBlock(body);
    assert a + blk + b == a + (blk + b);
    CleanPrefix(a, blk + b);
    SubnegotiationVanishes(body, b);
  }

  // ---------------------------------------------------------------------------
  // Pass 3: negotiation triplets

  /** IAC followed by a command is no subnegotiation, and the rest of a triplet holds no IAC. */
  lemma SubnegotiationSkipsTriplet(cmd: char, x: char, y: string)
    requires IsNegotiationCommand(cmd) && x != IAC
    ensures RemoveAll(Subnegotiation, [IAC, cmd, x] + y) == [IAC, cmd, x] + RemoveAll(Subnegotiation, y)
  {
    var u := [IAC, cmd, x] + y;
    var tail := [cmd, x];
    assert u[0] == IAC && u[1] == cmd;
    assert MatchLength(Subnegotiation, u) == 0;
    UnfoldNoMatch(Subnegotiation, u);
    assert u[1..] == tail + y;
    RemoveAllPlainPrefix(Subnegotiation, tail, y);
  }

  /** A triplet at the start of the text disappears and the text after it is sanitized as usual. */
  lemma TripletVanishes(cmd: char, x: char, b: string)
    requires IsNegotiationCommand(cmd)
    requires x != ESC && x != IAC && !IsLineTerminator(x)
    ensures Sanitize([IAC, cmd, x] + b) == Sanitize(b)
  {
    var t := [IAC, cmd, x];
    var b1 := RemoveAll(Csi, b);
    assert RemoveAll(Csi, t + b) == t + b1 by {
      RemoveAllPlainPrefix(Csi, t, b);
    }
    var b2 := RemoveAll(Subnegotiation, b1);
    SubnegotiationSkipsTriplet(cmd, x, b1);
    assert RemoveAll(Triplet, t + b2) == RemoveAll(Triplet, b2) by {
      assert MatchLength(Triplet, t + b2) == 3;
      assert (t + b2)[3..] == b2;
    }
  }

  lemma TripletRemoved(a: string, cmd: char, x: char, b: string)
    requires Clean(a) && IsNegotiationCommand(cmd)
    requires x != ESC && x != IAC && !IsLineTerminator(x)
    ensures Sanitize(a + [IAC, cmd, x] + b) == a + Sanitize(b)
  {
    var t := [IAC, cmd, x];
    assert a + t + b == a + (t + b);
    CleanPrefix(a, t + b);
    TripletVanishes(cmd, x, b);
  }

  /** A subnegotiation needs a second IAC: none starts where only one IAC follows. */
  lemma SubnegotiationNeedsSecondIac(c: char, b: string)
    requires forall k :: 0 <= k < |b| ==> b[k] != IAC
    ensures MatchLength(Subnegotiation, [c] + b) == 0
  {
  }

  /** Pass 1 keeps a triplet whose option starts no CSI match, and the clean text after it. */
  lemma TripletPassesCsi(cmd: char, x: char, b: string)
    requires Clean(b) && IsNegotiationCommand(cmd) && MatchLength(Csi, [x] + b) == 0
    ensures RemoveAll(Csi, [IAC, cmd, x] + b) == [IAC, cmd, x] + b
  {
    var xb := [x] + b;
    assert [IAC, cmd, x] + b == [IAC, cmd] + xb;
    assert RemoveAll(Csi, xb) == xb by {
      UnfoldNoMatch(Csi, xb);
      assert xb[1..] == b + [];
      RemoveAllPlainPrefix(Csi, b, []);
    }
    RemoveAllPlainPrefix(Csi, [IAC, cmd], xb);
  }

  /** Pass 2 keeps a triplet followed by clean text, even when its option is IAC. */
  lemma TripletPassesSubnegotiation(cmd: char, x: char, b: string)
    requires Clean(b) && IsNegotiationCommand(cmd)
    ensures RemoveAll(Subnegotiation, [IAC, cmd, x] + b) == [IAC, cmd, x] + b
  {
    var xb := [x] + b;
    var u := [IAC, cmd, x] + b;
    assert RemoveAll(Subnegotiation, xb) == xb by {
      SubnegotiationNeedsSecondIac(x, b);
      UnfoldNoMatch(Subnegotiation, xb);
      assert xb[1..] == b + [];
      RemoveAllPlainPrefix(Subnegotiation, b, []);
    }
    assert MatchLength(Subnegotiation, u) == 0;
    UnfoldNoMatch(Subnegotiation, u);
    assert u[1..] == [cmd] + xb;
    RemoveAllPlainPrefix(Subnegotiation, [cmd], xb);
  }

  /** Passes 3 and 4 and the filter: the triplet goes and the clean text stays. */
  lemma TripletThenCleanLastPasses(cmd: char, x: char, b: string)
    requires Clean(b) && IsNegotiationCommand(cmd) && !IsLineTerminator(x)
    ensures Filter(RemoveAll(LoneIac, RemoveAll(Triplet, [IAC, cmd, x] + b))) == b
  {
    var u := [IAC, cmd, x] + b;
    assert RemoveAll(Triplet, u) == b by {
      assert MatchLength(Triplet, u) == 3;
      assert u[3..] == b;
      assert b + [] == b;
      RemoveAllPlainPrefix(Triplet, b, []);
    }
    assert RemoveAll(LoneIac, b) == b by {
      assert b + [] == b;
      RemoveAllPlainPrefix(LoneIac, b, []);
    }
    FilterKeepsAll(b);
  }

  /**
   * Between two clean texts a triplet is removed whatever its option, ESC and IAC
   * included, as long as the option is no line terminator and starts no CSI match.
   */
  lemma TripletBetweenClean(a: string, cmd: char, x: char, b: string)
    requires Clean(a) && Clean(b) && IsNegotiationCommand(cmd) && !IsLineTerminator(x)
    requires MatchLength(Csi, [x] + b) == 0
    ensures Sanitize(a + [IAC, cmd, x] + b) == a + b
  {
    var u := [IAC, cmd, x] + b;
    TripletPassesCsi(cmd, x, b);
    TripletPassesSubnegotiation(cmd, x, b);
    TripletThenCleanLastPasses(cmd, x, b);
    assert Sanitize(u) == b;
    assert a + [IAC, cmd, x] + b == a + u;
    CleanPrefix(a, u);
  }

  // ---------------------------------------------------------------------------
  // Pass 4 and the IAC characters that survive it

  /** Every IAC is the last character or is followed by a line terminator. */
  predicate IacGuarded(s: string)
  {
    forall i :: 0 <= i < |s| && s[i] == IAC ==> i + 1 == |s| || IsLineTerminator(s[i + 1])
  }

  lemma {:induction false} LoneIacRemovalGuards(s: string)
    ensures IacGuarded(RemoveAll(LoneIac, s))
    decreases |s|
  {
    if s != [] {
      var n := MatchLength(LoneIac, s);
      if n > 0 {
        LoneIacRemovalGuards(s[n..]);
      } else {
        LoneIacRemovalGuards(s[1..]);
        var rest := RemoveAll(LoneIac, s[1..]);
        var r := [s[0]] + rest;
        assert RemoveAll(LoneIac, s) == r;
        if s[0] == IAC && |s| > 1 {
          assert IsLineTerminator(s[1]);
          assert MatchLength(LoneIac, s[1..]) == 0;
          assert rest[0] == s[1];
        }
        forall i | 0 <= i < |r| && r[i] == IAC
          ensures i + 1 == |r| || IsLineTerminator(r[i + 1])
        {
          if i > 0 {
            assert rest[i - 1] == IAC;
          }
        }
      }
    }
  }

  /** Line terminators all pass the filter, so it keeps every guard. */
  lemma {:induction false} FilterKeepsGuard(s: string)
    requires IacGuarded(s)
    ensures IacGuarded(Filter(s))
    decreases |s|
  {
    if s != [] {
      FilterKeepsGuard(s[1..]);
      var rest := Filter(s[1..]);
      if Keep(s[0]) {
        var r := [s[0]] + rest;
        if s[0] == IAC && |s| > 1 {
          assert IsLineTerminator(s[1]) && Keep(s[1]);
          assert rest[0] == s[1];
        }
        forall i | 0 <= i < |r| && r[i] == IAC
          ensures i + 1 == |r| || IsLineTerminator(r[i + 1])
        {
          if i > 0 {
            assert rest[i - 1] == IAC;
          }
        }
      }
    }
  }

  /** Every IAC left by sanitizeOutput is followed by a line terminator or ends the text. */
  lemma SanitizeGuardsIac(s: string)
    ensures IacGuarded(Sanitize(s))
  {
    var s3 := RemoveAll(Triplet, RemoveAll(Subnegotiation, RemoveAll(Csi, s)));
    LoneIacRemovalGuards(s3);
    FilterKeepsGuard(RemoveAll(LoneIac, s3));
  }

  /** Sanitizing twice is sanitizing once. */
  lemma SanitizeIdempotent(s: string)
    ensures Sanitize(Sanitize(s)) == Sanitize(s)
  {
    var t := Sanitize(s);
    SanitizeGuardsIac(s);
    FilterKeepsOnlyKept(StripSequences(s));
    forall p: Pattern, i | 0 <= i < |t|
      ensures MatchLength(p, t[i..]) == 0
    {
      assert t[i..][0] == t[i] && Keep(t[i]);
      assert i + 1 < |t| ==> t[i..][1] == t[i + 1];
    }
    RemoveAllNoMatch(Csi, t);
    RemoveAllNoMatch(Subnegotiation, t);
    RemoveAllNoMatch(Triplet, t);
    RemoveAllNoMatch(LoneIac, t);
    FilterKeepsAll(t);
  }

  // ---------------------------------------------------------------------------
  // Worked inputs

  /** A colour change, ESC "[1;32m", between two clean texts vanishes. */
  lemma ExampleColourSequence(a: string, b: string)
    requires Clean(a) && Clean(b)
    ensures Sanitize(a + [ESC] + "[1;32m" + b) == a + b
  {
    var c := [ESC] + "[1;32m";
    assert IsCsiSequence(c);
    assert a + [ESC] + "[1;32m" + b == a + c + b;
    CsiRemoved(a, c, b);
    SanitizeCleanIdentity(b);
  }

  /** IAC WILL ECHO between two letters leaves the two letters. */
  lemma ExampleWillEcho()
    ensures Sanitize("A" + [IAC, WILL, 0x01 as char] + "B") == "AB"
  {
    TripletRemoved("A", WILL, 0x01 as char, "B");
    SanitizeCleanIdentity("B");
  }

  /** A triplet whose option is IAC itself goes too: `A` IAC WILL IAC `B` gives `AB`. */
  lemma ExampleWillIac()
    ensures Sanitize("A" + [IAC, WILL, IAC] + "B") == "AB"
  {
    assert MatchLength(Csi, [IAC] + "B") == 0;
    TripletBetweenClean("A", WILL, IAC, "B");
  }

  /** BEL is dropped, the newline stays. */
  lemma ExampleBell()
    ensures Sanitize("A" + [0x07 as char] + "B\nC") == "AB\nC"
  {
    var s := "A" + [0x07 as char] + "B\nC";
    SanitizePlainText(s);
    FilterAppend("A" + [0x07 as char], "B\nC");
    FilterKeepsAll("B\nC");
  }

  /** An ESC that starts no CSI match survives passes 1-4 and is dropped by pass 5 alone. */
  lemma UnmatchedEscape(rest: string)
    requires Clean(rest) && MatchLength(Csi, [ESC] + rest) == 0
    ensures Sanitize([ESC] + rest) == rest
  {
    var s := [ESC] + rest;
    assert RemoveAll(Csi, s) == s by {
      UnfoldNoMatch(Csi, s);
      assert s[1..] == rest + [];
      RemoveAllPlainPrefix(Csi, rest, []);
    }
    assert StripSequences(s) == s by {
      IacFreePasses(s);
    }
    assert Filter(s) == rest by {
      FilterAppend([ESC], rest);
      FilterKeepsAll(rest);
    }
  }

  /** ESC[?25h is not a CSI match ('?' is in no class): only its ESC goes, in pass 5. */
  lemma ExamplePrivateMode()
    ensures Sanitize([ESC] + "[?25h") == "[?25h"
  {
    assert MatchLength(Csi, [ESC] + "[?25h") == 0;
    UnmatchedEscape("[?25h");
  }

  /** `.` does not match a newline, so an IAC before one survives every pass. */
  lemma ExampleIacBeforeNewline()
    ensures Sanitize([IAC, '\n']) == [IAC, '\n']
  {
    var s := [IAC, '\n'];
    forall p: Pattern, i | 0 <= i < |s|
      ensures MatchLength(p, s[i..]) == 0
    {
    }
    RemoveAllNoMatch(Csi, s);
    RemoveAllNoMatch(Subnegotiation, s);
    RemoveAllNoMatch(Triplet, s);
    RemoveAllNoMatch(LoneIac, s);
    FilterKeepsAll(s);
  }

  // ---------------------------------------------------------------------------
  // A CSI sequence whole and cut after its ESC

  /** A CSI sequence followed by clean text leaves only that text. */
  lemma WholeCsiRemoved(c: string, b: string)
    requires IsCsiSequence(c) && Clean(b)
    ensures Sanitize(c + b) == b
  {
    var s := c + b;
    assert [] + c + b == s;
    CsiRemoved([], c, b);
    assert Sanitize(s) == Sanitize(b);
    SanitizeCleanIdentity(b);
  }

  /** Everything of a CSI sequence after its ESC is printable ASCII. */
  lemma CsiTailClean(c: string, b: string)
    requires IsCsiSequence(c) && Clean(b)
    ensures Clean(c[1..] + b)
  {
  }

  /** A text holding only ESC sanitizes to nothing. */
  lemma LoneEscapeVanishes()
    ensures Sanitize([ESC]) == []
  {
  }
}
