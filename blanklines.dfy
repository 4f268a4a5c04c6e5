/** The blank-line remover of lab2/zad1: it copies its input file to its output file
    without the lines that hold only white space.  It reads the input in buffers of
    4096 bytes; when a line turns out to be worth keeping only after its start has
    left the buffer, it seeks back to the buffer the line started in and reads again.
    The input file is the byte sequence `input`, and each read returns the next
    bytes of it from the current file position. */
module BlankLines {
  import opened Common

  const BUF_SIZE: nat := 4096

  /** A line (or final fragment) made only of white space. */
  predicate Blank(line: seq<byte>) {
    forall j :: 0 <= j < |line| ==> IsSpace(line[j])
  }

  predicate LineStart(s: seq<byte>, k: nat) {
    k <= |s| && (k == 0 || s[k - 1] == NEWLINE)
  }

  /** The start of the line that holds s[i]: just past the last newline before i. */
  function LineStartBefore(s: seq<byte>, i: nat): (k: nat)
    requires i < |s|
    ensures k <= i && LineStart(s, k)
  {
    if i == 0 || s[i - 1] == NEWLINE then i else LineStartBefore(s, i - 1)
  }

  /** The bytes input[k..n] are all white space. */
  predicate BlankRange(input: seq<byte>, k: nat, n: nat)
    requires k <= n <= |input|
  {
    forall j :: k <= j < n ==> IsSpace(input[j])
  }

  /** What the program writes for the first n bytes of the input: their lines (each
      with its newline, the last one perhaps without) in order and unmodified, except
      those made only of white space. */
  function KeptPrefix(input: seq<byte>, n: nat): seq<byte>
    requires n <= |input|
    decreases n
  {
    if n == 0 then []
    else
      var k := LineStartBefore(input, n - 1);
      KeptPrefix(input, k) + LineOut(input, k, n)
  }

  /** What the program writes for the line input[k..n]: nothing if it is blank, else
      all of it. */
  function LineOut(input: seq<byte>, k: nat, n: nat): seq<byte>
    requires k <= n <= |input|
  {
    if BlankRange(input, k, n) then [] else input[k..n]
  }

  /** The output for the lines before L followed by the part input[L..n] of the line
      that starts at L. */
  function KeptThrough(input: seq<byte>, L: nat, n: nat): seq<byte>
    requires L <= n <= |input|
  {
    KeptPrefix(input, L) + input[L..n]
  }

  /** A marker: the facts Done states hold only where a proof mentions Recall(L, _)
      for their line start L, so that proofs about other steps need not unfold the
      kept output. */
  predicate Recall(L: nat, k: nat) { true }

  /** out is what the program has written once it has copied input[L..n] of the line
      that starts at L. */
  ghost predicate Done(input: seq<byte>, out: seq<byte>, L: nat, n: nat) {
    L <= n <= |input| &&
    forall k: nat {:trigger Recall(L, k)} :: Recall(L, k) ==> out == KeptThrough(input, L, n)
  }

  /** What the program writes for the whole input s. */
  function Kept(s: seq<byte>): seq<byte> {
    KeptPrefix(s, |s|)
  }

  /** The line start before i is the one position that qualifies. */
  lemma {:induction false} LineStartBeforeIs(s: seq<byte>, i: nat, m: nat)
    requires i < |s| && m <= i && LineStart(s, m)
    requires forall j :: m <= j < i ==> s[j] != NEWLINE
    ensures LineStartBefore(s, i) == m
  {
    if i > m {
      LineStartBeforeIs(s, i - 1, m);
    }
  }

  /** The line that starts at L and ends at n (at a newline, or at the end of the
      input) is dropped if it is blank and copied whole otherwise. */
  lemma KeptNext(input: seq<byte>, L: nat, n: nat)
    requires LineStart(input, L) && L < n <= |input|
    requires forall j :: L <= j < n - 1 ==> input[j] != NEWLINE
    ensures KeptPrefix(input, n) == KeptPrefix(input, L) + LineOut(input, L, n)
  {
    LineStartBeforeIs(input, n - 1, L);
    assert LineStartBefore(input, n - 1) == L;
  }

  /** The line starts before i do not depend on what follows the prefix s. */
  lemma {:induction false} LineStartBeforeAppend(s: seq<byte>, t: seq<byte>, i: nat)
    requires i < |s|
    ensures LineStartBefore(s + t, i) == LineStartBefore(s, i)
  {
    if i > 0 && s[i - 1] != NEWLINE {
      assert (s + t)[i - 1] == s[i - 1];
      LineStartBeforeAppend(s, t, i - 1);
    }
  }

  /** The output for a prefix does not depend on what follows it. */
  lemma {:induction false} KeptPrefixAppend(s: seq<byte>, t: seq<byte>, n: nat)
    requires n <= |s|
    ensures KeptPrefix(s + t, n) == KeptPrefix(s, n)
    decreases n
  {
    if n > 0 {
      var k := LineStartBefore(s, n - 1);
      LineStartBeforeAppend(s, t, n - 1);
      KeptPrefixUnfold(s + t, n, k);
      KeptPrefixUnfold(s, n, k);
      KeptPrefixAppend(s, t, k);
      LineOutAppend(s, t, k, n);
      SameParts(KeptPrefix(s + t, n), KeptPrefix(s, n), KeptPrefix(s + t, k), LineOut(s + t, k, n),
        KeptPrefix(s, k), LineOut(s, k, n));
    }
  }

  /** One step of KeptPrefix, at the line start k before n. */
  lemma KeptPrefixUnfold(s: seq<byte>, n: nat, k: nat)
    requires 0 < n <= |s| && LineStartBefore(s, n - 1) == k
    ensures KeptPrefix(s, n) == KeptPrefix(s, k) + LineOut(s, k, n)
  {
  }

  /** A line inside the prefix s is written the same whatever follows s. */
  lemma LineOutAppend(s: seq<byte>, t: seq<byte>, k: nat, n: nat)
    requires k <= n <= |s|
    ensures LineOut(s + t, k, n) == LineOut(s, k, n)
  {
    assert (s + t)[k..n] == s[k..n];
    assert BlankRange(s + t, k, n) == BlankRange(s, k, n) by {
      assert forall j :: k <= j < n ==> (s + t)[j] == s[j];
    }
  }

  /** Appending a line (with its newline, or a final fragment without one) to input
      that ends at a line boundary appends that line to the output, unless it is made
      only of white space. */
  lemma KeptAppendLine(s: seq<byte>, t: seq<byte>)
    requires s == [] || s[|s| - 1] == NEWLINE
    requires t != [] && forall j :: 0 <= j < |t| - 1 ==> t[j] != NEWLINE
    ensures Kept(s + t) == Kept(s) + (if Blank(t) then [] else t)
  {
    var u := s + t;
    assert forall j :: |s| <= j < |u| - 1 ==> u[j] == t[j - |s|];
    KeptNext(u, |s|, |u|);
    KeptPrefixAppend(s, t, |s|);
    AppendTail(s, t);
    assert BlankRange(u, |s|, |u|) == Blank(t) by {
      assert forall j :: |s| <= j < |u| ==> u[j] == t[j - |s|];
    }
  }

  /** Up to P the scanner has kept the lines before L, and what follows L is white
      space without a newline so far. */
  ghost predicate Scanning(input: seq<byte>, out: seq<byte>, L: nat, P: nat) {
    L <= P <= |input| && LineStart(input, L) && Done(input, out, L, L) &&
    forall j :: L <= j < P ==> IsSpace(input[j]) && input[j] != NEWLINE
  }

  /** The line starting at L holds the non-space byte at w, and the writer has
      copied it up to P. */
  ghost predicate Writing(input: seq<byte>, out: seq<byte>, L: nat, P: nat, w: nat) {
    L <= P <= |input| && LineStart(input, L) && L <= w < |input| && !IsSpace(input[w]) &&
    (forall j :: L <= j < w ==> input[j] != NEWLINE) &&
    (forall j :: L <= j < P ==> input[j] != NEWLINE) &&
    Done(input, out, L, P)
  }

  /** memchr for the newline in buf[from..]. */
  function FindNewline(buf: seq<byte>, from: nat): (r: Option<nat>)
    requires from <= |buf|
    ensures r.Some? ==> (from <= r.value < |buf| && buf[r.value] == NEWLINE &&
      forall j :: from <= j < r.value ==> buf[j] != NEWLINE)
    ensures r.None? ==> forall j :: from <= j < |buf| ==> buf[j] != NEWLINE
    decreases |buf| - from
  {
    if from == |buf| then None
    else if buf[from] == NEWLINE then Some(from)
    else FindNewline(buf, from + 1)
  }

  /** buf holds the input's bytes from the file offset cur on. */
  ghost predicate BufAt(input: seq<byte>, buf: seq<byte>, cur: nat) {
    cur + |buf| <= |input| && forall j :: 0 <= j < |buf| ==> buf[j] == input[cur + j]
  }

  /** A slice of the buffer is the matching slice of the input. */
  lemma BufSlice(input: seq<byte>, buf: seq<byte>, cur: nat, a: nat, b: nat)
    requires BufAt(input, buf, cur) && a <= b <= |buf|
    ensures buf[a..b] == input[cur + a..cur + b]
  {
  }

  /** Either state of the scanner, with the line starting at L examined up to P. */
  ghost predicate State(input: seq<byte>, out: seq<byte>, L: nat, P: nat, writing: bool, w: nat) {
    match writing
    case true => Writing(input, out, L, P, w)
    case false => Scanning(input, out, L, P)
  }

  /* The step lemmas below take the scanner's positions both as offsets (cur, i) and
     as the absolute positions P and the new ones (Q, M) that the loop states its
     invariant with, so that the loop can use their conclusions as they are. */

  /** Writing without a newline in the rest of the buffer: all of it is copied. */
  lemma WriteRest(input: seq<byte>, buf: seq<byte>, cur: nat, i: nat, n: nat, out: seq<byte>,
                  out2: seq<byte>, L: nat, P: nat, Q: nat, w: nat)
    requires BufAt(input, buf, cur) && i <= |buf| && n == |buf| && P == cur + i && Q == cur + n
    requires State(input, out, L, P, true, w)
    requires FindNewline(buf, i).None? && out2 == out + buf[i..n]
    ensures State(input, out2, L, Q, true, w)
  {
    assert Recall(L, 0);
    BufSlice(input, buf, cur, i, n);
    assert forall j :: P <= j < Q ==> input[j] == buf[j - cur];
    SliceSplit(input, L, P, Q);
  }

  /** Writing up to the newline at e: the line is copied whole and kept. */
  lemma WriteLine(input: seq<byte>, buf: seq<byte>, cur: nat, i: nat, e: nat, out: seq<byte>,
                  out2: seq<byte>, L: nat, P: nat, M: nat, Q: nat, w: nat)
    requires BufAt(input, buf, cur) && i <= |buf| && P == cur + i && M == cur + (e + 1) && Q == M
    requires State(input, out, L, P, true, w)
    requires FindNewline(buf, i) == Some(e) && out2 == out + buf[i..e + 1]
    ensures State(input, out2, M, Q, false, w)
  {
    WrittenLine(input, buf, cur, i, e, out, out2, L, P, w);
    ScanningFrom(input, out2, cur + e, M);
  }

  /** The output once the writer has copied the line up to its newline at e. */
  lemma WrittenLine(input: seq<byte>, buf: seq<byte>, cur: nat, i: nat, e: nat, out: seq<byte>,
                    out2: seq<byte>, L: nat, P: nat, w: nat)
    requires BufAt(input, buf, cur) && i <= |buf| && P == cur + i
    requires Writing(input, out, L, P, w)
    requires FindNewline(buf, i) == Some(e) && out2 == out + buf[i..e + 1]
    ensures cur + e < |input| && input[cur + e] == NEWLINE
    ensures out2 == KeptThrough(input, cur + e + 1, cur + e + 1)
  {
    DoneAt(input, out, L, P);
    LineEnd(input, buf, cur, i, e, L, P, w);
    KeptWholeLine(input, out, out2, L, P, cur + e, w);
  }

  /** The line being written ends at the newline memchr finds at e, at or after its
      non-space byte w, and the buffer's bytes up to there are the input's. */
  lemma LineEnd(input: seq<byte>, buf: seq<byte>, cur: nat, i: nat, e: nat, L: nat, P: nat, w: nat)
    requires BufAt(input, buf, cur) && i <= |buf| && P == cur + i && FindNewline(buf, i) == Some(e)
    requires L <= P && L <= w < |input|
    requires forall j :: L <= j < w ==> input[j] != NEWLINE
    requires forall j :: L <= j < P ==> input[j] != NEWLINE
    ensures cur + e < |input| && input[cur + e] == NEWLINE && w <= cur + e
    ensures forall j :: L <= j < cur + e ==> input[j] != NEWLINE
    ensures buf[i..e + 1] == input[P..cur + e + 1]
  {
    NewlineAt(input, buf, cur, i, e);
    LineThrough(input, L, P, cur + e, w);
  }

  /** The newline memchr finds in the buffer, seen in the input. */
  lemma NewlineAt(input: seq<byte>, buf: seq<byte>, cur: nat, i: nat, e: nat)
    requires BufAt(input, buf, cur) && i <= |buf| && FindNewline(buf, i) == Some(e)
    ensures cur + e < |input| && input[cur + e] == NEWLINE
    ensures forall j :: cur + i <= j < cur + e ==> input[j] != NEWLINE
    ensures buf[i..e + 1] == input[cur + i..cur + e + 1]
  {
    BufSlice(input, buf, cur, i, e + 1);
    assert input[cur + e] == buf[e];
    assert forall j :: cur + i <= j < cur + e ==> input[j] == buf[j - cur];
  }

  /** The line from L to the newline at E holds the non-space byte at w: once the
      writer has copied it up to P, copying the rest completes the kept output. */
  lemma KeptWholeLine(input: seq<byte>, out: seq<byte>, out2: seq<byte>, L: nat, P: nat, E: nat, w: nat)
    requires LineStart(input, L) && L <= P <= E < |input| && input[E] == NEWLINE
    requires L <= w <= E && !IsSpace(input[w])
    requires forall j :: L <= j < E ==> input[j] != NEWLINE
    requires out == KeptThrough(input, L, P) && out2 == out + input[P..E + 1]
    ensures out2 == KeptThrough(input, E + 1, E + 1)
  {
    KeptLine(input, L, E, w);
    LineClosed(input, out, out2, L, P, E);
  }

  /** Once the line from L to E is known to be kept whole, the rest of it written
      after input[L..P] completes the output. */
  lemma LineClosed(input: seq<byte>, out: seq<byte>, out2: seq<byte>, L: nat, P: nat, E: nat)
    requires L <= P <= E < |input|
    requires KeptPrefix(input, E + 1) == KeptPrefix(input, L) + input[L..E + 1]
    requires out == KeptThrough(input, L, P) && out2 == out + input[P..E + 1]
    ensures out2 == KeptThrough(input, E + 1, E + 1)
  {
    Regroup(input, KeptPrefix(input, E + 1), KeptPrefix(input, L), L, P, E + 1);
  }

  /** The line being written runs without a newline from L to the newline at E,
      which lies at or after its non-space byte w. */
  lemma LineThrough(input: seq<byte>, L: nat, P: nat, E: nat, w: nat)
    requires L <= P <= E < |input| && input[E] == NEWLINE && L <= w < |input|
    requires forall j :: L <= j < w ==> input[j] != NEWLINE
    requires forall j :: L <= j < P ==> input[j] != NEWLINE
    requires forall j :: P <= j < E ==> input[j] != NEWLINE
    ensures w <= E && forall j :: L <= j < E ==> input[j] != NEWLINE
  {
  }

  /** A line holding a non-space byte is copied whole. */
  lemma KeptLine(input: seq<byte>, L: nat, E: nat, w: nat)
    requires LineStart(input, L) && L <= w <= E < |input| && input[E] == NEWLINE && !IsSpace(input[w])
    requires forall j :: L <= j < E ==> input[j] != NEWLINE
    ensures KeptPrefix(input, E + 1) == KeptPrefix(input, L) + input[L..E + 1]
  {
    LineOutWhole(input, L, E + 1, w);
    LineStartBeforeIs(input, E, L);
    KeptPrefixUnfold(input, E + 1, L);
  }

  /** A line holding a non-space byte is written out whole. */
  lemma LineOutWhole(input: seq<byte>, L: nat, n: nat, w: nat)
    requires L <= w < n <= |input| && !IsSpace(input[w])
    ensures LineOut(input, L, n) == input[L..n]
  {
  }

  /** Scanning a newline: the line was blank and is dropped. */
  lemma DropBlank(input: seq<byte>, buf: seq<byte>, cur: nat, i: nat, out: seq<byte>,
                  L: nat, P: nat, M: nat, Q: nat, w: nat)
    requires BufAt(input, buf, cur) && i < |buf| && P == cur + i && M == cur + (i + 1) && Q == M
    requires State(input, out, L, P, false, w)
    requires buf[i] == NEWLINE
    ensures State(input, out, M, Q, false, w)
  {
    DoneAt(input, out, L, L);
    assert input[P] == buf[i];
    KeptBlankLine(input, out, L, P, M);
    ScanningFrom(input, out, P, M);
  }

  lemma DoneAt(input: seq<byte>, out: seq<byte>, L: nat, n: nat)
    requires Done(input, out, L, n)
    ensures out == KeptThrough(input, L, n)
  {
    assert Recall(L, 0);
  }

  /** At a line start, with the lines before it written, the scanner begins afresh. */
  lemma ScanningFrom(input: seq<byte>, out: seq<byte>, P: nat, M: nat)
    requires P < |input| && input[P] == NEWLINE && M == P + 1 && out == KeptThrough(input, M, M)
    ensures Scanning(input, out, M, M) && State(input, out, M, M, false, 0)
  {
  }

  lemma BlankThrough(input: seq<byte>, L: nat, P: nat, M: nat)
    requires L <= P < |input| && input[P] == NEWLINE && M == P + 1
    requires forall j :: L <= j < P ==> IsSpace(input[j]) && input[j] != NEWLINE
    ensures BlankRange(input, L, M)
  {
    forall j | L <= j < M
      ensures IsSpace(input[j])
    {
      if j < P {
        assert IsSpace(input[j]) && input[j] != NEWLINE;
      }
    }
  }

  /** A line of white space up to its newline at P is dropped. */
  lemma KeptBlankLine(input: seq<byte>, out: seq<byte>, L: nat, P: nat, M: nat)
    requires LineStart(input, L) && L <= P < |input| && input[P] == NEWLINE && M == P + 1
    requires forall j :: L <= j < P ==> IsSpace(input[j]) && input[j] != NEWLINE
    requires out == KeptThrough(input, L, L)
    ensures out == KeptThrough(input, M, M)
  {
    KeptNext(input, L, M);
    BlankThrough(input, L, P, M);
    SameEmpty(input, KeptPrefix(input, M), KeptPrefix(input, L), M, L);
  }

  /** Scanning a non-space byte: the line is to be written from its start. */
  lemma StartWriting(input: seq<byte>, buf: seq<byte>, cur: nat, i: nat, out: seq<byte>,
                     L: nat, P: nat, Q: nat, w: nat, w2: nat)
    requires BufAt(input, buf, cur) && i < |buf| && P == cur + i && Q == L && w2 == cur + i
    requires State(input, out, L, P, false, w)
    requires !IsSpace(buf[i])
    ensures State(input, out, L, Q, true, w2) && Writing(input, out, L, Q, w2)
  {
    assert input[cur + i] == buf[i];
    assert input[L..L] == [];
  }

  /** Scanning other white space: it is passed over. */
  lemma SkipSpace(input: seq<byte>, buf: seq<byte>, cur: nat, i: nat, out: seq<byte>,
                  L: nat, P: nat, Q: nat, w: nat)
    requires BufAt(input, buf, cur) && i < |buf| && P == cur + i && Q == cur + (i + 1)
    requires State(input, out, L, P, false, w)
    requires IsSpace(buf[i]) && buf[i] != NEWLINE
    ensures State(input, out, L, Q, false, w)
  {
    assert input[cur + i] == buf[i];
  }

  /** The end of the input: an open blank fragment is dropped, a written one is kept. */
  lemma AtEnd(input: seq<byte>, out: seq<byte>, L: nat, writing: bool, w: nat)
    requires writing ==> Writing(input, out, L, |input|, w)
    requires !writing ==> Scanning(input, out, L, |input|)
    ensures out == Kept(input)
  {
    assert Recall(L, 0);
    if L < |input| {
      KeptNext(input, L, |input|);
    }
  }

  /** A pass of the inner loop of main in writing mode: copy the line up to and
      including its newline (and go back to scanning), or the whole rest of the
      buffer when it holds no newline. */
  method WriteStep(ghost input: seq<byte>, buf: seq<byte>, curseekoff: nat,
                   lineseekoff0: nat, curpos0: nat, linepos0: nat,
                   out0: seq<byte>, ghost w0: nat)
    returns (lineseekoff: nat, curpos: nat, linepos: nat, writing: bool,
             out: seq<byte>, ghost w: nat)
    requires BufAt(input, buf, curseekoff) && |buf| <= BUF_SIZE
    requires curpos0 < |buf| && lineseekoff0 <= curseekoff && linepos0 <= BUF_SIZE
    requires State(input, out0, lineseekoff0 + linepos0, curseekoff + curpos0, true, w0)
    ensures curpos <= |buf| && linepos <= BUF_SIZE && lineseekoff <= curseekoff
    ensures lineseekoff + linepos <= |input|
    ensures State(input, out, lineseekoff + linepos, curseekoff + curpos, writing, w)
    ensures lineseekoff0 + linepos0 < lineseekoff + linepos ||
      (lineseekoff0 + linepos0 == lineseekoff + linepos && writing && curpos0 < curpos)
  {
    lineseekoff, curpos, linepos, writing, out, w := lineseekoff0, curpos0, linepos0, true, out0, w0;
    ghost var L := lineseekoff + linepos;
    ghost var P := curseekoff + curpos;
    var nbuf := |buf|;
    var eol := FindNewline(buf, curpos);
    if eol.None? {
      out := out + buf[curpos..nbuf];
      curpos := nbuf;
      WriteRest(input, buf, curseekoff, curpos0, nbuf, out0, out, L, P, curseekoff + curpos, w);
    } else {
      var e := eol.value;
      out := out + buf[curpos..e + 1];
      curpos := e + 1;
      lineseekoff := curseekoff;
      linepos := curpos;
      writing := false;
      WriteLine(input, buf, curseekoff, curpos0, e, out0, out, L, P, lineseekoff + linepos, curseekoff + curpos, w);
    }
  }

  /** A pass of the inner loop of main in scanning mode at buf[curpos0]: drop a
      blank line at its newline, switch to writing at a non-space byte (or ask for a
      seek back to the line's start when it lies in an earlier buffer), or pass over
      other white space. */
  method ScanStep(ghost input: seq<byte>, buf: seq<byte>, curseekoff: nat,
                  lineseekoff0: nat, curpos0: nat, linepos0: nat,
                  out: seq<byte>, ghost w0: nat)
    returns (lineseekoff: nat, curpos: nat, linepos: nat, writing: bool, seek: bool, ghost w: nat)
    requires BufAt(input, buf, curseekoff) && |buf| <= BUF_SIZE
    requires curpos0 < |buf| && lineseekoff0 <= curseekoff && linepos0 <= BUF_SIZE
    requires State(input, out, lineseekoff0 + linepos0, curseekoff + curpos0, false, w0)
    ensures curpos <= |buf| && linepos <= BUF_SIZE && lineseekoff <= curseekoff
    ensures lineseekoff + linepos <= |input|
    ensures !seek ==> State(input, out, lineseekoff + linepos, curseekoff + curpos, writing, w)
    ensures seek ==> State(input, out, lineseekoff + linepos, lineseekoff + linepos, true, w)
    ensures seek ==> writing && lineseekoff < curseekoff
    ensures lineseekoff0 + linepos0 < lineseekoff + linepos ||
      (lineseekoff0 + linepos0 == lineseekoff + linepos && (seek || writing || curpos0 < curpos))
  {
    lineseekoff, curpos, linepos, writing, seek, w := lineseekoff0, curpos0, linepos0, false, false, w0;
    ghost var L := lineseekoff + linepos;
    ghost var P := curseekoff + curpos;
    if buf[curpos] == NEWLINE {
      lineseekoff := curseekoff;
      curpos := curpos + 1;
      linepos := curpos;
      DropBlank(input, buf, curseekoff, curpos0, out, L, P, lineseekoff + linepos, curseekoff + curpos, w);
    } else if !IsSpace(buf[curpos]) {
      w := curseekoff + curpos;
      writing := true;
      if curseekoff != lineseekoff {
        // the line began in an earlier buffer: seek back to it and read again
        seek := true;
        StartWriting(input, buf, curseekoff, curpos0, out, lineseekoff + linepos, P, lineseekoff + linepos, w0, w);
      } else {
        curpos := linepos;
        StartWriting(input, buf, curseekoff, curpos0, out, lineseekoff + linepos, P, curseekoff + curpos, w0, w);
      }
    } else {
      curpos := curpos + 1;
      SkipSpace(input, buf, curseekoff, curpos0, out, L, P, curseekoff + curpos, w);
    }
  }

  /** The inner loop of main over one buffer read at file offset curseekoff: it
      drops blank lines, copies the others, and stops early (seek) when a line
      whose start lies in an earlier buffer turns out to be worth keeping. */
  method ScanBuffer(ghost input: seq<byte>, buf: seq<byte>, curseekoff: nat,
                    lineseekoff0: nat, curpos0: nat, linepos0: nat, writing0: bool,
                    out0: seq<byte>, ghost w0: nat)
    returns (lineseekoff: nat, curpos: nat, linepos: nat, writing: bool, seek: bool,
             out: seq<byte>, ghost w: nat)
    requires BufAt(input, buf, curseekoff) && |buf| <= BUF_SIZE
    requires curpos0 <= |buf| && lineseekoff0 <= curseekoff && linepos0 <= BUF_SIZE
    requires State(input, out0, lineseekoff0 + linepos0, curseekoff + curpos0, writing0, w0)
    ensures linepos <= BUF_SIZE && lineseekoff <= curseekoff
    ensures !seek ==> State(input, out, lineseekoff + linepos, curseekoff + |buf|, writing, w)
    ensures seek ==> State(input, out, lineseekoff + linepos, lineseekoff + linepos, true, w)
    ensures !seek ==> curpos == |buf|
    ensures seek ==> writing && lineseekoff < curseekoff
    ensures lineseekoff0 + linepos0 <= lineseekoff + linepos
    ensures lineseekoff0 + linepos0 == lineseekoff + linepos && writing0 ==> writing && !seek
  {
    lineseekoff, curpos, linepos, writing, seek, out, w := lineseekoff0, curpos0, linepos0, writing0, false, out0, w0;
    ghost var L0 := lineseekoff + linepos;
    var nbuf := |buf|;
    while curpos < nbuf && !seek
      invariant curpos <= nbuf && lineseekoff <= curseekoff && linepos <= BUF_SIZE
      invariant lineseekoff + linepos <= |input|
      invariant !seek ==> State(input, out, lineseekoff + linepos, curseekoff + curpos, writing, w)
      invariant seek ==> State(input, out, lineseekoff + linepos, lineseekoff + linepos, true, w)
      invariant seek ==> writing && lineseekoff < curseekoff
      invariant L0 <= lineseekoff + linepos
      invariant L0 == lineseekoff + linepos && writing0 ==> writing && !seek
      decreases |input| - (lineseekoff + linepos), if seek then 0 else 1, if writing then 0 else 1, nbuf - curpos
    {
      if writing {
        lineseekoff, curpos, linepos, writing, out, w :=
          WriteStep(input, buf, curseekoff, lineseekoff, curpos, linepos, out, w);
      } else {
        lineseekoff, curpos, linepos, writing, seek, w :=
          ScanStep(input, buf, curseekoff, lineseekoff, curpos, linepos, out, w);
      }
    }
  }

  /** main: exactly two arguments (the input and the output file), else exit code 2;
      otherwise the output is the input without its blank lines. */
  method RemoveBlankLines(argc: int, input: seq<byte>) returns (exitCode: int, out: seq<byte>)
    ensures argc != 3 ==> exitCode == 2 && out == []
    ensures argc == 3 ==> exitCode == 0 && out == Kept(input)
  {
    if argc != 3 {
      return 2, [];
    }
    out := [];
    var offset: nat := 0;
    var curseekoff: nat := 0;
    var lineseekoff: nat := 0;
    var curpos: nat := 0;
    var linepos: nat := 0;
    var writing := false;
    var postseek := false;
    ghost var w: nat := 0;
    var reading := true;
    while reading
      invariant offset <= |input| && lineseekoff <= offset && linepos <= BUF_SIZE
      invariant lineseekoff + linepos <= |input|
      invariant !postseek ==> State(input, out, lineseekoff + linepos, offset, writing, w)
      invariant postseek ==> (writing && offset == lineseekoff &&
        State(input, out, lineseekoff + linepos, lineseekoff + linepos, true, w))
      invariant !reading ==> offset == |input| && !postseek
      decreases if reading then 1 else 0, |input| - (lineseekoff + linepos), if writing then 0 else 1, |input| - offset
    {
      // read(): the next bytes from the file position
      curseekoff := offset;
      var nbuf: nat := if |input| - offset < BUF_SIZE then |input| - offset else BUF_SIZE;
      var buf := input[offset..offset + nbuf];
      offset := offset + nbuf;
      if postseek {
        curpos := linepos;
        curseekoff := lineseekoff;
      } else {
        curpos := 0;
      }
      postseek := false;
      var seek;
      lineseekoff, curpos, linepos, writing, seek, out, w :=
        ScanBuffer(input, buf, curseekoff, lineseekoff, curpos, linepos, writing, out, w);
      if seek {
        offset := lineseekoff;
        curseekoff := lineseekoff;
        postseek := true;
      } else {
        reading := nbuf > 0;
      }
    }
    assert State(input, out, lineseekoff + linepos, |input|, writing, w);
    AtEnd(input, out, lineseekoff + linepos, writing, w);
    exitCode := 0;
  }
}
