/**
 * check_for_errors (src/query.go): count the transcript lines in which the
 * regular expression (ORA|SP2)-[0-9]+: occurs anywhere.
 */
module ErrorScan {
  import opened Transcript

  /** "ORA-" and "SP2-", the two error-code families. */
  const ORA: seq<byte> := Ascii("ORA-")
  const SP2: seq<byte> := Ascii("SP2-")
  const COLON: byte := 58

  predicate IsDigit(b: byte)
  {
    48 <= b <= 57
  }

  /**
   * The regular expression matches `line[i..j + 1]`: the family token at `i`,
   * one or more digits at `i + 4 .. j - 1`, the colon at `j`.
   */
  ghost predicate OccursAt(line: seq<byte>, i: int, j: int)
  {
    0 <= i && i + 4 < j < |line| &&
    (line[i..i + 4] == ORA || line[i..i + 4] == SP2) &&
    (forall m :: i + 4 <= m < j ==> IsDigit(line[m])) &&
    line[j] == COLON
  }

  /** regexp MatchString: the pattern is not anchored, so any position will do. */
  ghost predicate MatchesPattern(line: seq<byte>)
  {
    exists i, j :: OccursAt(line, i, j)
  }

  // ---------------------------------------------------------------------------
  // The hand-written matcher standing in for Go's regexp engine.

  /** The first position at or after `k` that does not hold an ASCII digit. */
  function DigitsEnd(line: seq<byte>, k: nat): (e: nat)
    requires k <= |line|
    ensures k <= e <= |line|
    ensures forall m :: k <= m < e ==> IsDigit(line[m])
    ensures e < |line| ==> !IsDigit(line[e])
    decreases |line| - k
  {
    if k < |line| && IsDigit(line[k]) then DigitsEnd(line, k + 1) else k
  }

  predicate ErrorCodeAt(line: seq<byte>, i: nat)
  {
    i + 4 <= |line| &&
    (line[i..i + 4] == ORA || line[i..i + 4] == SP2) &&
    var e := DigitsEnd(line, i + 4);
    i + 4 < e < |line| && line[e] == COLON
  }

  predicate HasErrorCodeFrom(line: seq<byte>, i: nat)
    requires i <= |line|
    decreases |line| - i
  {
    i < |line| && (ErrorCodeAt(line, i) || HasErrorCodeFrom(line, i + 1))
  }

  predicate HasErrorCode(line: seq<byte>)
  {
    HasErrorCodeFrom(line, 0)
  }

  lemma ErrorCodeAtCorrect(line: seq<byte>, i: nat)
    ensures ErrorCodeAt(line, i) <==> exists j :: OccursAt(line, i, j)
  {
    if ErrorCodeAt(line, i) {
      assert OccursAt(line, i, DigitsEnd(line, i + 4));
    }
    if j :| OccursAt(line, i, j) {
      var e := DigitsEnd(line, i + 4);
      assert !IsDigit(line[j]);
      assert e == j;
    }
  }

  lemma {:induction false} HasErrorCodeFromCorrect(line: seq<byte>, i: nat)
    requires i <= |line|
    ensures HasErrorCodeFrom(line, i) <==> exists i', j :: i <= i' && OccursAt(line, i', j)
    decreases |line| - i
  {
    if i < |line| {
      ErrorCodeAtCorrect(line, i);
      HasErrorCodeFromCorrect(line, i + 1);
      if i', j :| i <= i' && OccursAt(line, i', j) {
        if i' != i {
          assert i + 1 <= i';
        }
      }
    }
  }

  /** The matcher decides exactly the regular expression. */
  lemma HasErrorCodeCorrect(line: seq<byte>)
    ensures HasErrorCode(line) <==> MatchesPattern(line)
  {
    HasErrorCodeFromCorrect(line, 0);
  }

  // ---------------------------------------------------------------------------
  // The count, as a specification.

  /** Each chunk adds one when the pattern occurs in it, nothing otherwise. */
  ghost function CountMatching(ls: seq<seq<byte>>): nat
  {
    if ls == [] then 0 else (if MatchesPattern(ls[0]) then 1 else 0) + CountMatching(ls[1..])
  }

  /** The number check_for_errors returns for a buffer whose unread bytes are `s`. */
  ghost function CountErrors(s: seq<byte>): nat
  {
    CountMatching(Lines(s))
  }

  /** The indices of the chunks in which the pattern occurs. */
  ghost function MatchingLines(ls: seq<seq<byte>>): set<nat>
  {
    set k: nat | k < |ls| && MatchesPattern(ls[k])
  }

  // ---------------------------------------------------------------------------
  // check_for_errors itself.

  /**
   * The buffer is passed by value, so the scan works on a copy with its own
   * read offset: it starts at the caller's offset and leaves the caller's
   * buffer as it was (the method modifies nothing it did not allocate).
   */
  method CheckForErrors(buffer: Buffer) returns (count: nat)
    requires buffer.Valid()
    ensures count == CountErrors(buffer.Unread())
  {
    var copy := new Buffer.Clone(buffer);
    count := 0;
    var done := false;
    while !done
      invariant copy.Valid()
      invariant !done ==> count + CountErrors(copy.Unread()) == CountErrors(buffer.Unread())
      invariant done ==> count == CountErrors(buffer.Unread())
      decreases |copy.Unread()| + (if done then 0 else 1)
    {
      CountErrorsStep(copy.Unread());
      var line, eof := copy.ReadString();
      HasErrorCodeCorrect(line);
      if HasErrorCode(line) {
        count := count + 1;
      }
      done := eof;
    }
  }

  /** One ReadString: the first chunk's share, plus the count of what is left unless that was the last chunk. */
  lemma CountErrorsStep(u: seq<byte>)
    ensures CountErrors(u) ==
      (if MatchesPattern(Lines(u)[0]) then 1 else 0) +
      (if |Lines(u)| == 1 then 0 else CountErrors(Flatten(Lines(u)[1..])))
    ensures |Lines(u)| > 1 ==> |Flatten(Lines(u)[1..])| < |u|
  {
    var ls := Lines(u);
    LinesAfterRead(u);
    assert CountMatching(ls) == (if MatchesPattern(ls[0]) then 1 else 0) + CountMatching(ls[1..]);
    if |ls| == 1 {
      assert ls[1..] == [];
    }
  }

  /**
   * Because the buffer is scanned through a copy, scanning it again finds the
   * same bytes and the same count.
   */
  method ScanTwice(buffer: Buffer) returns (first: nat, second: nat)
    requires buffer.Valid()
    ensures first == second == CountErrors(buffer.Unread())
  {
    first := CheckForErrors(buffer);
    second := CheckForErrors(buffer);
  }

  // ---------------------------------------------------------------------------
  // Properties of the count.

  lemma {:induction false} CountMatchingAppend(a: seq<seq<byte>>, b: seq<seq<byte>>)
    ensures CountMatching(a + b) == CountMatching(a) + CountMatching(b)
  {
    if a == [] {
      assert a + b == b;
    } else {
      assert (a + b)[0] == a[0] && (a + b)[1..] == a[1..] + b;
      CountMatchingAppend(a[1..], b);
    }
  }

  lemma CountMatchingStep(ls: seq<seq<byte>>, i: nat)
    requires i < |ls|
    ensures CountMatching(ls[..i + 1]) == CountMatching(ls[..i]) + (if MatchesPattern(ls[i]) then 1 else 0)
  {
    assert ls[..i + 1] == ls[..i] + [ls[i]];
    CountMatchingAppend(ls[..i], [ls[i]]);
    assert [ls[i]][1..] == [];
  }

  /** The count is the number of chunks in which the pattern occurs. */
  lemma {:induction false} CountMatchingIsCardinality(ls: seq<seq<byte>>)
    ensures CountMatching(ls) == |MatchingLines(ls)|
    decreases |ls|
  {
    if ls != [] {
      var n := |ls| - 1;
      var init := ls[..n];
      CountMatchingIsCardinality(init);
      assert ls[..n + 1] == ls;
      CountMatchingStep(ls, n);
      assert forall k :: 0 <= k < n ==> init[k] == ls[k];
      assert MatchingLines(ls) == MatchingLines(init) + (if MatchesPattern(ls[n]) then {n} else {});
    }
  }

  /** A line counts exactly when the pattern occurs in it, and each line counts at most once. */
  lemma CountErrorsIsLineCount(s: seq<byte>)
    ensures CountErrors(s) == |set k: nat | k < |Lines(s)| && MatchesPattern(Lines(s)[k])|
  {
    CountMatchingIsCardinality(Lines(s));
  }

  lemma {:induction false} CountMatchingBound(ls: seq<seq<byte>>)
    ensures CountMatching(ls) <= |ls|
  {
    if ls != [] {
      CountMatchingBound(ls[1..]);
    }
  }

  /** Each line adds at most one: never more than the number of '\n' plus one. */
  lemma CountErrorsBound(s: seq<byte>)
    ensures CountErrors(s) <= NewlineCount(s) + 1
  {
    CountMatchingBound(Lines(s));
    LinesCount(s);
  }

  /** No byte of an occurrence is a '\n', so an occurrence never spans two lines. */
  lemma OccurrenceHasNoNewline(s: seq<byte>, i: int, j: int)
    requires OccursAt(s, i, j)
    ensures forall m :: i <= m <= j ==> s[m] != NL
  {
    assert forall m :: i <= m < i + 4 ==> s[m] == s[i..i + 4][m - i];
  }

  /** An occurrence inside a piece of the buffer is an occurrence in the buffer. */
  lemma MatchesInfix(a: seq<byte>, line: seq<byte>, c: seq<byte>)
    requires MatchesPattern(line)
    ensures MatchesPattern(a + line + c)
  {
    var i, j :| OccursAt(line, i, j);
    var s := a + line + c;
    assert s[i + |a|..i + |a| + 4] == line[i..i + 4];
    assert forall m :: i + 4 <= m < j ==> s[m + |a|] == line[m];
    assert OccursAt(s, i + |a|, j + |a|);
  }

  lemma MatchesOfLine(s: seq<byte>, k: nat)
    requires k < |Lines(s)| && MatchesPattern(Lines(s)[k])
    ensures MatchesPattern(s)
  {
    var ls := Lines(s);
    LinesFlatten(s);
    assert ls == ls[..k] + [ls[k]] + ls[k + 1..];
    FlattenAppend(ls[..k] + [ls[k]], ls[k + 1..]);
    FlattenAppend(ls[..k], [ls[k]]);
    assert Flatten([ls[k]]) == ls[k] + Flatten([]);
    assert s == Flatten(ls[..k]) + ls[k] + Flatten(ls[k + 1..]);
    MatchesInfix(Flatten(ls[..k]), ls[k], Flatten(ls[k + 1..]));
  }

  lemma OccursInPrefix(s: seq<byte>, n: nat, i: int, j: int)
    requires OccursAt(s, i, j) && j < n <= |s|
    ensures OccursAt(s[..n], i, j)
  {
    assert s[..n][i..i + 4] == s[i..i + 4];
  }

  lemma OccursInSuffix(s: seq<byte>, d: nat, i: int, j: int)
    requires OccursAt(s, i, j) && d <= i
    ensures OccursAt(s[d..], i - d, j - d)
  {
    var rest := s[d..];
    assert rest[i - d..i - d + 4] == s[i..i + 4];
    assert forall m :: i - d + 4 <= m < j - d ==> rest[m] == s[m + d];
  }

  lemma {:induction false} MatchInSomeLine(s: seq<byte>)
    requires MatchesPattern(s)
    ensures exists k :: 0 <= k < |Lines(s)| && MatchesPattern(Lines(s)[k])
    decreases |s|
  {
    var i, j :| OccursAt(s, i, j);
    var n := LinesUnfold(s);
    if n == |s| {
      assert MatchesPattern(Lines(s)[0]);
    } else {
      OccurrenceHasNoNewline(s, i, j);
      assert !(i <= n <= j);
      if j < n {
        OccursInPrefix(s, n + 1, i, j);
        assert MatchesPattern(Lines(s)[0]);
      } else {
        var rest := s[n + 1..];
        OccursInSuffix(s, n + 1, i, j);
        MatchInSomeLine(rest);
        var k :| 0 <= k < |Lines(rest)| && MatchesPattern(Lines(rest)[k]);
        assert Lines(s)[k + 1] == Lines(s)[1..][k];
      }
    }
  }

  /**
   * The count is zero exactly when the pattern occurs nowhere in the scanned
   * bytes; in particular an empty buffer and text without error codes give 0.
   */
  lemma CountErrorsZeroIff(s: seq<byte>)
    ensures CountErrors(s) == 0 <==> !MatchesPattern(s)
  {
    var ls := Lines(s);
    CountMatchingIsCardinality(ls);
    if MatchesPattern(s) {
      MatchInSomeLine(s);
      var k :| 0 <= k < |ls| && MatchesPattern(ls[k]);
      assert k in MatchingLines(ls);
    } else {
      forall k | 0 <= k < |ls|
        ensures !MatchesPattern(ls[k])
      {
        if MatchesPattern(ls[k]) {
          MatchesOfLine(s, k);
        }
      }
      assert MatchingLines(ls) == {};
    }
  }

  /** A trailing '\n' never changes whether a line matches. */
  lemma MatchesWithNewline(line: seq<byte>)
    ensures MatchesPattern(line + [NL]) <==> MatchesPattern(line)
  {
    if MatchesPattern(line) {
      MatchesInfix([], line, [NL]);
      assert [] + line + [NL] == line + [NL];
    }
    if MatchesPattern(line + [NL]) {
      var i, j :| OccursAt(line + [NL], i, j);
      OccurrenceHasNoNewline(line + [NL], i, j);
      assert j < |line|;
      assert (line + [NL])[i..i + 4] == line[i..i + 4];
      assert forall m :: i + 4 <= m < j ==> (line + [NL])[m] == line[m];
      assert OccursAt(line, i, j);
    }
  }

  /** A buffer read back as `ls + [tail]` (its last, unterminated piece). */
  lemma SplitLast(s: seq<byte>) returns (init: seq<seq<byte>>, last: seq<byte>)
    ensures Lines(s) == init + [last]
    ensures s == Flatten(init) + last
    ensures forall i :: 0 <= i < |init| ==> Terminated(init[i])
    ensures NoNewline(last)
  {
    var ls := Lines(s);
    init, last := ls[..|ls| - 1], ls[|ls| - 1];
    assert ls == init + [last];
    LinesShape(s);
    LinesFlatten(s);
    FlattenAppend(init, [last]);
    assert Flatten([last]) == last + Flatten([]);
  }

  /**
   * Two transcripts joined by a '\n' count as the sum of their counts, in
   * either order.
   */
  lemma CountErrorsConcat(a: seq<byte>, b: seq<byte>)
    ensures CountErrors(a + [NL] + b) == CountErrors(a) + CountErrors(b)
    ensures CountErrors(a + [NL] + b) == CountErrors(b + [NL] + a)
  {
    JoinCount(a, b);
    JoinCount(b, a);
  }

  lemma JoinCount(a: seq<byte>, b: seq<byte>)
    ensures CountErrors(a + [NL] + b) == CountErrors(a) + CountErrors(b)
  {
    var ia, la, ib, lb := LinesOfJoin(a, b);
    CountMatchingAppend(ia + [la + [NL]], ib + [lb]);
    CountMatchingAppend(ia, [la + [NL]]);
    CountMatchingAppend(ia, [la]);
    MatchesWithNewline(la);
  }

  /** Joining two buffers with a '\n' ends the first one's last chunk and starts the second's chunks. */
  lemma LinesOfJoin(a: seq<byte>, b: seq<byte>) returns (ia: seq<seq<byte>>, la: seq<byte>, ib: seq<seq<byte>>, lb: seq<byte>)
    ensures Lines(a) == ia + [la] && Lines(b) == ib + [lb]
    ensures Lines(a + [NL] + b) == ia + [la + [NL]] + (ib + [lb])
  {
    ia, la := SplitLast(a);
    ib, lb := SplitLast(b);
    var joined := la + [NL];
    TerminatedWithNewline(la);
    AllTerminated(ia, joined, ib);
    JoinedBytes(ia, la, ib, lb);
    LinesOfTerminated(ia + [joined] + ib, lb);
    assert ia + [joined] + ib + [lb] == ia + [joined] + (ib + [lb]);
  }

  lemma TerminatedWithNewline(line: seq<byte>)
    requires NoNewline(line)
    ensures Terminated(line + [NL])
  {
    assert (line + [NL])[..|line|] == line;
  }

  lemma JoinedBytes(ia: seq<seq<byte>>, la: seq<byte>, ib: seq<seq<byte>>, lb: seq<byte>)
    ensures Flatten(ia) + la + [NL] + (Flatten(ib) + lb) == Flatten(ia + [la + [NL]] + ib) + lb
  {
    FlattenAppend(ia + [la + [NL]], ib);
    FlattenAppend(ia, [la + [NL]]);
    assert Flatten([la + [NL]]) == la + [NL] + Flatten([]);
  }

  lemma AllTerminated(ia: seq<seq<byte>>, joined: seq<byte>, ib: seq<seq<byte>>)
    requires forall i :: 0 <= i < |ia| ==> Terminated(ia[i])
    requires Terminated(joined)
    requires forall i :: 0 <= i < |ib| ==> Terminated(ib[i])
    ensures forall i :: 0 <= i < |ia + [joined] + ib| ==> Terminated((ia + [joined] + ib)[i])
  {
    var ls := ia + [joined] + ib;
    forall i | 0 <= i < |ls|
      ensures Terminated(ls[i])
    {
      if i < |ia| {
        assert ls[i] == ia[i];
      } else if i > |ia| {
        assert ls[i] == ib[i - |ia| - 1];
      }
    }
  }

  /** Counting does not depend on the order in which the lines are read. */
  lemma {:induction false} CountMatchingPermutation(a: seq<seq<byte>>, b: seq<seq<byte>>)
    requires multiset(a) == multiset(b)
    ensures CountMatching(a) == CountMatching(b)
    decreases |a|
  {
    if a == [] {
      assert |b| == |multiset(b)| == 0;
    } else {
      var x := a[0];
      assert x in multiset(b);
      var k :| 0 <= k < |b| && b[k] == x;
      var b' := b[..k] + b[k + 1..];
      assert b == b[..k] + [x] + b[k + 1..];
      assert a == [x] + a[1..];
      assert multiset(b) == multiset(b[..k]) + multiset{x} + multiset(b[k + 1..]);
      assert multiset(b') == multiset(b[..k]) + multiset(b[k + 1..]);
      assert multiset(a) == multiset{x} + multiset(a[1..]);
      assert multiset(a[1..]) == multiset(a) - multiset{x};
      assert multiset(b') == multiset(b) - multiset{x};
      CountMatchingPermutation(a[1..], b');
      CountMatchingAppend(b[..k] + [x], b[k + 1..]);
      CountMatchingAppend(b[..k], [x]);
      CountMatchingAppend(b[..k], b[k + 1..]);
      CountMatchingAppend([x], a[1..]);
    }
  }

  /** Reordering the complete lines of a transcript leaves the count unchanged. */
  lemma CountErrorsReorder(a: seq<seq<byte>>, b: seq<seq<byte>>)
    requires forall i :: 0 <= i < |a| ==> Terminated(a[i])
    requires forall i :: 0 <= i < |b| ==> Terminated(b[i])
    requires multiset(a) == multiset(b)
    ensures CountErrors(Flatten(a)) == CountErrors(Flatten(b))
  {
    LinesOfTerminated(a, []);
    LinesOfTerminated(b, []);
    assert Flatten(a) + [] == Flatten(a) && Flatten(b) + [] == Flatten(b);
    CountMatchingAppend(a, [[]]);
    CountMatchingAppend(b, [[]]);
    CountMatchingPermutation(a, b);
  }

  /** The cases of src/query_test.go (whose table lists each name before its input). */
  lemma TestEmpty()
    ensures CountErrors([]) == 0
    ensures CountErrors(Ascii("empty input")) == 0
  {
    NoErrorCode([]);
    var s := Ascii("empty input");
    assert forall i :: 0 <= i < |s| ==> s[i] != 79 && s[i] != 83;
    NoErrorCode(s);
  }

  lemma TestNoErrors()
    ensures CountErrors(Ascii("no errors at all")) == 0
  {
    var s := Ascii("no errors at all");
    assert forall i :: 0 <= i < |s| ==> s[i] != 79 && s[i] != 83;
    NoErrorCode(s);
  }

  lemma TestOra()
    ensures CountErrors(Ascii("ORA-1234: some error")) == 1
  {
    var s := Ascii("ORA-1234: some error");
    assert NoNewline(s);
    assert s[..4] == ORA && s[8] == COLON;
    assert forall m :: 4 <= m < 8 ==> IsDigit(s[m]);
    SingleErrorLine(s, 0, 8);
  }

  lemma TestSp2()
    ensures CountErrors(Ascii("SP2-1234: some error")) == 1
  {
    var s := Ascii("SP2-1234: some error");
    assert NoNewline(s);
    assert s[..4] == SP2 && s[8] == COLON;
    assert forall m :: 4 <= m < 8 ==> IsDigit(s[m]);
    SingleErrorLine(s, 0, 8);
  }

  lemma TestMultiple()
    ensures CountErrors(Ascii("ORA-1234: some error\nSP2-0000: some other error")) == 2
  {
    var text := "ORA-1234: some error\nSP2-0000: some other error";
    assert text == "ORA-1234: some error" + "\n" + "SP2-0000: some other error";
    AsciiAppend("ORA-1234: some error" + "\n", "SP2-0000: some other error");
    AsciiAppend("ORA-1234: some error", "\n");
    assert Ascii("\n") == [NL];
    TestOra();
    TestSp2Other();
    JoinCount(Ascii("ORA-1234: some error"), Ascii("SP2-0000: some other error"));
  }

  lemma TestSp2Other()
    ensures CountErrors(Ascii("SP2-0000: some other error")) == 1
  {
    var s := Ascii("SP2-0000: some other error");
    assert NoNewline(s);
    assert s[..4] == SP2 && s[8] == COLON;
    assert forall m :: 4 <= m < 8 ==> IsDigit(s[m]);
    SingleErrorLine(s, 0, 8);
  }

  /** The pattern is not anchored: an error code in the middle of a line counts. */
  lemma TestMidLine()
    ensures CountErrors(Ascii("foo ORA-1234: bar")) == 1
  {
    var s := Ascii("foo ORA-1234: bar");
    assert NoNewline(s);
    assert s[4..8] == ORA && s[12] == COLON;
    assert forall m :: 8 <= m < 12 ==> IsDigit(s[m]);
    SingleErrorLine(s, 4, 12);
  }

  /** A text with no 'O' and no 'S' holds no error code. */
  lemma NoErrorCode(s: seq<byte>)
    requires forall i :: 0 <= i < |s| ==> s[i] != 79 && s[i] != 83
    ensures CountErrors(s) == 0
  {
    CountErrorsZeroIff(s);
    forall i, j
      ensures !OccursAt(s, i, j)
    {
      if 0 <= i && i + 4 < j < |s| {
        assert s[i..i + 4][0] == s[i];
      }
    }
  }

  /** A single line holding an error code counts once. */
  lemma SingleErrorLine(s: seq<byte>, i: nat, j: nat)
    requires NoNewline(s)
    requires i + 4 < j < |s| && (s[i..i + 4] == ORA || s[i..i + 4] == SP2)
    requires forall m :: i + 4 <= m < j ==> IsDigit(s[m])
    requires s[j] == COLON
    ensures CountErrors(s) == 1
  {
    assert OccursAt(s, i, j);
    assert IndexOfNewline(s) == |s| by {
      assert s[..|s|] == s;
    }
    assert Lines(s) == [s];
    assert MatchesPattern(s);
    assert CountMatching([s]) == 1 + CountMatching([s][1..]);
    assert [s][1..] == [];
  }
}
