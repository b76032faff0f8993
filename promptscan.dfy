/**
 * The line test inside wait_for_string (src/query.go): read the transcript
 * chunk by chunk and stop at the first chunk that starts with the prompt.
 * The polling, the sleep and the time-out around it are not modelled: one
 * call reads what has been written so far.
 */
module PromptScan {
  import opened Wrappers
  import opened Transcript

  /** strings.HasPrefix */
  predicate HasPrefix(s: seq<byte>, prefix: seq<byte>)
  {
    |prefix| <= |s| && s[..|prefix|] == prefix
  }

  /** The index of the first chunk that starts with `needle`, if any. */
  function FirstPrefixed(chunks: seq<seq<byte>>, needle: seq<byte>): (r: Option<nat>)
    ensures r.Some? ==> r.value < |chunks| && HasPrefix(chunks[r.value], needle)
    ensures r.Some? ==> forall k :: 0 <= k < r.value ==> !HasPrefix(chunks[k], needle)
    ensures r.None? <==> forall k :: 0 <= k < |chunks| ==> !HasPrefix(chunks[k], needle)
  {
    if chunks == [] then None
    else if HasPrefix(chunks[0], needle) then Some(0)
    else match FirstPrefixed(chunks[1..], needle)
      case None => None
      case Some(k) => Some(k + 1)
  }

  /**
   * Reading stops at the first matching chunk: what is read after it cannot
   * change the outcome, and when nothing read so far matches, the outcome is
   * decided by what comes next.
   */
  lemma {:induction false} FirstPrefixedAppend(a: seq<seq<byte>>, b: seq<seq<byte>>, needle: seq<byte>)
    ensures FirstPrefixed(a + b, needle) ==
      match FirstPrefixed(a, needle)
      case Some(k) => Some(k)
      case None => match FirstPrefixed(b, needle)
        case Some(k) => Some(|a| + k)
        case None => None
  {
    if a == [] {
      assert a + b == b;
    } else {
      assert (a + b)[0] == a[0] && (a + b)[1..] == a[1..] + b;
      FirstPrefixedAppend(a[1..], b, needle);
    }
  }

  /** Only chunks up to the first match are inspected. */
  lemma NoLaterChunkInspected(chunks: seq<seq<byte>>, more: seq<seq<byte>>, needle: seq<byte>, k: nat)
    requires FirstPrefixed(chunks, needle) == Some(k)
    ensures FirstPrefixed(chunks[..k + 1] + more, needle) == Some(k)
  {
    FirstPrefixedAppend(chunks[..k + 1], more, needle);
    assert forall i :: 0 <= i <= k ==> chunks[..k + 1][i] == chunks[i];
  }

  /**
   * A prompt that the client prints without a '\n' after it (it waits on
   * that line for input) is found as the final chunk ReadString returns with
   * EOF.
   */
  lemma PromptOnUnterminatedLine(ls: seq<seq<byte>>, tail: seq<byte>, needle: seq<byte>)
    requires forall i :: 0 <= i < |ls| ==> Terminated(ls[i]) && !HasPrefix(ls[i], needle)
    requires NoNewline(tail) && HasPrefix(tail, needle)
    ensures FirstPrefixed(Lines(Flatten(ls) + tail), needle) == Some(|ls|)
  {
    LinesOfTerminated(ls, tail);
    FirstPrefixedAppend(ls, [tail], needle);
  }

  /** A wait that ends on such a prompt has consumed everything in the buffer. */
  lemma PromptConsumesAll(ls: seq<seq<byte>>, tail: seq<byte>, needle: seq<byte>)
    requires forall i :: 0 <= i < |ls| ==> Terminated(ls[i]) && !HasPrefix(ls[i], needle)
    requires NoNewline(tail) && HasPrefix(tail, needle)
    ensures PromptSeen(Flatten(ls) + tail, needle)
    ensures Unconsumed(Flatten(ls) + tail, needle) == []
  {
    var s := Flatten(ls) + tail;
    PromptOnUnterminatedLine(ls, tail, needle);
    LinesOfTerminated(ls, tail);
    assert Lines(s)[|ls| + 1..] == [];
  }

  /** Some chunk of a buffer holding `s` starts with `needle`. */
  ghost predicate PromptSeen(s: seq<byte>, needle: seq<byte>)
  {
    FirstPrefixed(Lines(s), needle).Some?
  }

  /** What a wait for `needle` leaves unread of a buffer holding `s`. */
  ghost function Unconsumed(s: seq<byte>, needle: seq<byte>): seq<byte>
  {
    match FirstPrefixed(Lines(s), needle)
    case Some(k) => Flatten(Lines(s)[k + 1..])
    case None => []
  }

  /**
   * The loop of wait_for_string over what the buffer holds: ReadString until a
   * chunk starts with `needle`, testing the final unterminated chunk too.
   * Every chunk read is consumed. When no chunk matches, everything has been
   * read and the source would go on polling until its time-out.
   */
  method WaitForString(hay: Buffer, needle: seq<byte>) returns (found: bool)
    requires hay.Valid()
    modifies hay
    ensures hay.Valid()
    ensures found <==> PromptSeen(old(hay.Unread()), needle)
    ensures hay.Unread() == Unconsumed(old(hay.Unread()), needle)
  {
    ghost var s := hay.Unread();
    found := false;
    var eof := false;
    while !found && !eof
      invariant hay.Valid()
      invariant !found && !eof ==>
        PromptSeen(hay.Unread(), needle) == PromptSeen(s, needle) &&
        Unconsumed(hay.Unread(), needle) == Unconsumed(s, needle)
      invariant found ==> PromptSeen(s, needle) && hay.Unread() == Unconsumed(s, needle)
      invariant eof && !found ==> !PromptSeen(s, needle) && hay.Unread() == Unconsumed(s, needle)
      decreases |hay.Unread()| + (if found || eof then 0 else 1)
    {
      WaitStep(hay.Unread(), needle);
      var line;
      line, eof := hay.ReadString();
      found := HasPrefix(line, needle);
    }
  }

  /** One ReadString of the wait: stop on a match, give up at EOF, or go on with the rest. */
  lemma WaitStep(u: seq<byte>, needle: seq<byte>)
    ensures |Lines(u)| == 1 ==> Flatten(Lines(u)[1..]) == []
    ensures |Lines(u)| > 1 ==> |Flatten(Lines(u)[1..])| < |u|
    ensures HasPrefix(Lines(u)[0], needle) ==>
      PromptSeen(u, needle) && Unconsumed(u, needle) == Flatten(Lines(u)[1..])
    ensures !HasPrefix(Lines(u)[0], needle) && |Lines(u)| == 1 ==>
      !PromptSeen(u, needle) && Unconsumed(u, needle) == []
    ensures !HasPrefix(Lines(u)[0], needle) && |Lines(u)| > 1 ==>
      var rest := Flatten(Lines(u)[1..]);
      PromptSeen(u, needle) == PromptSeen(rest, needle) &&
      Unconsumed(u, needle) == Unconsumed(rest, needle)
  {
    LinesAfterRead(u);
    if HasPrefix(Lines(u)[0], needle) {
      WaitStepMatch(u, needle);
    } else if |Lines(u)| == 1 {
      WaitStepLast(u, needle);
    } else {
      WaitStepMore(u, needle);
    }
  }

  lemma WaitStepMatch(u: seq<byte>, needle: seq<byte>)
    requires HasPrefix(Lines(u)[0], needle)
    ensures PromptSeen(u, needle) && Unconsumed(u, needle) == Flatten(Lines(u)[1..])
  {
    assert FirstPrefixed(Lines(u), needle) == Some(0);
  }

  lemma WaitStepLast(u: seq<byte>, needle: seq<byte>)
    requires !HasPrefix(Lines(u)[0], needle) && |Lines(u)| == 1
    ensures !PromptSeen(u, needle) && Unconsumed(u, needle) == []
  {
    assert FirstPrefixed(Lines(u), needle) == None;
  }

  lemma WaitStepMore(u: seq<byte>, needle: seq<byte>)
    requires !HasPrefix(Lines(u)[0], needle) && |Lines(u)| > 1
    ensures var rest := Flatten(Lines(u)[1..]);
      PromptSeen(u, needle) == PromptSeen(rest, needle) &&
      Unconsumed(u, needle) == Unconsumed(rest, needle)
  {
    var ls := Lines(u);
    var rest := Flatten(ls[1..]);
    LinesAfterRead(u);
    assert Lines(rest) == ls[1..];
    FirstPrefixedTail(ls, needle);
  }

  /** Past a chunk that does not match, the search goes on in the chunks after it. */
  lemma FirstPrefixedTail(ls: seq<seq<byte>>, needle: seq<byte>)
    requires |ls| > 0 && !HasPrefix(ls[0], needle)
    ensures FirstPrefixed(ls, needle).Some? == FirstPrefixed(ls[1..], needle).Some?
    ensures FirstPrefixed(ls, needle).Some? ==>
      ls[FirstPrefixed(ls, needle).value + 1..] == ls[1..][FirstPrefixed(ls[1..], needle).value + 1..]
  {
  }
}
