/**
 * The transcript buffer of src/query.go: a Go bytes.Buffer that the client's
 * output is appended to and that is read line by line with ReadString('\n').
 */
module Transcript {

  newtype byte = x: int | 0 <= x < 256

  /** The delimiter handed to ReadString. */
  const NL: byte := 10

  /** The bytes of an ASCII string literal. */
  function Ascii(s: string): seq<byte>
  {
    seq(|s|, i requires 0 <= i < |s| => (s[i] as int % 256) as byte)
  }

  lemma AsciiAppend(a: string, b: string)
    ensures Ascii(a + b) == Ascii(a) + Ascii(b)
  {
  }

  predicate NoNewline(s: seq<byte>)
  {
    forall i :: 0 <= i < |s| ==> s[i] != NL
  }

  /** A complete line as ReadString returns it: its only '\n' is its last byte. */
  predicate Terminated(line: seq<byte>)
  {
    |line| > 0 && line[|line| - 1] == NL && NoNewline(line[..|line| - 1])
  }

  /** The number of '\n' bytes in `s`. */
  function NewlineCount(s: seq<byte>): nat
  {
    multiset(s)[NL]
  }

  /** The position of the first '\n' in `s`, or |s| when there is none (bytes.IndexByte). */
  function IndexOfNewline(s: seq<byte>): (k: nat)
    ensures k <= |s|
    ensures k < |s| ==> s[k] == NL
    ensures NoNewline(s[..k])
  {
    if s == [] then 0
    else if s[0] == NL then 0
    else
      var k := 1 + IndexOfNewline(s[1..]);
      assert s[..k] == [s[0]] + s[1..][..k - 1];
      k
  }

  /**
   * The chunks that successive ReadString('\n') calls return until and
   * including the call that reports EOF: every chunk but the last ends with
   * its '\n'; the last is whatever follows the final '\n' (possibly empty).
   */
  function Lines(s: seq<byte>): (ls: seq<seq<byte>>)
    ensures |ls| > 0
    decreases |s|
  {
    var k := IndexOfNewline(s);
    if k == |s| then [s] else [s[..k + 1]] + Lines(s[k + 1..])
  }

  /** Concatenation of a sequence of chunks. */
  function Flatten(ls: seq<seq<byte>>): seq<byte>
  {
    if ls == [] then [] else ls[0] + Flatten(ls[1..])
  }

  lemma {:induction false} FlattenAppend(a: seq<seq<byte>>, b: seq<seq<byte>>)
    ensures Flatten(a + b) == Flatten(a) + Flatten(b)
  {
    if a != [] {
      calc {
        Flatten(a + b);
        (a + b)[0] + Flatten((a + b)[1..]);
        { assert (a + b)[0] == a[0] && (a + b)[1..] == a[1..] + b; }
        a[0] + Flatten(a[1..] + b);
        { FlattenAppend(a[1..], b); }
        a[0] + (Flatten(a[1..]) + Flatten(b));
        Flatten(a) + Flatten(b);
      }
    } else {
      assert a + b == b;
    }
  }

  /** One step of Lines: the first chunk and what is left after it. */
  lemma LinesUnfold(s: seq<byte>) returns (k: nat)
    ensures k == IndexOfNewline(s)
    ensures k == |s| ==> Lines(s) == [s]
    ensures k < |s| ==> Lines(s) == [s[..k + 1]] + Lines(s[k + 1..])
    ensures k < |s| ==> Lines(s)[0] == s[..k + 1] && Lines(s)[1..] == Lines(s[k + 1..])
    ensures k < |s| ==> s == s[..k + 1] + s[k + 1..]
  {
    k := IndexOfNewline(s);
    if k < |s| {
      var rest := s[k + 1..];
      assert Lines(s) == [s[..k + 1]] + Lines(rest);
      ConsParts(s[..k + 1], Lines(rest));
      assert s == s[..k + 1] + rest;
    }
  }

  lemma ConsParts<T>(x: T, xs: seq<T>)
    ensures ([x] + xs)[0] == x && ([x] + xs)[1..] == xs
  {
  }

  /** Reading the whole buffer chunk by chunk hands back every byte, in order. */
  lemma {:induction false} LinesFlatten(s: seq<byte>)
    ensures Flatten(Lines(s)) == s
    decreases |s|
  {
    var k := LinesUnfold(s);
    if k < |s| {
      LinesFlatten(s[k + 1..]);
      assert Flatten(Lines(s)) == Lines(s)[0] + Flatten(Lines(s)[1..]);
    } else {
      assert Flatten([s]) == s + Flatten([]);
    }
  }

  /**
   * A buffer made of complete lines followed by a tail without '\n' is read
   * back as exactly those lines and then the tail; so this is the only way to
   * cut a buffer into ReadString chunks.
   */
  lemma {:induction false} LinesOfTerminated(ls: seq<seq<byte>>, tail: seq<byte>)
    requires forall i :: 0 <= i < |ls| ==> Terminated(ls[i])
    requires NoNewline(tail)
    ensures Lines(Flatten(ls) + tail) == ls + [tail]
  {
    if ls == [] {
      assert Flatten(ls) + tail == tail;
      assert IndexOfNewline(tail) == |tail| by {
        assert tail[..|tail|] == tail;
      }
    } else {
      assert Flatten(ls) + tail == ls[0] + (Flatten(ls[1..]) + tail);
      LinesOfLine(ls[0], Flatten(ls[1..]) + tail);
      LinesOfTerminated(ls[1..], tail);
      assert ls == [ls[0]] + ls[1..];
    }
  }

  /** A complete line at the front of the buffer is the first chunk read. */
  lemma LinesOfLine(line: seq<byte>, rest: seq<byte>)
    requires Terminated(line)
    ensures Lines(line + rest) == [line] + Lines(rest)
  {
    var s := line + rest;
    var n := |line| - 1;
    assert forall i :: 0 <= i < n ==> s[i] == line[..n][i];
    assert s[n] == NL;
    var k := IndexOfNewline(s);
    assert k == n;
    assert s[..k + 1] == line;
    assert s[k + 1..] == rest;
  }

  /** Every chunk but the last is a complete line; the last has no '\n'. */
  lemma {:induction false} LinesShape(s: seq<byte>)
    ensures forall i :: 0 <= i < |Lines(s)| - 1 ==> Terminated(Lines(s)[i])
    ensures NoNewline(Lines(s)[|Lines(s)| - 1])
    decreases |s|
  {
    var k := LinesUnfold(s);
    if k < |s| {
      var line := s[..k + 1];
      assert line[..k] == s[..k];
      assert Terminated(line);
      LinesShape(s[k + 1..]);
    }
  }

  /** The number of chunks read is the number of '\n' plus one. */
  lemma {:induction false} LinesCount(s: seq<byte>)
    ensures |Lines(s)| == NewlineCount(s) + 1
    decreases |s|
  {
    var k := LinesUnfold(s);
    if k == |s| {
      assert s[..k] == s;
      NoNewlineCount(s);
    } else {
      LinesCount(s[k + 1..]);
      assert s[..k + 1] == s[..k] + [NL];
      NoNewlineCount(s[..k]);
      assert NewlineCount(s[..k + 1]) == 1 by {
        assert multiset(s[..k + 1]) == multiset(s[..k]) + multiset{NL};
      }
      assert NewlineCount(s) == NewlineCount(s[..k + 1]) + NewlineCount(s[k + 1..]) by {
        assert multiset(s) == multiset(s[..k + 1]) + multiset(s[k + 1..]);
      }
    }
  }

  lemma NoNewlineCount(s: seq<byte>)
    requires NoNewline(s)
    ensures NewlineCount(s) == 0
  {
    assert NL !in s;
  }

  /**
   * What one ReadString leaves unread: nothing after the last chunk, and
   * otherwise a strictly shorter buffer that is read as the remaining chunks.
   */
  lemma LinesAfterRead(s: seq<byte>)
    ensures |Lines(s)| == 1 ==> Flatten(Lines(s)[1..]) == []
    ensures |Lines(s)| > 1 ==>
      |Flatten(Lines(s)[1..])| < |s| && Lines(Flatten(Lines(s)[1..])) == Lines(s)[1..]
  {
    var k := LinesUnfold(s);
    if k == |s| {
      assert Lines(s)[1..] == [];
    } else {
      LinesFlatten(s[k + 1..]);
    }
  }

  /**
   * bytes.Buffer: `data` holds the bytes written so far and `off` the read
   * offset; ReadString consumes from `off`, Write appends.
   */
  class Buffer {
    var data: seq<byte>
    var off: nat

    ghost predicate Valid()
      reads this
    {
      off <= |data|
    }

    /** The bytes written and not yet read. */
    function Unread(): seq<byte>
      reads this
      requires Valid()
    {
      data[off..]
    }

    /** The zero bytes.Buffer. */
    constructor ()
      ensures Valid() && Unread() == []
    {
      data, off := [], 0;
    }

    /** Go copies a bytes.Buffer passed by value: the copy has its own read offset. */
    constructor Clone(b: Buffer)
      requires b.Valid()
      ensures Valid() && data == b.data && off == b.off
    {
      data, off := b.data, b.off;
    }

    method Write(p: seq<byte>)
      requires Valid()
      modifies this
      ensures Valid() && Unread() == old(Unread()) + p
    {
      data := data + p;
    }

    /**
     * ReadString('\n'): returns the bytes up to and including the first '\n',
     * or, when there is none, all the remaining bytes together with EOF. Either
     * way the returned bytes are consumed.
     */
    method ReadString() returns (line: seq<byte>, eof: bool)
      requires Valid()
      modifies this
      ensures Valid()
      ensures line == Lines(old(Unread()))[0]
      ensures eof <==> NL !in old(Unread())
      ensures eof <==> |Lines(old(Unread()))| == 1
      ensures Unread() == Flatten(Lines(old(Unread()))[1..])
    {
      ghost var u := Unread();
      var k := IndexOfNewline(data[off..]);
      if k < |data| - off {
        line := data[off..off + k + 1];
        off := off + k + 1;
        eof := false;
        assert u[k] == NL;
        LinesFlatten(u[k + 1..]);
        assert Unread() == u[k + 1..];
      } else {
        line := data[off..];
        off := |data|;
        eof := true;
        assert NL !in u by {
          assert u[..k] == u;
        }
      }
    }
  }
}
