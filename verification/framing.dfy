/**
 * Message framing on the original's side of the handshake.
 *
 * The listener reads an accepted connection with `BufferedReader.readLine`
 * until end of stream and appends every line to one buffer. `readLine`
 * ends a line at '\n', at '\r', or at "\r\n" and never returns the
 * terminator, so the message handed to the application is the connection's
 * body with every '\r' and '\n' removed. The wire is modelled as characters.
 */
module Framing {

  datatype Option<T> = None | Some(value: T)

  /** One result of `readLine`: the line without its terminator, and what is left of the stream. */
  datatype Line = Line(text: string, rest: string)

  predicate IsTerminator(c: char) {
    c == '\r' || c == '\n'
  }

  predicate HasNoTerminator(s: string) {
    forall i :: 0 <= i < |s| ==> !IsTerminator(s[i])
  }

  /** The message the listener builds from a connection body: the body without its line terminators. */
  function Frame(body: string): (msg: string)
    ensures |msg| <= |body|
    ensures HasNoTerminator(msg)
  {
    if body == [] then []
    else if IsTerminator(body[0]) then Frame(body[1..])
    else [body[0]] + Frame(body[1..])
  }

  /** Length of the line at the head of `s`: the index of the first terminator, or |s|. */
  function LineEnd(s: string): (n: nat)
    ensures n <= |s|
    ensures HasNoTerminator(s[..n])
    ensures n < |s| ==> IsTerminator(s[n])
  {
    if s == [] || IsTerminator(s[0]) then 0
    else
      assert s[..1 + LineEnd(s[1..])] == [s[0]] + s[1..][..LineEnd(s[1..])];
      1 + LineEnd(s[1..])
  }

  /**
   * `readLine` on a stream whose unread part is `s`: None at end of stream,
   * otherwise the next line and the rest of the stream after its terminator
   * ("\r\n" counts as one terminator).
   */
  function ReadLine(s: string): (r: Option<Line>)
    ensures r.None? <==> s == []
    ensures r.Some? ==> |r.value.rest| < |s| && HasNoTerminator(r.value.text)
    ensures r.Some? ==> r.value.text == s[..LineEnd(s)]
    ensures r.Some? ==> r.value.rest == s[|s| - |r.value.rest|..]
    ensures r.Some? ==> Frame(s) == r.value.text + Frame(r.value.rest)
  {
    if s == [] then None
    else
      var n := LineEnd(s);
      var skip := if n == |s| then 0
                  else if s[n] == '\r' && n + 1 < |s| && s[n + 1] == '\n' then 2
                  else 1;
      FrameSplitsAtLineEnd(s, n, skip);
      Some(Line(s[..n], s[n + skip..]))
  }

  /** Cutting a body at a line end and dropping the terminator leaves the framed message unchanged. */
  lemma FrameSplitsAtLineEnd(s: string, n: nat, skip: nat)
    requires n + skip <= |s| && HasNoTerminator(s[..n])
    requires forall k :: n <= k < n + skip ==> IsTerminator(s[k])
    ensures Frame(s) == s[..n] + Frame(s[n + skip..])
  {
    FrameOfPlainText(s[..n]);
    FrameAppend(s[..n], s[n..]);
    assert s[..n] + s[n..] == s;
    FrameOfTerminators(s[n..], skip);
    assert s[n..][skip..] == s[n + skip..];
  }

  /** Leading terminators do not reach the message. */
  lemma {:induction false} FrameOfTerminators(s: string, skip: nat)
    requires skip <= |s| && forall k :: 0 <= k < skip ==> IsTerminator(s[k])
    ensures Frame(s) == Frame(s[skip..])
  {
    if skip > 0 {
      FrameOfTerminators(s[1..], skip - 1);
      assert s[1..][skip - 1..] == s[skip..];
    }
  }

  /** Framing distributes over concatenation of bodies. */
  lemma {:induction false} FrameAppend(a: string, b: string)
    ensures Frame(a + b) == Frame(a) + Frame(b)
  {
    if a == [] {
      assert a + b == b;
    } else {
      assert (a + b)[1..] == a[1..] + b;
      FrameAppend(a[1..], b);
    }
  }

  /** A body without terminators is delivered unchanged. */
  lemma {:induction false} FrameOfPlainText(s: string)
    requires HasNoTerminator(s)
    ensures Frame(s) == s
  {
    if s != [] {
      FrameOfPlainText(s[1..]);
      assert [s[0]] + s[1..] == s;
    }
  }

  /** Message fidelity: the message arrives exactly as sent if and only if it holds no '\r' or '\n'. */
  lemma RoundTripExact(m: string)
    ensures Frame(m) == m <==> HasNoTerminator(m)
  {
    if HasNoTerminator(m) {
      FrameOfPlainText(m);
    }
  }

  /** Framing an already framed message changes nothing. */
  lemma FrameIdempotent(body: string)
    ensures Frame(Frame(body)) == Frame(body)
  {
    FrameOfPlainText(Frame(body));
  }
}
