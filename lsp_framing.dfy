/** The Content-Length framing of `src/lsp.rs` on raw bytes: the frame that
    `send_message` writes and the header-then-body reading that `read_message`
    performs, with its line-by-line header scan. */
module LspFraming {
  import opened Wrappers
  import opened Strings
  import opened Decimal

  newtype byte = b: int | 0 <= b < 256

  const LF: byte := 10

  /** Header text decoded one byte per character (header lines are ASCII). */
  function Latin(bs: seq<byte>): (s: string)
    ensures |s| == |bs| && forall i :: 0 <= i < |bs| ==> s[i] as int == bs[i] as int
  {
    seq(|bs|, i requires 0 <= i < |bs| => bs[i] as int as char)
  }

  predicate IsAscii(s: string) {
    forall i :: 0 <= i < |s| ==> s[i] as int < 128
  }

  /** `str::as_bytes` on ASCII text. */
  function Ascii(s: string): (bs: seq<byte>)
    requires IsAscii(s)
    ensures |bs| == |s| && forall i :: 0 <= i < |s| ==> bs[i] as int == s[i] as int
  {
    seq(|s|, i requires 0 <= i < |s| => s[i] as int as byte)
  }

  /** ASCII text decodes back from its bytes. */
  lemma LatinAscii(s: string)
    requires IsAscii(s)
    ensures Latin(Ascii(s)) == s
  {
  }

  lemma AsciiAppend(a: string, b: string)
    requires IsAscii(a) && IsAscii(b)
    ensures IsAscii(a + b) && Ascii(a + b) == Ascii(a) + Ascii(b)
  {
    assert IsAscii(a + b) by {
      forall i | 0 <= i < |a + b| ensures (a + b)[i] as int < 128 {
        if i >= |a| { assert (a + b)[i] == b[i - |a|]; }
      }
    }
  }

  const CONTENT_LENGTH := "Content-Length"

  /** `format!("Content-Length: {}\r\n\r\n", content_length)`. */
  function Header(n: nat): (h: string)
    ensures IsAscii(h)
  {
    var digits := Show(n);
    assert IsAscii(digits) by {
      forall i | 0 <= i < |digits| ensures digits[i] as int < 128 { assert IsDigit(digits[i]); }
    }
    LENGTH_PREFIX + digits + "\r\n" + "\r\n"
  }

  /** What `send_message` writes for a serialised body: the header, then the body. */
  function Frame(body: seq<byte>): seq<byte> {
    Ascii(Header(|body|)) + body
  }

  /** How many bytes `read_line` takes: up to and including the first line feed, or
      everything that is left when there is none. */
  function LineLength(s: seq<byte>): (n: nat)
    ensures n <= |s| && (s != [] ==> n > 0)
    ensures forall i :: 0 <= i < n - 1 ==> s[i] != LF
    ensures 0 < n < |s| ==> s[n - 1] == LF
    decreases |s|
  {
    if s == [] then 0 else if s[0] == LF then 1 else 1 + LineLength(s[1..])
  }

  /** A line that ends in its only line feed is exactly what `read_line` takes. */
  lemma LineLengthOfLine(line: seq<byte>, rest: seq<byte>)
    requires line != [] && line[|line| - 1] == LF
    requires forall i :: 0 <= i < |line| - 1 ==> line[i] != LF
    ensures LineLength(line + rest) == |line|
  {
    var s := line + rest;
    var n := LineLength(s);
    assert forall i :: 0 <= i < |line| ==> s[i] == line[i];
  }

  /** The role of one header line in `read_message`. */
  datatype HeaderLine =
    | Blank                              // the trimmed line is empty: the block ends
    | ContentLength(n: nat)              // `Content-Length: n`
    | BadContentLength(e: ParseIntError) // `Content-Length: ` with a value that is no `usize`
    | Ignored                            // any other header

  const LENGTH_PREFIX := CONTENT_LENGTH + ": "

  /** The trimmed line is split on its first `": "`; only the key `Content-Length`
      matters, and its value must parse as a `usize`. */
  function ClassifyHeader(line: string): HeaderLine {
    ClassifyTrimmed(Trim(line))
  }

  function ClassifyTrimmed(t: string): HeaderLine {
    if t == [] then Blank
    else
      match SplitOnce(t, ": ")
      case Some((key, value)) =>
        if key == CONTENT_LENGTH then
          match ParseUnsigned(value, USIZE_MAX)
          case Ok(n) => ContentLength(n)
          case Err(e) => BadContentLength(e)
        else Ignored
      case None => Ignored
  }

  /** Trimmed text is blank exactly when empty, and a length header exactly when it
      starts with `Content-Length: `, the rest being what is parsed. */
  lemma ClassifyTrimmedMeaning(t: string)
    ensures ClassifyTrimmed(t).Blank? <==> t == []
    ensures (ClassifyTrimmed(t).ContentLength? || ClassifyTrimmed(t).BadContentLength?) <==>
      |t| >= |LENGTH_PREFIX| && t[..|LENGTH_PREFIX|] == LENGTH_PREFIX
    ensures ClassifyTrimmed(t).ContentLength? ==>
      ParseUnsigned(t[|LENGTH_PREFIX|..], USIZE_MAX) == Ok(ClassifyTrimmed(t).n)
    ensures ClassifyTrimmed(t).BadContentLength? ==>
      ParseUnsigned(t[|LENGTH_PREFIX|..], USIZE_MAX) == Err(ClassifyTrimmed(t).e)
  {
    var p := |LENGTH_PREFIX|;
    SplitOnceSpec(t, ": ");
    if |t| >= p && t[..p] == LENGTH_PREFIX {
      assert t == CONTENT_LENGTH + ": " + t[p..];
      SplitOnceBefore(CONTENT_LENGTH, ": ", t[p..]);
    }
  }

  /** The same statement about a whole header line, trimmed first. */
  lemma ClassifyHeaderMeaning(line: string)
    ensures ClassifyHeader(line).Blank? <==> Trim(line) == []
    ensures (ClassifyHeader(line).ContentLength? || ClassifyHeader(line).BadContentLength?) <==>
      |Trim(line)| >= |LENGTH_PREFIX| && Trim(line)[..|LENGTH_PREFIX|] == LENGTH_PREFIX
    ensures ClassifyHeader(line).ContentLength? ==>
      ParseUnsigned(Trim(line)[|LENGTH_PREFIX|..], USIZE_MAX) == Ok(ClassifyHeader(line).n)
    ensures ClassifyHeader(line).BadContentLength? ==>
      ParseUnsigned(Trim(line)[|LENGTH_PREFIX|..], USIZE_MAX) == Err(ClassifyHeader(line).e)
  {
    ClassifyTrimmedMeaning(Trim(line));
  }

  datatype ReadError =
    | InvalidContentLength(e: ParseIntError) // the `?` on `parse::<usize>()`
    | CapacityOverflow                       // `vec![0; n]` panics for `n` above `isize::MAX`
    | UnexpectedEof                          // `read_exact` ran out of bytes
    | InvalidJson                            // the body is not UTF-8 JSON
    | InvalidMessage                         // the JSON is no `ServerMessage`

  /** The result of one read and the bytes left on the stream after it. */
  datatype Read<T> = Read(result: Result<Option<T>, ReadError>, rest: seq<byte>)

  /** After the header block: no length means no body is read. A length above
      `isize::MAX` makes the buffer allocation panic before anything is read. Otherwise
      exactly that many bytes are read, or the stream ends early. */
  function ReadBody(s: seq<byte>, contentLength: Option<nat>): Read<seq<byte>> {
    match contentLength
    case None => Read(Ok(None), s)
    case Some(n) =>
      if n > ISIZE_MAX then Read(Err(CapacityOverflow), s)
      else if n <= |s| then Read(Ok(Some(s[..n])), s[n..])
      else Read(Err(UnexpectedEof), [])
  }

  /** The header loop of `read_message`, one `read_line` per turn, carrying the last
      `Content-Length` seen. */
  function ReadHeaders(s: seq<byte>, contentLength: Option<nat>): (r: Read<seq<byte>>)
    ensures |r.rest| <= |s| && r.rest == s[|s| - |r.rest|..]
    ensures s != [] ==> |r.rest| < |s|
    decreases |s|
  {
    if s == [] then Read(Ok(None), [])
    else
      var n := LineLength(s);
      match ClassifyHeader(Latin(s[..n]))
      case Blank => ReadBody(s[n..], contentLength)
      case ContentLength(k) => ReadHeaders(s[n..], Some(k))
      case BadContentLength(e) => Read(Err(InvalidContentLength(e)), s[n..])
      case Ignored => ReadHeaders(s[n..], contentLength)
  }

  /** The framing half of `read_message`: the body bytes of the next message, if any. */
  function ReadFrame(s: seq<byte>): Read<seq<byte>> {
    ReadHeaders(s, None)
  }

  /** The text of the first header line `send_message` writes is ASCII, and only
      its last character is a line feed. */
  lemma LengthText(n: nat)
    ensures IsAscii(LENGTH_PREFIX + Show(n) + "\r\n")
    ensures forall i :: 0 <= i < |LENGTH_PREFIX + Show(n)| ==> (LENGTH_PREFIX + Show(n))[i] != '\n'
  {
    var digits := Show(n);
    var text := LENGTH_PREFIX + digits;
    var p := |LENGTH_PREFIX|;
    forall i | 0 <= i < |text| ensures text[i] as int < 128 && text[i] != '\n' {
      if i >= p { assert text[i] == digits[i - p]; assert IsDigit(digits[i - p]); }
    }
    AsciiAppend(text, "\r\n");
  }

  /** That line reads as a length header for the very length it was written with. */
  lemma LengthLine(n: nat)
    requires n <= USIZE_MAX
    ensures ClassifyHeader(LENGTH_PREFIX + Show(n) + "\r\n") == ContentLength(n)
  {
    var digits := Show(n);
    var text := LENGTH_PREFIX + digits;
    var p := |LENGTH_PREFIX|;
    assert !IsSpace(text[|text| - 1]) by { assert text[|text| - 1] == digits[|digits| - 1]; assert IsDigit(digits[|digits| - 1]); }
    TrimOfPaddedText(text, "\r\n");
    assert text[..p] == LENGTH_PREFIX && text[p..] == digits;
    ParseUnsignedShow(n, USIZE_MAX);
    ClassifyTrimmedMeaning(text);
  }

  /** One turn of the header loop on a complete line. */
  lemma ReadHeadersStep(line: seq<byte>, rest: seq<byte>, contentLength: Option<nat>)
    requires line != [] && line[|line| - 1] == LF
    requires forall i :: 0 <= i < |line| - 1 ==> line[i] != LF
    ensures ReadHeaders(line + rest, contentLength) ==
      match Kind(line)
      case Blank => ReadBody(rest, contentLength)
      case ContentLength(k) => ReadHeaders(rest, Some(k))
      case BadContentLength(e) => Read(Err(InvalidContentLength(e)), rest)
      case Ignored => ReadHeaders(rest, contentLength)
  {
    var s := line + rest;
    LineLengthOfLine(line, rest);
    assert s[..|line|] == line && s[|line|..] == rest;
  }

  /** The bytes of the first header line end in its only line feed. */
  lemma LengthLineBytes(n: nat)
    ensures IsAscii(LENGTH_PREFIX + Show(n) + "\r\n")
    ensures var l := Ascii(LENGTH_PREFIX + Show(n) + "\r\n");
      l != [] && l[|l| - 1] == LF && forall i :: 0 <= i < |l| - 1 ==> l[i] != LF
  {
    var text := LENGTH_PREFIX + Show(n);
    var first := text + "\r\n";
    LengthText(n);
    var l := Ascii(first);
    forall i | 0 <= i < |l| - 1 ensures l[i] != LF {
      if i < |text| { assert first[i] == text[i]; } else { assert first[i] == '\r'; }
    }
    assert first[|first| - 1] == '\n';
  }

  /** The bytes of `"\r\n"`. */
  lemma CrLfBytes()
    ensures Ascii("\r\n") == [13, 10]
  {
    assert Ascii("\r\n")[0] == 13 && Ascii("\r\n")[1] == 10;
  }

  /** The line that ends the header block. */
  lemma BlankLineKind()
    ensures Kind([13, 10]) == Blank
  {
    assert Latin([13, 10]) == "\r\n";
    TrimOfSpaces("\r\n");
  }

  /** A frame whose header is `first` and a blank line. */
  lemma FrameOf(body: seq<byte>, first: string)
    requires IsAscii(first) && Header(|body|) == first + "\r\n"
    ensures Frame(body) == Ascii(first) + [13, 10] + body
  {
    AsciiAppend(first, "\r\n");
    CrLfBytes();
  }

  /** A frame is its length line, the blank line and the body. */
  lemma FrameLines(body: seq<byte>)
    ensures IsAscii(LENGTH_PREFIX + Show(|body|) + "\r\n")
    ensures Frame(body) == Ascii(LENGTH_PREFIX + Show(|body|) + "\r\n") + [13, 10] + body
  {
    var first := LENGTH_PREFIX + Show(|body|) + "\r\n";
    LengthText(|body|);
    FrameOf(body, first);
  }

  /** A header that declares more than `isize::MAX` bytes is accepted by the `usize`
      parse, and then the buffer allocation panics: nothing after the header block is
      read. */
  lemma OversizeLength(n: nat, rest: seq<byte>)
    requires ISIZE_MAX < n <= USIZE_MAX
    ensures ReadFrame(Ascii(LENGTH_PREFIX + Show(n) + "\r\n") + [13, 10] + rest) == Read(Err(CapacityOverflow), rest)
  {
    var first := LENGTH_PREFIX + Show(n) + "\r\n";
    LengthLineBytes(n);
    var l1: seq<byte> := Ascii(first);
    assert Kind(l1) == ContentLength(n) by {
      LatinAscii(first);
      LengthLine(n);
    }
    BlankLineKind();
    var l2: seq<byte> := [13, 10];
    ReadHeadersStep(l1, l2 + rest, None);
    ReadHeadersStep(l2, rest, Some(n));
    assert l1 + l2 + rest == l1 + (l2 + rest);
  }

  /** Reading back a frame gives its body and leaves everything after it untouched. */
  lemma FrameRoundTrip(body: seq<byte>, rest: seq<byte>)
    requires |body| <= ISIZE_MAX
    ensures ReadFrame(Frame(body) + rest) == Read(Ok(Some(body)), rest)
  {
    var n := |body|;
    var first := LENGTH_PREFIX + Show(n) + "\r\n";
    LengthLineBytes(n);
    FrameLines(body);
    var l1: seq<byte> := Ascii(first);
    assert Kind(l1) == ContentLength(n) by {
      LatinAscii(first);
      LengthLine(n);
    }
    BlankLineKind();
    var l2: seq<byte> := [13, 10];
    var tail := body + rest;
    assert Frame(body) + rest == l1 + (l2 + tail);
    ReadHeadersStep(l1, l2 + tail, None);
    ReadHeadersStep(l2, tail, Some(n));
    assert tail[..n] == body && tail[n..] == rest;
  }

  /** What `send_message` writes for a sequence of bodies, one after the other. */
  function Frames(bodies: seq<seq<byte>>): seq<byte> {
    if bodies == [] then [] else Frame(bodies[0]) + Frames(bodies[1..])
  }

  /** Calling `read_message` until it yields no frame: the bodies read, in order. */
  function ReadFrames(s: seq<byte>): seq<seq<byte>>
    decreases |s|
  {
    if s == [] then []
    else
      match ReadFrame(s)
      case Read(Ok(Some(body)), rest) => [body] + ReadFrames(rest)
      case _ => []
  }

  /** A reader of what the writer wrote gets every body back, in order. */
  lemma {:induction false} FramesReadBack(bodies: seq<seq<byte>>)
    requires forall i :: 0 <= i < |bodies| ==> |bodies[i]| <= ISIZE_MAX
    ensures ReadFrames(Frames(bodies)) == bodies
    decreases |bodies|
  {
    if bodies != [] {
      FramesReadFirst(bodies[0], bodies[1..]);
      FramesReadBack(bodies[1..]);
      assert bodies == [bodies[0]] + bodies[1..];
    }
  }

  /** The first frame of a concatenation is read back first, then the others. */
  lemma FramesReadFirst(body: seq<byte>, others: seq<seq<byte>>)
    requires |body| <= ISIZE_MAX
    ensures ReadFrames(Frames([body] + others)) == [body] + ReadFrames(Frames(others))
  {
    var rest := Frames(others);
    var s := Frames([body] + others);
    assert ([body] + others)[1..] == others;
    assert s == Frame(body) + rest;
    FrameRoundTrip(body, rest);
    assert s != [] by { FrameLines(body); }
  }

  lemma FramesAppend(bodies: seq<seq<byte>>, body: seq<byte>)
    ensures Frames(bodies + [body]) == Frames(bodies) + Frame(body)
  {
    if bodies != [] {
      assert (bodies + [body])[1..] == bodies[1..] + [body];
      FramesAppend(bodies[1..], body);
    }
  }

  // A positional description of the header block, for comparison with the loop.

  /** The stream cut into the pieces successive `read_line` calls return. */
  function Lines(s: seq<byte>): (ls: seq<seq<byte>>)
    ensures Concat(ls) == s
    ensures forall i :: 0 <= i < |ls| ==> ls[i] != []
    decreases |s|
  {
    if s == [] then []
    else
      var n := LineLength(s);
      assert s == s[..n] + s[n..];
      [s[..n]] + Lines(s[n..])
  }

  function Concat(ls: seq<seq<byte>>): seq<byte> {
    if ls == [] then [] else ls[0] + Concat(ls[1..])
  }

  function Kind(line: seq<byte>): HeaderLine {
    ClassifyHeader(Latin(line))
  }

  /** The role of each line. */
  function Kinds(ls: seq<seq<byte>>): (ks: seq<HeaderLine>)
    ensures |ks| == |ls|
  {
    if ls == [] then [] else [Kind(ls[0])] + Kinds(ls[1..])
  }

  /** A line the loop does not go past: the blank line or a malformed length. */
  predicate Stops(k: HeaderLine) {
    k.Blank? || k.BadContentLength?
  }

  function FirstStop(ks: seq<HeaderLine>): (r: Option<nat>)
    ensures r.Some? ==> r.value < |ks| && Stops(ks[r.value]) && forall j :: 0 <= j < r.value ==> !Stops(ks[j])
    ensures r.None? ==> forall j :: 0 <= j < |ks| ==> !Stops(ks[j])
  {
    if ks == [] then None
    else if Stops(ks[0]) then Some(0)
    else match FirstStop(ks[1..]) case Some(k) => Some(k + 1) case None => None
  }

  /** The value of the last `Content-Length` among `ks`, or `initial` if none. */
  function LastLength(ks: seq<HeaderLine>, initial: Option<nat>): Option<nat> {
    if ks == [] then initial
    else if ks[|ks| - 1].ContentLength? then Some(ks[|ks| - 1].n)
    else LastLength(ks[..|ks| - 1], initial)
  }

  /** What reading a header block means, stated on its lines `ls` and their roles
      `ks`: with no blank line and no bad length the stream ends in `Ok(None)`; a bad
      length is an error; after the blank line, the last `Content-Length` before it
      decides the body. */
  function Meaning(ls: seq<seq<byte>>, ks: seq<HeaderLine>, initial: Option<nat>): Read<seq<byte>>
    requires |ks| == |ls|
  {
    match FirstStop(ks)
    case None => Read(Ok(None), [])
    case Some(k) =>
      var after := Concat(ls[k + 1..]);
      if ks[k].BadContentLength? then Read(Err(InvalidContentLength(ks[k].e)), after)
      else ReadBody(after, LastLength(ks[..k], initial))
  }

  function FrameMeaning(s: seq<byte>, initial: Option<nat>): Read<seq<byte>> {
    Meaning(Lines(s), Kinds(Lines(s)), initial)
  }

  lemma {:induction false} LastLengthCons(k: HeaderLine, ks: seq<HeaderLine>, initial: Option<nat>)
    ensures LastLength([k] + ks, initial) == LastLength(ks, if k.ContentLength? then Some(k.n) else initial)
    decreases |ks|
  {
    if ks != [] {
      assert ([k] + ks)[..|ks|] == [k] + ks[..|ks| - 1];
      LastLengthCons(k, ks[..|ks| - 1], initial);
    }
  }

  /** The header loop computes exactly that meaning. */
  lemma {:induction false} ReadHeadersMeaning(s: seq<byte>, initial: Option<nat>)
    ensures ReadHeaders(s, initial) == FrameMeaning(s, initial)
    decreases |s|
  {
    if s != [] {
      var n := LineLength(s);
      var l, s' := s[..n], s[n..];
      var ls' := Lines(s');
      assert Lines(s) == [l] + ls';
      assert Kinds([l] + ls') == [Kind(l)] + Kinds(ls');
      match Kind(l)
      case Blank =>
      case BadContentLength(e) =>
      case ContentLength(k) =>
        ReadHeadersMeaning(s', Some(k));
        MeaningAfterLine(l, ls', Kind(l), Kinds(ls'), initial);
      case Ignored =>
        ReadHeadersMeaning(s', initial);
        MeaningAfterLine(l, ls', Kind(l), Kinds(ls'), initial);
    }
  }

  /** A line the loop goes past only updates the length carried forward. */
  lemma MeaningAfterLine(l: seq<byte>, ls': seq<seq<byte>>, kl: HeaderLine, ks': seq<HeaderLine>, initial: Option<nat>)
    requires !Stops(kl) && |ks'| == |ls'|
    ensures Meaning([l] + ls', [kl] + ks', initial) == Meaning(ls', ks', if kl.ContentLength? then Some(kl.n) else initial)
  {
    var ls, ks := [l] + ls', [kl] + ks';
    assert ks[1..] == ks';
    match FirstStop(ks')
    case None =>
    case Some(k) =>
      assert FirstStop(ks) == Some(k + 1);
      assert ls[k + 2..] == ls'[k + 1..];
      assert ks[..k + 1] == [kl] + ks'[..k];
      LastLengthCons(kl, ks'[..k], initial);
  }
}
