/**
 One pass of the worker loop of `threadFunction` (`HttpBitmap/main.cpp`
 lines 112-137) as a pure function of what the peer sends: `read_until` waits
 for CRLF CRLF, `getline` takes the first line, a line starting with "GET" gets
 the response head and a 100 by 100 image, anything else is closed silently.
 The `catch` sits outside `while (true)`, so a failed read ends the worker;
 `RunWorker` models the loop over the connections one worker takes.
 */
module Worker {
  import opened Bytes
  import opened Text
  import opened Bmp
  import opened Http

  /** The image size the worker asks `generateBMPImage` for. */
  const WIDTH: int := 100
  const HEIGHT: int := 100

  const GET: seq<byte> := Ascii("GET")

  /** What happens to one connection. */
  datatype Outcome =
    | ReadFailed                    // `read_until` threw: the peer closed before CRLF CRLF
    | Closed                        // not a GET: closed with nothing written
    | Responded(output: seq<byte>)  // head and image written, then closed

  /** The bytes `read_until` is sure to have buffered when it returns: the
      input up to and including the first CRLF CRLF. `None` when the peer's
      bytes end before one arrives, which is when `read_until` throws. */
  function ReadRequest(input: seq<byte>): (r: Option<seq<byte>>)
    ensures r.None? <==> forall j: nat :: !OccursAt(input, BLANK_LINE, j)
    ensures r.Some? ==> r.value <= input && |r.value| >= 4
    ensures r.Some? ==> r.value[|r.value| - 4..] == BLANK_LINE
    ensures r.Some? ==> forall j: nat :: j + 4 < |r.value| ==> !OccursAt(input, BLANK_LINE, j)
  {
    match IndexOf(input, BLANK_LINE)
    case None => None
    case Some(k) => Some(input[..k + 4])
  }

  /** `std::getline` on the buffered request: the bytes before the first LF,
      or all of them when there is none. */
  function FirstLine(buf: seq<byte>): (line: seq<byte>)
    ensures line <= buf
    ensures forall i :: 0 <= i < |line| ==> line[i] != LF
    ensures |line| < |buf| ==> buf[|line|] == LF
  {
    match IndexOf(buf, [LF])
    case None =>
      assert forall i :: 0 <= i < |buf| ==> buf[i] != LF by {
        forall i | 0 <= i < |buf|
          ensures buf[i] != LF
        {
          assert !OccursAt(buf, [LF], i);
          assert buf[i..i + 1] == [buf[i]];
        }
      }
      buf
    case Some(k) =>
      assert buf[k..k + 1] == [LF];
      forall i | 0 <= i < k
        ensures buf[i] != LF
      {
        assert !OccursAt(buf, [LF], i);
        assert buf[i..i + 1] == [buf[i]];
      }
      buf[..k]
  }

  /** `std::string::substr(pos, count)` for a position inside the string: the
      bytes from `pos`, at most `count` of them. */
  function Substr(s: seq<byte>, pos: nat, count: nat): (r: seq<byte>)
    requires pos <= |s|
    ensures |r| == if pos + count <= |s| then count else |s| - pos
    ensures r == s[pos..pos + |r|]
  {
    if pos + count <= |s| then s[pos..pos + count] else s[pos..]
  }

  /** The worker's test `request.substr(0, 3) == "GET"`. */
  predicate IsImageRequest(line: seq<byte>) {
    Substr(line, 0, 3) == GET
  }

  /** What the worker writes for a GET: the head, whose `Content-Length` is
      computed as `sizeof(BMPHeader) + width * height * 3`, then the image. */
  function ImageResponse(color: Color): (r: seq<byte>)
    ensures var image := Encode(WIDTH, HEIGHT, color);
      && ParseResponse(r) == Some(Response(STATUS_LINE, ResponseFields(|image|), image))
      && ContentLength(Response(STATUS_LINE, ResponseFields(|image|), image)) == Some(|image|)
  {
    var image := Encode(WIDTH, HEIGHT, color);
    ResponseHeadReadBack(|image|, image);
    ResponseHead(HEADER_SIZE + WIDTH * HEIGHT * 3) + image
  }

  /** One connection: the peer's bytes up to its close, and the colour the
      random source yields if an image is generated. */
  function HandleConnection(input: seq<byte>, color: Color): (r: Outcome)
    ensures r.ReadFailed? <==> forall j: nat :: !OccursAt(input, BLANK_LINE, j)
    ensures r.Responded? <==> !r.ReadFailed? && IsImageRequest(FirstLine(input))
    ensures r.Responded? ==> r.output == ImageResponse(color)
  {
    match ReadRequest(input)
    case None => ReadFailed
    case Some(buf) =>
      FirstLineInBuffer(input, buf);
      Serve(buf, color)
  }

  /** What the worker does with a buffered request: answer a GET with the head
      and the image, close anything else without writing. */
  function Serve(buf: seq<byte>, color: Color): (r: Outcome)
    ensures !r.ReadFailed?
    ensures r.Responded? <==> |FirstLine(buf)| >= 3 && FirstLine(buf)[..3] == GET
    ensures r.Responded? ==> r.output == ImageResponse(color)
  {
    if IsImageRequest(FirstLine(buf)) then Responded(ImageResponse(color)) else Closed
  }

  /** The first line of the input ends inside the buffered request, so reading
      more than the request cannot change it. */
  lemma FirstLineInBuffer(input: seq<byte>, buf: seq<byte>)
    requires buf <= input && |buf| >= 4 && buf[|buf| - 4..] == BLANK_LINE
    ensures FirstLine(buf) == FirstLine(input)
  {
    var i := |buf| - 3;
    assert buf[i] == buf[|buf| - 4..][1] == LF;
    assert buf[i..i + 1] == [LF];
    assert OccursAt(buf, [LF], i);
    IndexOfAppend(buf, input[|buf|..], [LF]);
    assert buf + input[|buf|..] == input;
  }

  // ------------------------------------------------------------ properties

  /** The test on the first line: at least three bytes, the first three "GET".
      Shorter lines never match; longer words such as "GETX" do. */
  lemma ImageRequestIff(line: seq<byte>)
    ensures IsImageRequest(line) <==> |line| >= 3 && line[..3] == GET
  {
  }

  /** The byte count the worker announces is the length of the image it writes,
      and a reader of the response finds the head, a `Content-Length` equal to
      the number of bytes after the empty line, and a 100 by 100 image of the
      colour in those bytes. */
  lemma ResponseFraming(color: Color)
    ensures var image := Encode(WIDTH, HEIGHT, color);
      && |image| == HEADER_SIZE + WIDTH * HEIGHT * 3 == 30054
      && ParseResponse(ImageResponse(color))
         == Some(Response(STATUS_LINE, ResponseFields(|image|), image))
      && ContentLength(Response(STATUS_LINE, ResponseFields(|image|), image)) == Some(|image|)
      && Decode(image) == Some(Bitmap(WIDTH, HEIGHT, seq(WIDTH * HEIGHT, _ => color)))
  {
    var image := Encode(WIDTH, HEIGHT, color);
    ResponseHeadReadBack(|image|, image);
    DecodeEncode(WIDTH, HEIGHT, color);
  }

  /** Bytes the peer sends after the request's CRLF CRLF never change the outcome. */
  lemma TrailingBytesIgnored(input: seq<byte>, more: seq<byte>, color: Color)
    requires ReadRequest(input).Some?
    ensures HandleConnection(input + more, color) == HandleConnection(input, color)
  {
    IndexOfAppend(input, more, BLANK_LINE);
    var k := IndexOf(input, BLANK_LINE).value;
    assert (input + more)[..k + 4] == input[..k + 4];
    assert ReadRequest(input + more) == ReadRequest(input);
  }

  // -------------------------------------------------------- the worker loop

  /** A connection as a worker takes it from the queue. */
  datatype Session = Session(input: seq<byte>, color: Color)

  /** The peer closes before sending CRLF CRLF. */
  predicate ReadFails(s: Session) {
    ReadRequest(s.input).None?
  }

  /** The outcomes of the connections a worker handled, in order, and whether
      the worker has stopped. */
  datatype WorkerRun = WorkerRun(handled: seq<Outcome>, stopped: bool)

  /** The outcome each connection would have, taken in queue order. */
  function Outcomes(sessions: seq<Session>): (os: seq<Outcome>)
    ensures |os| == |sessions|
    ensures forall i :: 0 <= i < |sessions| ==> os[i] == HandleConnection(sessions[i].input, sessions[i].color)
  {
    seq(|sessions|, i requires 0 <= i < |sessions| => HandleConnection(sessions[i].input, sessions[i].color))
  }

  /** The `while (true)` loop of one worker over the outcomes of the connections
      it dequeues. A failed read escapes to the `catch` outside the loop and
      ends the worker, so nothing after that connection is handled. */
  function RunLoop(os: seq<Outcome>): (r: WorkerRun)
    decreases |os|
    ensures r.handled <= os
    ensures r.stopped <==> exists i :: 0 <= i < |os| && os[i].ReadFailed?
    ensures !r.stopped ==> r.handled == os
    ensures r.stopped ==> |r.handled| > 0 && r.handled[|r.handled| - 1].ReadFailed?
    ensures forall i :: 0 <= i < |r.handled| - 1 ==> !r.handled[i].ReadFailed?
  {
    if |os| == 0 then WorkerRun([], false)
    else if os[0].ReadFailed? then WorkerRun([os[0]], true)
    else
      var rest := RunLoop(os[1..]);
      WorkerRun([os[0]] + rest.handled, rest.stopped)
  }

  /** One worker serving the connections it takes from the queue, in order. */
  function RunWorker(sessions: seq<Session>): WorkerRun {
    RunLoop(Outcomes(sessions))
  }

  /** A worker stops exactly when one of its connections closes before sending
      CRLF CRLF. */
  lemma WorkerStopsIff(sessions: seq<Session>)
    ensures RunWorker(sessions).stopped <==> exists i :: 0 <= i < |sessions| && ReadFails(sessions[i])
  {
    var os := Outcomes(sessions);
    forall i | 0 <= i < |sessions|
      ensures os[i].ReadFailed? <==> ReadFails(sessions[i])
    {
      FailedOutcomeIff(sessions[i]);
    }
  }

  /** A stopped worker has handled the connections up to the first one that
      closed before CRLF CRLF, and that one last: every earlier connection read
      its request in full. */
  lemma WorkerStopsAtFirstFailedRead(sessions: seq<Session>)
    requires RunWorker(sessions).stopped
    ensures var n := |RunWorker(sessions).handled|;
      && 0 < n <= |sessions|
      && ReadFails(sessions[n - 1])
      && forall i :: 0 <= i < n - 1 ==> !ReadFails(sessions[i])
  {
    var os := Outcomes(sessions);
    var n := |RunLoop(os).handled|;
    assert os[n - 1].ReadFailed?;
    FailedOutcomeIff(sessions[n - 1]);
    forall i | 0 <= i < n - 1
      ensures !ReadFails(sessions[i])
    {
      assert !os[i].ReadFailed?;
      FailedOutcomeIff(sessions[i]);
    }
  }

  lemma FailedOutcomeIff(s: Session)
    ensures HandleConnection(s.input, s.color).ReadFailed? <==> ReadFails(s)
  {
  }

  /** Once a worker has stopped, connections queued after it make no difference:
      it never handles them. */
  lemma {:induction false} StoppedWorkerHandlesNothingMore(os: seq<Outcome>, later: seq<Outcome>)
    requires RunLoop(os).stopped
    ensures RunLoop(os + later) == RunLoop(os)
    decreases |os|
  {
    if !os[0].ReadFailed? {
      assert (os + later)[1..] == os[1..] + later;
      StoppedWorkerHandlesNothingMore(os[1..], later);
    }
  }

  /** While every peer sends a complete request, the worker keeps going and
      answers each GET with the head and an image of that connection's colour. */
  lemma CompleteRequestsAllHandled(sessions: seq<Session>)
    requires forall i :: 0 <= i < |sessions| ==> !ReadFails(sessions[i])
    ensures var r := RunWorker(sessions);
      && !r.stopped && |r.handled| == |sessions|
      && forall i :: 0 <= i < |sessions| ==>
           (r.handled[i].Responded? <==> IsImageRequest(FirstLine(sessions[i].input)))
           && (r.handled[i].Responded? ==> r.handled[i].output == ImageResponse(sessions[i].color))
  {
    WorkerStopsIff(sessions);
  }
}
