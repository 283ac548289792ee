/**
 The response head the worker writes before the image (`HttpBitmap/main.cpp`
 lines 123-128), and a reader for it in the style of section 4 of RFC 9112: a
 status line and field lines, each ended by CRLF, then an empty line, then
 the body. The reader is the partner of the writer: it recovers the status
 line, the fields and the body, and reads the decimal `Content-Length`
 (section 8.6 of RFC 9110) back out of the head.
 */
module Http {
  import opened Bytes
  import opened Text

  /** A header field: name and value, written as `name: value`. */
  datatype Field = Field(name: seq<byte>, value: seq<byte>)

  /** A response as a reader sees it. */
  datatype Response = Response(status: seq<byte>, fields: seq<Field>, body: seq<byte>)

  const STATUS_LINE: seq<byte> := Ascii("HTTP/1.1 200 OK")
  const FIELD_SEP: seq<byte> := Ascii(": ")
  const SERVER: seq<byte> := Ascii("Server")
  const SERVER_NAME: seq<byte> := Ascii("MySuperServer")
  const CONTENT_TYPE: seq<byte> := Ascii("Content-Type")
  const IMAGE_BMP: seq<byte> := Ascii("image/bmp")
  const CONTENT_LENGTH: seq<byte> := Ascii("Content-Length")
  const CONNECTION: seq<byte> := Ascii("Connection")
  const CLOSE: seq<byte> := Ascii("close")

  // The string literals the worker streams into `response_stream`.
  const OUT_STATUS: seq<byte> := Ascii("HTTP/1.1 200 OK\r\n")
  const OUT_SERVER: seq<byte> := Ascii("Server: MySuperServer\r\n")
  const OUT_CONTENT_TYPE: seq<byte> := Ascii("Content-Type: image/bmp\r\n")
  const OUT_CONTENT_LENGTH: seq<byte> := Ascii("Content-Length: ")
  const OUT_LINE_END: seq<byte> := Ascii("\r\n")
  const OUT_CONNECTION: seq<byte> := Ascii("Connection: close\r\n\r\n")

  /** The head exactly as the worker streams it into `response_stream`, one
      statement per term, with the `Content-Length` value written in decimal.
      It is the status line and the Server, Content-Type, Content-Length and
      Connection fields laid out as a head. */
  function ResponseHead(contentLength: nat): (r: seq<byte>)
    ensures r == Head(STATUS_LINE, ResponseFields(contentLength))
  {
    StatusPiece();
    ServerPiece();
    ContentTypePiece();
    ContentLengthPiece(contentLength);
    ConnectionPiece();
    HeadOfFour(STATUS_LINE, ResponseFields(contentLength));
    OUT_STATUS + OUT_SERVER + OUT_CONTENT_TYPE
    + (OUT_CONTENT_LENGTH + Decimal(contentLength) + OUT_LINE_END)
    + OUT_CONNECTION
  }

  /** The fields of the worker's response head, in the order written. */
  function ResponseFields(contentLength: nat): seq<Field> {
    [ Field(SERVER, SERVER_NAME),
      Field(CONTENT_TYPE, IMAGE_BMP),
      Field(CONTENT_LENGTH, Decimal(contentLength)),
      Field(CONNECTION, CLOSE) ]
  }

  // ------------------------------------------------------ structure of a head

  function FieldLine(f: Field): seq<byte> {
    f.name + FIELD_SEP + f.value
  }

  function FieldLines(fs: seq<Field>): (ls: seq<seq<byte>>)
    ensures |ls| == |fs|
    ensures forall i :: 0 <= i < |fs| ==> ls[i] == FieldLine(fs[i])
  {
    seq(|fs|, i requires 0 <= i < |fs| => FieldLine(fs[i]))
  }

  /** A head in the layout of section 4 of RFC 9112: the status line and the
      field lines separated by CRLF, then CRLF and the empty line. */
  function Head(status: seq<byte>, fs: seq<Field>): seq<byte> {
    JoinLines([status] + FieldLines(fs)) + BLANK_LINE
  }

  /** A head with four fields, cut after each CRLF. */
  lemma HeadOfFour(status: seq<byte>, fs: seq<Field>)
    requires |fs| == 4
    ensures Head(status, fs)
      == (status + CRLF) + (FieldLine(fs[0]) + CRLF) + (FieldLine(fs[1]) + CRLF)
         + (FieldLine(fs[2]) + CRLF) + (FieldLine(fs[3]) + BLANK_LINE)
  {
    var ls := [status] + FieldLines(fs);
    var j4 := JoinLines(ls[4..]);
    var j3 := JoinLines(ls[3..]);
    var j2 := JoinLines(ls[2..]);
    var j1 := JoinLines(ls[1..]);
    assert j4 == ls[4];
    assert j3 == ls[3] + CRLF + j4;
    assert j2 == ls[2] + CRLF + j3;
    assert j1 == ls[1] + CRLF + j2;
    assert JoinLines(ls) == ls[0] + CRLF + j1;
    assert BLANK_LINE == CRLF + CRLF;
  }

  // The streamed literals, cut at field and line boundaries.

  lemma StatusPiece()
    ensures OUT_STATUS == STATUS_LINE + CRLF
  {
  }

  lemma ServerPiece()
    ensures OUT_SERVER == FieldLine(Field(SERVER, SERVER_NAME)) + CRLF
  {
  }

  lemma ContentTypePiece()
    ensures OUT_CONTENT_TYPE == FieldLine(Field(CONTENT_TYPE, IMAGE_BMP)) + CRLF
  {
  }

  lemma ContentLengthPiece(contentLength: nat)
    ensures OUT_CONTENT_LENGTH + Decimal(contentLength) + OUT_LINE_END
         == FieldLine(Field(CONTENT_LENGTH, Decimal(contentLength))) + CRLF
  {
    assert OUT_CONTENT_LENGTH == CONTENT_LENGTH + FIELD_SEP;
    assert OUT_LINE_END == CRLF;
  }

  lemma ConnectionPiece()
    ensures OUT_CONNECTION == FieldLine(Field(CONNECTION, CLOSE)) + BLANK_LINE
  {
  }

  // ------------------------------------------------------------ the reader

  /** A field line split at its first ": ". */
  function ParseField(line: seq<byte>): Option<Field> {
    match IndexOf(line, FIELD_SEP)
    case None => None
    case Some(k) => Some(Field(line[..k], line[k + 2..]))
  }

  function ParseFields(lines: seq<seq<byte>>): (r: Option<seq<Field>>)
    ensures r.Some? ==> |r.value| == |lines|
  {
    if |lines| == 0 then Some([])
    else match (ParseField(lines[0]), ParseFields(lines[1..]))
      case (Some(f), Some(fs)) => Some([f] + fs)
      case _ => None
  }

  /** A response read back: the head runs to the first empty line, its first
      line is the status line, the rest are fields, and the body follows. */
  function ParseResponse(out: seq<byte>): Option<Response> {
    match IndexOf(out, BLANK_LINE)
    case None => None
    case Some(k) =>
      var lines := SplitLines(out[..k]);
      match ParseFields(lines[1..])
      case None => None
      case Some(fs) => Some(Response(lines[0], fs, out[k + 4..]))
  }

  /** The value of the first field called `name`. */
  function Lookup(fs: seq<Field>, name: seq<byte>): Option<seq<byte>> {
    if |fs| == 0 then None
    else if fs[0].name == name then Some(fs[0].value)
    else Lookup(fs[1..], name)
  }

  /** The body length a reader takes from the `Content-Length` field. */
  function ContentLength(r: Response): Option<nat> {
    match Lookup(r.fields, CONTENT_LENGTH)
    case None => None
    case Some(v) => ParseDecimal(v)
  }

  // ---------------------------------------------------- writer and reader agree

  /** A field whose name has no ':' and no line break, and whose value has no
      line break: the field line is a text line the reader splits correctly. */
  predicate WellFormedField(f: Field) {
    && |f.name| > 0
    && TextLine(f.name) && TextLine(f.value)
    && forall i :: 0 <= i < |f.name| ==> f.name[i] != ':' as int
  }

  lemma ParseFieldLine(f: Field)
    requires WellFormedField(f)
    ensures ParseField(FieldLine(f)) == Some(f)
  {
    var line := FieldLine(f);
    var k := |f.name|;
    assert line[k..k + 2] == FIELD_SEP;
    forall j: nat | j < k
      ensures !OccursAt(line, FIELD_SEP, j)
    {
      assert line[j] == f.name[j];
    }
    IndexOfIsFirst(line, FIELD_SEP, k);
    assert line[..k] == f.name && line[k + 2..] == f.value;
  }

  lemma {:induction false} ParseFieldLines(fs: seq<Field>)
    requires forall i :: 0 <= i < |fs| ==> WellFormedField(fs[i])
    ensures ParseFields(FieldLines(fs)) == Some(fs)
    decreases |fs|
  {
    if |fs| > 0 {
      ParseFieldLine(fs[0]);
      ParseFieldLines(fs[1..]);
      assert FieldLines(fs)[1..] == FieldLines(fs[1..]);
      assert [fs[0]] + fs[1..] == fs;
    }
  }

  lemma FieldLineIsText(f: Field)
    requires WellFormedField(f)
    ensures TextLine(FieldLine(f)) && |FieldLine(f)| > 0
  {
  }

  /** The lines start with the first line. */
  lemma JoinLinesPrefix(ls: seq<seq<byte>>)
    requires |ls| > 0
    ensures |JoinLines(ls)| >= |ls[0]| && JoinLines(ls)[..|ls[0]|] == ls[0]
  {
  }

  /** In non-empty text lines joined by CRLF there is no empty line: no CRLF
      CRLF starts before the end of the last line, whatever follows it. */
  lemma {:induction false} NoBlankInLines(ls: seq<seq<byte>>, tail: seq<byte>, j: nat)
    requires |ls| > 0
    requires forall i :: 0 <= i < |ls| ==> TextLine(ls[i]) && |ls[i]| > 0
    requires j < |JoinLines(ls)|
    ensures !OccursAt(JoinLines(ls) + tail, BLANK_LINE, j)
    decreases |ls|
  {
    var s := JoinLines(ls) + tail;
    if j + 4 <= |s| {
      BlankLineAt(s, j);
      var l0 := ls[0];
      if |ls| == 1 {
        assert s[j] == l0[j];
      } else {
        var rest := JoinLines(ls[1..]);
        assert s == (l0 + CRLF) + (rest + tail);
        if j < |l0| {
          assert s[j] == l0[j];
        } else if j == |l0| {
          JoinLinesPrefix(ls[1..]);
          assert s[j + 2] == rest[0] == ls[1][0];
        } else if j == |l0| + 1 {
          assert s[j] == LF;
        } else {
          OccursShift(l0 + CRLF, rest + tail, BLANK_LINE, j - |l0| - 2);
          NoBlankInLines(ls[1..], tail, j - |l0| - 2);
        }
      }
    }
  }

  lemma BlankLineAt(s: seq<byte>, j: nat)
    requires j + 4 <= |s|
    ensures OccursAt(s, BLANK_LINE, j) <==> s[j] == CR && s[j + 1] == LF && s[j + 2] == CR && s[j + 3] == LF
  {
    if s[j] == CR && s[j + 1] == LF && s[j + 2] == CR && s[j + 3] == LF {
      assert s[j..j + 4] == BLANK_LINE;
    }
  }

  lemma ResponseFieldsWellFormed(contentLength: nat)
    ensures forall i :: 0 <= i < 4 ==> WellFormedField(ResponseFields(contentLength)[i])
  {
    ServerFieldWellFormed();
    ContentTypeFieldWellFormed();
    ConnectionFieldWellFormed();
  }

  lemma ServerFieldWellFormed()
    ensures WellFormedField(Field(SERVER, SERVER_NAME))
  {
  }

  lemma ContentTypeFieldWellFormed()
    ensures WellFormedField(Field(CONTENT_TYPE, IMAGE_BMP))
  {
  }

  lemma ConnectionFieldWellFormed()
    ensures WellFormedField(Field(CONNECTION, CLOSE))
  {
  }

  lemma StatusLineIsText()
    ensures |STATUS_LINE| > 0 && TextLine(STATUS_LINE)
  {
  }

  /** Reading a well-formed head followed by a body gives back the status line,
      the fields and the body. */
  lemma ParseHead(status: seq<byte>, fs: seq<Field>, body: seq<byte>)
    requires |status| > 0 && TextLine(status)
    requires forall i :: 0 <= i < |fs| ==> WellFormedField(fs[i])
    ensures ParseResponse(Head(status, fs) + body) == Some(Response(status, fs, body))
  {
    var ls := [status] + FieldLines(fs);
    forall i | 0 <= i < |ls|
      ensures TextLine(ls[i]) && |ls[i]| > 0
    {
      if i > 0 {
        FieldLineIsText(fs[i - 1]);
      }
    }
    var joined := JoinLines(ls);
    var out := Head(status, fs) + body;
    assert out == joined + (BLANK_LINE + body);
    assert out[|joined|..|joined| + 4] == BLANK_LINE;
    forall j: nat | j < |joined|
      ensures !OccursAt(out, BLANK_LINE, j)
    {
      NoBlankInLines(ls, BLANK_LINE + body, j);
    }
    IndexOfIsFirst(out, BLANK_LINE, |joined|);
    assert out[..|joined|] == joined;
    assert out[|joined| + 4..] == body;
    SplitJoin(ls);
    assert ls[1..] == FieldLines(fs);
    ParseFieldLines(fs);
  }

  /** The worker's head is read back as its status line and its four fields, the
      bytes after the empty line are the body, and the `Content-Length` the reader
      finds is the number written. */
  lemma ResponseHeadReadBack(contentLength: nat, body: seq<byte>)
    ensures ParseResponse(ResponseHead(contentLength) + body)
         == Some(Response(STATUS_LINE, ResponseFields(contentLength), body))
    ensures ContentLength(Response(STATUS_LINE, ResponseFields(contentLength), body))
         == Some(contentLength)
  {
    var fs := ResponseFields(contentLength);
    ResponseFieldsWellFormed(contentLength);
    StatusLineIsText();
    ParseHead(STATUS_LINE, fs, body);
    assert |fs[0].name| != |CONTENT_LENGTH| && |fs[1].name| != |CONTENT_LENGTH|;
    assert fs[2..][0] == fs[2];
    assert Lookup(fs, CONTENT_LENGTH) == Lookup(fs[1..], CONTENT_LENGTH);
    assert Lookup(fs[1..], CONTENT_LENGTH) == Lookup(fs[1..][1..], CONTENT_LENGTH);
    assert fs[1..][1..] == fs[2..];
    assert Lookup(fs, CONTENT_LENGTH) == Some(Decimal(contentLength));
    ParseDecimalRoundTrip(contentLength);
  }
}
