# HttpBitmap in Dafny

HttpBitmap is a small TCP server. A worker thread takes an accepted
connection from a shared queue and reads until the blank line that ends an
HTTP request head. If the first request line starts with `GET`, it answers
with a fixed response head and a 100 by 100 single-colour 24-bit bitmap.
Otherwise it closes the connection without writing anything.

This project models the sequential core of `HttpBitmap/main.cpp`:

- `bytes.dfy` (`Bytes`): the byte type, and the little-endian `uint16_t` and
  `uint32_t` fields of the packed header, with their read-back.
- `bmp.dfy` (`Bmp`): the packed 54-byte `BMPHeader` (a 14-byte file header
  followed by the 40-byte info header) and `generateBMPImage`. `Encode` is
  the image as a pure function of width, height and colour. `GenerateImage`,
  `FillPixels` and `FillRow` follow the program's nested fill loop and are
  proved to build the same bytes. `Decode` reads the layout back. The last
  part of the file states what a reader following the Windows bitmap format
  makes of the program's layout.
- `text.dfy` (`Text`): ASCII text as bytes, substring search, CRLF-separated
  lines, and the decimal numerals that `std::ostream` writes.
- `http.dfy` (`Http`): the response head the worker streams. Its partner is a
  reader in the style of section 4 of RFC 9112, which recovers the status
  line, the fields and the body. The reader also reads `Content-Length`
  (section 8.6 of RFC 9110) back as a number.
- `worker.dfy` (`Worker`): one pass of the worker loop, as a pure function
  of the bytes the peer sends before it closes. There are three outcomes:
  the read fails, the connection is closed silently, or the head and the
  image are written. The loop of one worker runs over the connections it
  dequeues.

Notes on what the code does:

- Pixels are stored R, G, B (`main.cpp:79-81`). The Windows bitmap format
  stores them B, G, R.
- Rows are not padded (`main.cpp:76-83`). The Windows bitmap format pads each
  row to a multiple of four bytes.
- A failed read ends the worker for good. The `catch` at `main.cpp:140-143`
  is outside `while (true)`, so the worker never takes another connection.
- The header fields are written little-endian. This is the byte order of the
  host the packed struct is copied from.

## Model

| member | source | states |
|---|---|---|
| Bytes.U16RoundTrip | HttpBitmap/main.cpp:25-27 | a `uint16_t` field written little-endian reads back as the value written |
| Bytes.U32RoundTrip | HttpBitmap/main.cpp:25-28 | a `uint32_t` field written little-endian reads back as the value written |
| Bytes.LE32OfU32 | HttpBitmap/main.cpp:25-28 | four bytes read as a `uint32_t` and written again are the same four bytes |
| Bmp.SerializeHeader | HttpBitmap/main.cpp:25-43 | the packed header occupies exactly 54 bytes |
| Bmp.ParseSerialize | HttpBitmap/main.cpp:25-43 | parsing the serialized header at the packed offsets gives back every one of the 15 fields |
| Bmp.SerializeParse | HttpBitmap/main.cpp:25-43 | every 54-byte string is the serialization of the header parsed from it, so the layout is a bijection |
| Bmp.MakeHeader | HttpBitmap/main.cpp:55-70 | every field fits its `uint16_t` or `uint32_t`, width and height are the ones asked for, and fileSize is dataOffset (54) + imageSize; `EncodedHeaderFields` and `HeaderSizesAgree` give every stored value |
| Bmp.Encode | HttpBitmap/main.cpp:54-92 | the image is 54 + width*height*3 bytes, starts with "BM", and every byte after the header is the colour channel for its position |
| Bmp.EncodedHeaderFields | HttpBitmap/main.cpp:56-70 | reading the encoded header gives signature 0x4D42, fileSize equal to the buffer length, the offset 54, the info header size 40, the width, the height, 1 plane, 24 bits per pixel, imageSize width*height*3, and zero for all other fields |
| Bmp.HeaderSizesAgree | HttpBitmap/main.cpp:57-66 | fileSize equals dataOffset + imageSize, and imageSize equals width*height*3 |
| Bmp.EncodedPixel | HttpBitmap/main.cpp:76-87 | pixel i holds the colour's R, G and B bytes at offsets 54+3i, 54+3i+1 and 54+3i+2 |
| Bmp.PixelsAt | HttpBitmap/main.cpp:78-81 | in the pixel block, pixel i starts at byte 3i and holds R, G, B |
| Bmp.GenerateImage | HttpBitmap/main.cpp:54-92 | filling the buffer and copying the header in front of it builds the same bytes as `Encode` |
| Bmp.FillPixels | HttpBitmap/main.cpp:72-83 | the nested loop over rows and columns leaves the pixel block with the colour at every pixel |
| Bmp.FillRow | HttpBitmap/main.cpp:77-82 | the inner loop colours one row and leaves earlier pixels coloured |
| Bmp.DecodeEncode | HttpBitmap/main.cpp:54-92 | a reader of the program's layout recovers the width, the height and width*height pixels, all of the colour |
| Bmp.UnpaddedRowsIff | HttpBitmap/main.cpp:76-87 | the unpadded row of 3*width bytes equals the format's padded row stride exactly when width is a multiple of 4 |
| Bmp.StandardReaderSwapsRedAndBlue | HttpBitmap/main.cpp:79-81 | when width is a multiple of 4, a reader following the bitmap format finds every pixel, and sees the colour with red and blue exchanged |
| Bmp.PaddedRowsOverrun | HttpBitmap/main.cpp:76-87 | when width is not a multiple of 4, the padded rows the format prescribes run past the end of the buffer |
| Text.ParseDecimalRoundTrip | HttpBitmap/main.cpp:127 | the decimal numeral written for a number parses back to that number |
| Text.DecimalRoundTrip | HttpBitmap/main.cpp:127 | every canonical numeral is the one written for the number it denotes |
| Text.SplitJoin | HttpBitmap/main.cpp:124-128 | cutting CRLF-joined text lines at CRLF gives back the lines |
| Text.JoinSplit | HttpBitmap/main.cpp:124-128 | joining the pieces of a text cut at CRLF gives back the text |
| Http.ResponseHead | HttpBitmap/main.cpp:123-128 | the five streamed literals with the decimal length are the status line and the Server, Content-Type, Content-Length and Connection fields, CRLF-separated, then the empty line; `ResponseHeadReadBack` reads it back |
| Http.ParseHead | HttpBitmap/main.cpp:123-132 | any head with a text status line and well-formed fields, followed by a body, reads back as that status line, those fields and that body |
| Http.ResponseHeadReadBack | HttpBitmap/main.cpp:123-132 | the worker's head followed by any body reads back as its status line, its four fields and the body, and its Content-Length reads as the number written |
| Worker.ReadRequest | HttpBitmap/main.cpp:112-113 | the read fails exactly when the input holds no CRLF CRLF; otherwise the buffered request is the input up to and including the first one |
| Worker.FirstLine | HttpBitmap/main.cpp:114-116 | the line is a prefix of the buffer with no LF, and ends just before the buffer's first LF when there is one |
| Worker.ImageRequestIff | HttpBitmap/main.cpp:118 | a line is an image request exactly when it has at least 3 bytes and starts with "GET" |
| Worker.Serve | HttpBitmap/main.cpp:116-137 | a complete request is answered exactly when its first line has at least 3 bytes and starts with "GET", and the answer is the head followed by the image; anything else is closed with nothing written |
| Worker.ImageResponse | HttpBitmap/main.cpp:119-132 | the bytes written for a GET read back as the worker's status line and four fields with the image as the body, and the Content-Length read back is the image length; `ResponseFraming` adds the 30054-byte size and the decoded image |
| Worker.HandleConnection | HttpBitmap/main.cpp:112-137 | a connection fails exactly when CRLF CRLF never arrives; otherwise it is answered exactly when its first line starts with GET, and the answer is the head followed by the image |
| Worker.ResponseFraming | HttpBitmap/main.cpp:119-132 | the image is 30054 bytes, the response reads back as the head and the image, the Content-Length is the image length, and the image decodes as 100 by 100 pixels of the colour |
| Worker.TrailingBytesIgnored | HttpBitmap/main.cpp:112-116 | bytes the peer sends after the request's CRLF CRLF do not change the outcome |
| Worker.RunLoop | HttpBitmap/main.cpp:96-143 | the worker handles a prefix of its connections; it stops exactly when one read fails, and that connection is the last it handles |
| Worker.WorkerStopsIff | HttpBitmap/main.cpp:96-143 | a worker stops exactly when one of its peers closes before sending CRLF CRLF |
| Worker.WorkerStopsAtFirstFailedRead | HttpBitmap/main.cpp:96-143 | a stopped worker's last connection is the first one whose read failed, and every earlier one read a full request |
| Worker.StoppedWorkerHandlesNothingMore | HttpBitmap/main.cpp:140-143 | connections queued after a worker stops are never handled by it |
| Worker.CompleteRequestsAllHandled | HttpBitmap/main.cpp:98-137 | while every peer sends a complete request, the worker handles all of them and answers each GET with the head and an image of that connection's colour |

## Left out

- Threads, the mutex, the one-second polling and the global `clientDataList`
  (`main.cpp:21-23`, `98-110`, `146`, `159-162`). The model takes the
  connections one worker dequeues as a sequence. The acceptor's `insert` at
  `main.cpp:173` runs without holding the mutex, which is a data race. A
  sequential model cannot represent it.
- Boost.Asio sockets and the acceptor loop (`main.cpp:153-174`). A
  connection is the bytes the peer sends before it closes, and the output is
  the bytes written.
- `read_until` may buffer bytes past the terminator. The model keeps the
  input up to the terminator. `Worker.TrailingBytesIgnored` shows that the
  extra bytes cannot change the outcome.
- A failing `write` or `close` would also escape to the `catch` and end the
  worker. The model treats writes as succeeding.
- `getRandomColor` (`main.cpp:45-52`) depends on the clock and `rand()`. The
  colour is a parameter with each channel in 0..255, which is the range
  `rand() % 256` yields. So the truncation to `uint8_t` at lines 79-81
  changes nothing.
- Peers that neither finish their request nor close. `read_until` at
  `main.cpp:113` has no timeout, so such a peer blocks the worker forever.
  A connection is modelled as the finite bytes a peer sends before it
  closes, so the model only covers peers that eventually close or send
  CRLF CRLF. `Worker.WorkerStopsIff` and `Worker.CompleteRequestsAllHandled`
  say nothing about a peer that never does either.
- The host byte order. The `memcpy` at `main.cpp:86` copies the packed struct
  in the host's byte order. `LE16` and `LE32` fix little-endian, so the model
  assumes a little-endian host, as on x86.
- `new[]`, `delete[]`, `setlocale` (`main.cpp:150`) and the console logging
  (`main.cpp:142`, `169`, `178`).
- Bmp.Encode: it requires width and height to be non-negative and
  54 + width*height*3 to stay below 2^31 (`ImageFits`). It does not model
  `int` overflow in `width * height * 3`. The worker's 100 by 100 image is
  well inside this bound.
- The pool of four workers: each worker is modelled on its own, and the
  interleaving of the four is not modelled.
