# A verified model of a small Java HTTP/1.1 file server

This project models the protocol core of a small static-file web server
written in Java, in Dafny. The server works like this:

- **Parsing.** It reads a request line and header lines from a socket (`HttpRequest.parseRequest`) and decides whether the connection stays open (the `HttpRequest` constructor).
- **Answering.** It maps the request target to a file under its web root (`preparePath`, `initResponse`) and answers it (`sendResponse`):
  - 404 when the file is missing;
  - 200 with the file for GET;
  - 200 without a body for HEAD;
  - 501 for any other method.
- **Writing.** `HttpResponse` writes header lines through a `PrintWriter`, flushes them, and then writes body bytes.
- **Connection loop.** `HttpConnection.run` repeats parse-and-answer while the client asks for keep-alive. It then closes the streams and the socket (`close`).

The modules follow the program:

| module | models |
|---|---|
| `Text` | the `String` operations the server relies on: `trim`, `toLowerCase`, `split` with a limit, `startsWith`, `endsWith`, `contains("..")`, decimal rendering, `getBytes` |
| `Headers` | how a header line is split and trimmed, the header `HashMap` filled line by line, and the keep-alive rule |
| `Paths` | `new File(root, path)`: path names, the file key under the web root, `getName()`, and the web root itself as a map from file key to bytes |
| `Response` | `getContentType`, the 200/404/501 header blocks, and the `HttpResponse` class |
| `Dispatch` | `preparePath` and the choice of reply in `sendResponse` |
| `Request` | `parseRequest` (a specification function plus the imperative loop), and the `HttpRequest` class with its constructor, `initResponse` and `sendResponse` |
| `Connection` | `HttpConnection`: the `run` loop and `close` |

Modelling choices:

- **Response output.** A response's output is a sequence of chunks: a text line that reached the socket, or a block of body bytes. `HttpResponse.pending` is the `PrintWriter` buffer and `wire` is what reached the socket.
- **Clock.** The clock is a `date` string parameter.
- **File system.** The file system is a map from normalised relative path to file contents.
- **Socket input.** The socket's input is a sequence of arrivals: the lines of one request, a read that timed out, or a read that failed. The end of that sequence is the end of the stream.
- **Close failures.** A close call that throws is modelled by a set of close steps that throw whenever they are attempted.
- **Bytes of a string.** `getBytes()` is UTF-8, the default charset since Java 18 and the charset the 404 and 501 replies declare. A character beyond U+FFFF is one `char` in the model; it counts as two units in `String.length()` (`Text.JavaLength`) and takes four bytes.
- **Opening a file.** The operating system skips "." names when it walks a path, so `Paths.Segments` drops them and `Paths.FileKey` is the walked names joined by "/". A path whose last name is "." or that has no name at all (the web root itself) is not a regular file and cannot be opened as one.

The model keeps the server's quirks as written:

- The 404 response always declares `Content-Length: 100`. `Response.NotFoundReadBack` proves that this matches the body only for a file name of exactly 71 bytes.
- The 501 response declares the message's `String.length()`, which counts UTF-16 units, while its body is the message's bytes. `Response.NotImplementedReadBack` proves that the two agree exactly when the method name is ASCII.
- The MIME type for `.class` and `.jar` is spelled `applicaton/octet-stream`.
- The 404 block writes `Date` after `Connection`.
- For a repeated header, the last line wins.
- A missing file is answered 404 before the method is looked at, so an unknown method on a missing file gets 404 and not 501.

The same request class exists twice in the repository:

- `src/main/java/com/adobe/http/request/HttpRequest.java`
- `src/com/adobe/http/request/HttpRequest.java`

Both copies have the same logic, so they are modelled once. The table cites the first copy. The matching spans in the older copy are:

- the constructor, lines 36-49;
- `initResponse`, lines 54-70;
- `preparePath`, lines 72-79;
- `parseRequest`, lines 81-115, with its header loop at lines 100-112;
- `sendResponse`, lines 118-139.

## Model

| member | source | states |
|---|---|---|
| Text.Lower | src/main/java/com/adobe/http/request/HttpRequest.java:117 | `toLowerCase` keeps the length, lowers each ASCII capital, and leaves no capital letter |
| Text.TrimShape | src/main/java/com/adobe/http/request/HttpRequest.java:122 | `trim` never lengthens a string; it empties exactly the strings made only of characters at or below U+0020; a non-empty result starts and ends with a visible character |
| Text.TrimFixes | src/main/java/com/adobe/http/request/HttpRequest.java:130 | a trimmed name or value is trimmed; `trim` changes a string exactly when the string has a space-like character at one end |
| Text.TrimExact | src/main/java/com/adobe/http/request/HttpRequest.java:130 | `trim` removes exactly a blank prefix and a blank suffix around a visible core |
| Text.SplitFirst | src/main/java/com/adobe/http/request/HttpRequest.java:124 | `split(":", 2)` has two parts exactly when the separator occurs; the parts rejoin to the line, and the first part holds no separator |
| Text.SplitFirstAt | src/main/java/com/adobe/http/request/HttpRequest.java:124 | splitting at the first separator gives back the text before it and the text after it |
| Text.SplitRequestLine | src/main/java/com/adobe/http/request/HttpRequest.java:109 | `split(" ", 3)` gives one to three pieces that rejoin with spaces to the line; no piece but the last holds a space; with fewer than three pieces, the last holds none either |
| Text.SplitRequestLineSpaces | src/main/java/com/adobe/http/request/HttpRequest.java:109-110 | the request line yields three pieces exactly when it holds at least two spaces |
| Text.SplitRequestLineOf | src/main/java/com/adobe/http/request/HttpRequest.java:109-117 | a space-free method and target, followed by the rest of the line, split back into exactly those three pieces |
| Text.NatToString | src/com/adobe/http/response/HttpResponse.java:80 | a length is written as a non-empty string of decimal digits |
| Text.DecimalRoundTrip | src/com/adobe/http/response/HttpResponse.java:146 | reading the written Content-Length back gives the number written |
| Text.EncodeAppend | src/com/adobe/http/response/HttpResponse.java:152 | `getBytes` of a concatenation is the bytes of the parts, one after the other |
| Text.JavaLengthAppend | src/com/adobe/http/response/HttpResponse.java:145 | `String.length()` of a concatenation is the sum of the parts' lengths |
| Text.EncodeSize | src/com/adobe/http/response/HttpResponse.java:145-152 | a string has at least as many UTF-8 bytes as UTF-16 units, and exactly as many precisely when it is ASCII |
| Text.EncodeBetween | src/com/adobe/http/response/HttpResponse.java:144-152 | text between two ASCII texts adds the ASCII texts' lengths to its byte count and to its UTF-16 length |
| Text.EncodeAscii | src/com/adobe/http/response/HttpResponse.java:152 | an ASCII string encodes to one byte per character, equal to the character's code |
| Headers.FieldRoundTrip | src/com/adobe/http/response/HttpResponse.java:72-81 | a header line written as name, colon, space, value is a non-blank field line that reads back under its name; a trimmed value reads back unchanged |
| Headers.BlockLength | src/main/java/com/adobe/http/request/HttpRequest.java:122 | the header block is the lines before the first blank or whitespace-only line, or all lines when none is blank |
| Headers.BlockLengthIs | src/main/java/com/adobe/http/request/HttpRequest.java:122 | the first blank line, or the end of the stream, is exactly where the block stops |
| Headers.HeaderMapAppend | src/main/java/com/adobe/http/request/HttpRequest.java:130 | reading one more field line puts its trimmed name and value into the map, replacing any earlier value |
| Headers.PutAllKeys | src/main/java/com/adobe/http/request/HttpRequest.java:121-133 | a name is a key of the header map exactly when some header line carries it |
| Headers.PutAllLastWins | src/main/java/com/adobe/http/request/HttpRequest.java:130 | the value of a name is the value of the last line that carries it |
| Paths.Segments | src/main/java/com/adobe/http/request/HttpRequest.java:68 | the names the operating system walks when `new File(root, url)` is opened: non-empty, free of separators, and never "." |
| Paths.Names | src/main/java/com/adobe/http/request/HttpRequest.java:68 | `java.io.File` sees the path as its non-empty pieces between separators, each a single name |
| Paths.NamesCover | src/main/java/com/adobe/http/request/HttpRequest.java:68 | the names, written one after the other, are exactly the path's characters other than separators, in order |
| Paths.NamesSplit | src/main/java/com/adobe/http/request/HttpRequest.java:68 | a separator splits the names: the names before it, then the names after it |
| Paths.NamesJoin | src/main/java/com/adobe/http/request/HttpRequest.java:68 | names joined by single separators read back as exactly those names |
| Paths.SegmentsSplit | src/main/java/com/adobe/http/request/HttpRequest.java:68 | a separator splits the walked names the same way |
| Paths.CurrentDirIgnored | src/main/java/com/adobe/http/request/HttpRequest.java:68 | a "." between two parts of a path does not change the file it reaches |
| Paths.FileKeyNormal | src/main/java/com/adobe/http/request/HttpRequest.java:68 | the key under the web root is normalised: resolving it again walks the same names |
| Paths.FileNameWalked | src/com/adobe/http/response/HttpResponse.java:67 | for a path that ends in a file name, `getName()` is the last name walked, so the type is taken from the file that is opened |
| Paths.NamesWithin | src/main/java/com/adobe/http/request/HttpRequest.java:86 | a name of the path holding ".." can only come from a path holding ".." |
| Paths.NoParentSegment | src/main/java/com/adobe/http/request/HttpRequest.java:86-91 | a path free of ".." has no name "..", so it cannot climb out of the web root |
| Paths.PlainName | src/main/java/com/adobe/server/WebServer.java:29 | a plain file name other than ".", with or without a leading separator, resolves to itself as walked names, key and `getName()` |
| Response.ContentType | src/com/adobe/http/response/HttpResponse.java:47-59 | `getContentType` answers one of text/html, image/gif, image/jpeg, applicaton/octet-stream, text/plain |
| Response.ExtensionOf | src/com/adobe/http/response/HttpResponse.java:47-59 | a name ends with a dot-suffix only when that suffix is its last extension, so no name matches two table entries |
| Response.ContentTypeListed | src/com/adobe/http/response/HttpResponse.java:47-56 | a name ending in .htm/.html, .gif, .jpg/.jpeg or .class/.jar gets that entry's type, case-sensitively, whatever the order of the tests |
| Response.ContentTypeDefault | src/com/adobe/http/response/HttpResponse.java:56-58 | a name with none of the listed suffixes is served as text/plain |
| Response.ContentTypeTrimmed | src/com/adobe/http/response/HttpResponse.java:47-59 | every MIME type getContentType answers has no surrounding blanks, so it reads back unchanged from its header line |
| Response.BlockFramed | src/com/adobe/http/response/HttpResponse.java:81 | every header block is ended by its blank line, and its field lines read back one for one as the fields written |
| Response.ReadBackField | src/com/adobe/http/response/HttpResponse.java:72-81 | a written field reads back with its value when no later field has the same name |
| Response.ReadBackAbsent | src/com/adobe/http/response/HttpResponse.java:76-78 | a name no field carries is absent when the block is read back |
| Response.ConnectionReadBack | src/com/adobe/http/response/HttpResponse.java:76-78 | `Connection: close` is present exactly when the connection is not kept alive, and reading the block back gives the same keep-alive decision |
| Response.LengthReadBack | src/com/adobe/http/response/HttpResponse.java:80 | the last field, Content-Length, reads back as the number written |
| Response.OkHeaderLines | src/com/adobe/http/response/HttpResponse.java:72-81 | the 200 block is, in order: status, Server, Date, Allow, Connection: close only without keep-alive, Content-Type, Content-Length, blank line |
| Response.OkBlockReadBack | src/com/adobe/http/response/HttpResponse.java:66-85 | the 200 block is framed; Content-Length is the file length; Connection says close exactly without keep-alive; Allow is "GET, HEAD"; the content type reads back as written |
| Response.NotImplementedHeaderLines | src/com/adobe/http/response/HttpResponse.java:134-147 | the 501 block is status, Server, Date, Allow, optional Connection, Content-Type text/html;charset=UTF-8, Content-Length of the message, blank line |
| Response.NotImplementedSizes | src/com/adobe/http/response/HttpResponse.java:144-152 | the 501 message is 37 UTF-16 units and 37 bytes longer than the method |
| Response.NotImplementedReadBack | src/com/adobe/http/response/HttpResponse.java:129-156 | the 501 reply is framed, typed UTF-8 HTML, with Connection: close exactly without keep-alive; its body is 37 bytes plus the method's bytes; its Content-Length is the message's UTF-16 length, which equals the body size exactly when the method is ASCII |
| Response.NotFoundHeaderLines | src/com/adobe/http/response/HttpResponse.java:169-182 | the 404 block is status, Server, Allow, optional Connection, then Date, Content-Type, Content-Length: 100, blank line |
| Response.NotFoundLengthText | src/com/adobe/http/response/HttpResponse.java:181 | the 404 block writes the literal length 100 |
| Response.NotFoundSize | src/com/adobe/http/response/HttpResponse.java:180-187 | the 404 message is 29 bytes longer than the file name |
| Response.NotFoundReadBack | src/com/adobe/http/response/HttpResponse.java:165-191 | the 404 reply is framed, typed UTF-8 HTML, with Connection: close exactly without keep-alive; its body is 29 bytes plus the file name's bytes; it declares length 100 whatever the body, which matches exactly when the name takes 71 bytes (71 characters for an ASCII name) |
| Response.HeadersBeforeBody | src/com/adobe/http/response/HttpResponse.java:81-82 | every header line reaches the socket before any body byte; the text lines on the socket are exactly the header block |
| Response.HttpResponse.SendHeaders | src/com/adobe/http/response/HttpResponse.java:66-85 | appends exactly the 200 block for the file to the socket, flushed, and records the file's content type |
| Response.HttpResponse.SendFileBody | src/com/adobe/http/response/HttpResponse.java:94-120 | appends the file's whole contents as one write, or nothing when the file cannot be opened |
| Response.HttpResponse.SendBody | src/com/adobe/http/response/HttpResponse.java:198-207 | appends exactly the given bytes, in order, and changes nothing else |
| Response.HttpResponse.SendNotImplementedMethod | src/com/adobe/http/response/HttpResponse.java:129-156 | appends the 501 block, flushed, then the message naming the method as the body |
| Response.HttpResponse.FileNotFound | src/com/adobe/http/response/HttpResponse.java:165-191 | appends the 404 block, flushed, then the message naming the file as the body |
| Dispatch.PreparePath | src/main/java/com/adobe/http/request/HttpRequest.java:85-92 | "/" and any target holding ".." become index.html; every other target is kept unchanged, since the separator replacement is discarded; the result never holds ".." |
| Dispatch.PreparedPathStaysInRoot | src/main/java/com/adobe/http/request/HttpRequest.java:65-68 | the prepared path names no parent directory, so the file it opens lies under the web root |
| Dispatch.DefaultFileResolves | src/main/java/com/adobe/server/WebServer.java:29 | "/" resolves to index.html, the same file as "/index.html" and "index.html" |
| Dispatch.DispatchOutcome | src/main/java/com/adobe/http/request/HttpRequest.java:143-169 | a missing file gets 404 whatever the method; an existing one gets 200 for GET and HEAD and 501 otherwise; only HEAD of an existing file has no body |
| Dispatch.MissingFileIgnoresMethod | src/main/java/com/adobe/http/request/HttpRequest.java:62-78 | for a missing file the reply does not depend on the method, and its body names the prepared path |
| Dispatch.GetServesFile | src/main/java/com/adobe/http/request/HttpRequest.java:150-154 | GET of an existing file sends exactly its bytes, announced with their number and the type its name calls for |
| Dispatch.HeadOmitsBody | src/main/java/com/adobe/http/request/HttpRequest.java:155-157 | HEAD sends the same header block as GET and no body |
| Dispatch.TraversalServesDefault | src/main/java/com/adobe/http/request/HttpRequest.java:86-88 | a target holding ".." is answered exactly as "/" |
| Dispatch.ReplyConnection | src/main/java/com/adobe/http/request/HttpRequest.java:143-169 | every reply is framed, and carries Connection: close exactly when the connection is not kept alive |
| Request.ParseRequest | src/main/java/com/adobe/http/request/HttpRequest.java:100-136 | parseRequest computes Parse: the request line is checked first, then the header lines are read |
| Request.ReadHeaders | src/main/java/com/adobe/http/request/HttpRequest.java:121-133 | the header loop builds the map of the block's field lines, or fails when a line of the block has no colon |
| Request.ParseAccepts | src/main/java/com/adobe/http/request/HttpRequest.java:104-136 | a request line of method, target and an HTTP/ protocol, followed by field lines up to a blank line, parses to that method verbatim, the lower-cased target and the map of the fields; nothing after the blank line is read |
| Request.ReadBlockOf | src/main/java/com/adobe/http/request/HttpRequest.java:121-122 | field lines followed by a blank line or the end of the stream read as exactly the map of those lines |
| Request.ParseFailures | src/main/java/com/adobe/http/request/HttpRequest.java:104-113 | the parse fails as a missing request line exactly when there is none; as a short line exactly when the line has fewer than two spaces; as not HTTP exactly when the third piece does not start with HTTP/ |
| Request.MalformedHeaderFails | src/main/java/com/adobe/http/request/HttpRequest.java:124-128 | a non-blank line without a colon, before any blank line, fails the whole parse |
| Request.ParsedHeaders | src/main/java/com/adobe/http/request/HttpRequest.java:121-133 | in a parsed request, a name is a header exactly when some header line carries it; its value is that of the last such line |
| Request.HttpRequest.constructor | src/main/java/com/adobe/http/request/HttpRequest.java:42-55 | the connection is kept alive unless header Connection is exactly "close" |
| Request.HttpRequest.InitResponse | src/main/java/com/adobe/http/request/HttpRequest.java:62-78 | the url becomes the prepared path; the file is resolved under the web root; the result says whether it can be opened |
| Request.HttpRequest.SendResponse | src/main/java/com/adobe/http/request/HttpRequest.java:143-169 | the url becomes the prepared path and the file is set to it; the response appends exactly the reply ResponseFor chooses for the method, the original target and the keep-alive flag, flushed; a served GET or HEAD records the file's content type and leaves the body field alone, while 404 and 501 store their message bytes as the body |
| Connection.ServeInOrder | src/com/adobe/connection/HttpConnection.java:51-65 | requests are answered strictly in arrival order with none skipped; the i-th answered request is the i-th arrival, which parsed |
| Connection.ServeKeepAlive | src/com/adobe/connection/HttpConnection.java:56-64 | every answered request but the last asked for keep-alive; the loop completes exactly when the last answered one did not |
| Connection.ServeStopsAtClose | src/com/adobe/connection/HttpConnection.java:60-64 | no more requests are answered than the position of the first request without keep-alive, plus one |
| Connection.ServeFailure | src/com/adobe/connection/HttpConnection.java:69-81 | a loop that does not complete stops at the first arrival it cannot answer, without a reply for it; a timeout, an IOException and an unchecked exception give the matching ending; so does the end of the stream |
| Connection.Planned | src/com/adobe/connection/HttpConnection.java:89-110 | close() closes input, then output first and the socket last; the request reader is among them exactly when there is a request, the response streams exactly when there is a response |
| Connection.PlannedOrder | src/com/adobe/connection/HttpConnection.java:89-110 | the plan has three, four or five steps as request and response exist, each close call at most once and in close()'s order |
| Connection.AttemptedPrefix | src/com/adobe/connection/HttpConnection.java:89-115 | in the single try block, the attempted closes are the plan up to and including the first one that throws; all of it when none does |
| Connection.CleanupAll | src/com/adobe/connection/HttpConnection.java:89-110 | with no failing stream close, every planned close is made, in order |
| Connection.CleanupClosesSocket | src/com/adobe/connection/HttpConnection.java:89-115 | the socket is closed exactly when neither stream close throws; request and response closes swallow their own errors |
| Connection.CleanupAlwaysRuns | src/com/adobe/connection/HttpConnection.java:77-80 | however the loop ended, close() runs and starts with the input stream; with no failing stream close it ends with the socket, and run() ends as the loop did |
| Connection.HttpConnection.constructor | src/com/adobe/connection/HttpConnection.java:26-43 | the socket read timeout is 5000 ms |
| Connection.HttpConnection.Run | src/com/adobe/connection/HttpConnection.java:45-82 | run() sends exactly the replies to the requests Serve answers, in order; it makes exactly the close calls of its try block, then those of close(); it ends as the loop ended, or with an IOException when a try-block close throws |
| Connection.HttpConnection.Converse | src/com/adobe/connection/HttpConnection.java:51-65 | the loop answers exactly the requests Serve answers and ends as Serve ends; the request and response fields are set exactly when a request was answered |
| Connection.HttpConnection.Respond | src/com/adobe/connection/HttpConnection.java:54-59 | one turn: a fresh request with the method, the prepared target and the keep-alive decision of its headers, and a fresh response with that same flag; the response carries exactly that request's reply, flushed, which is appended to what was sent; no close is made |
| Connection.HttpConnection.Close | src/com/adobe/connection/HttpConnection.java:87-116 | close() makes exactly the attempted closes of its plan, in order, and changes nothing else |

## Left out

- **Requests and responses**
  - Request and response close: `HttpRequest.close` and `HttpResponse.close` are modelled only as the close steps `RequestReader` and `ResponseStreams` of the connection. Their own errors are swallowed, as in the source.
  - Stream setup: the streams are assumed to be obtained. A failure of `socket.getInputStream()` or `getOutputStream()` is not modelled.
  - Paths: `path == null` in `preparePath` cannot happen after a successful parse, so it has no branch.
- **Line reading**
  - Line splitting: `BufferedReader` splits lines on CR, LF or CRLF. The model takes each request's lines as given.
  - Reader read-ahead: `parseRequest` makes a new reader on every call, and that reader may read ahead past the request. The model hands each call exactly the lines of one request.
- **Characters and bytes**
  - Case mapping: `toLowerCase` is modelled for the ASCII letters only. Other characters are left unchanged.
  - Encoding: `getBytes` is modelled as UTF-8. Other platform default charsets (those of Java before 18) are not modelled.
  - Line endings: `println` line separators are not modelled. A printed line is one `Line` chunk.
- **Files**
  - File reads: reads are complete. A short `read` is not modelled, and neither is the `int` cast that truncates `file.length()` for files over 2 GB.
  - Directories and permissions: the web root holds only readable regular files, and the model keys them by normalised relative path. A directory, or a file that cannot be read, is simply absent from the map.
  - Paths.FileKey: symbolic links are not resolved. A key names the file reached by the path's walked names, not the target of a link on the way.
- **Swallowed errors**
  - Write errors: a failing `PrintWriter` only sets its error flag, and the `IOException` of a body write is logged and dropped (src/com/adobe/http/response/HttpResponse.java:109-110 and 204-206). The model has no failing write: every header line and body reaches the socket.
  - Socket timeout: a `SocketException` from `setSoTimeout` in the `HttpConnection` constructor is logged and dropped (src/com/adobe/connection/HttpConnection.java:39-41), and the connection goes on without its timeout. The model always sets the 5000 ms timeout.
- **Clock and logging**
  - Clock: one date string stands for every `new Date()` during a run.
  - Logging: the `log4j` logging calls and `MyLogger` are not modelled.
- **Process and threads**
  - Shared reader: `HttpRequest` keeps its reader in a static field that every connection shares. Connections are modelled one at a time, so that sharing is not modelled.
  - Web server: `WebServer` is not part of this model: its accept loop, thread pool, port probing, default-content files and `main`. Only its constant `DEFAULT_FILE` is kept.
  - Exceptions: the exception classes are collapsed into outcomes. A timeout is `Timeout`, other `IOException`s are `IoError`, and the null dereference or index error of a missing or short request line is `OtherFailure`.
  - Close faults: a close step in the fault set throws every time it is attempted. This includes the second close of a stream already closed at the end of the try block.
