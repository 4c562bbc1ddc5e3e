/**
  HttpResponse: the MIME table, the three header blocks (200, 404, 501) and the
  writer object that prints header lines through a buffered PrintWriter, flushes
  them, and then writes body bytes to the same connection.
 */
module Response {

  import opened Wrappers
  import opened Text
  import opened Headers
  import opened Paths

  /** What reaches the connection, in order: a text line printed and flushed
      through the PrintWriter, or a block of bytes written through the
      BufferedOutputStream. */
  datatype Chunk = Line(text: string) | Data(bytes: seq<byte>)

  /** One complete response: its header block and the body, when one is written. */
  datatype Reply = Reply(header: seq<string>, body: Option<seq<byte>>)

  const Protocol: string := "HTTP/1.1"
  const StatusOk: string := "200 OK"
  const StatusNotFound: string := "404 Not Found"
  const StatusNotImplemented: string := "501 Not Implemented"
  const ServerName: string := "Java HTTP Server 1.1"
  const Allowed: string := "GET, HEAD"
  const HtmlUtf8: string := "text/html;charset=UTF-8"
  /** Spelled as the server spells it. */
  const OctetStream: string := "applicaton/octet-stream"
  /** The Content-Length the 404 response always announces. */
  const NotFoundLength: nat := 100

  /** getContentType: the MIME type for a file name, by case-sensitive suffix. */
  function ContentType(name: string): (r: string)
    ensures r in {"text/html", "image/gif", "image/jpeg", OctetStream, "text/plain"}
  {
    if EndsWith(name, ".htm") || EndsWith(name, ".html") then "text/html"
    else if EndsWith(name, ".gif") then "image/gif"
    else if EndsWith(name, ".jpg") || EndsWith(name, ".jpeg") then "image/jpeg"
    else if EndsWith(name, ".class") || EndsWith(name, ".jar") then OctetStream
    else "text/plain"
  }

  /** Every MIME type the server sends is written without surrounding blanks,
      so it reads back unchanged from a Content-Type line. */
  lemma ContentTypeTrimmed(name: string)
    ensures Trimmed(ContentType(name))
  {
    assert Trimmed("text/html") && Trimmed("image/gif") && Trimmed("image/jpeg");
    assert Trimmed(OctetStream) && Trimmed("text/plain");
  }

  /** The same table as data: suffix and MIME type. */
  const MimeTable: seq<(string, string)> := [
    (".htm", "text/html"), (".html", "text/html"), (".gif", "image/gif"),
    (".jpg", "image/jpeg"), (".jpeg", "image/jpeg"),
    (".class", OctetStream), (".jar", OctetStream)
  ]

  /** A dot followed by an extension that holds no further dot. */
  predicate DotSuffix(s: string) {
    |s| >= 1 && s[0] == '.' && forall i :: 1 <= i < |s| ==> s[i] != '.'
  }

  /** The text from the last dot of a name to its end, or "" when the name has no dot. */
  function Extension(name: string): string {
    if name == [] then []
    else if name[|name| - 1] == '.' then "."
    else
      var e := Extension(name[..|name| - 1]);
      if e == [] then [] else e + [name[|name| - 1]]
  }

  /** A name ends with a dot-suffix only when that suffix is its extension, so no
      name ends with two different ones. */
  lemma {:induction false} ExtensionOf(name: string, a: string)
    requires DotSuffix(a) && EndsWith(name, a)
    ensures Extension(name) == a
    decreases |a|
  {
    if |a| > 1 {
      var init := name[..|name| - 1];
      var b := a[..|a| - 1];
      assert init[|init| - |b|..] == b;
      ExtensionOf(init, b);
      assert a == b + [name[|name| - 1]];
    }
  }

  /** getContentType agrees with the table: a name with a listed extension gets
      that entry's type, whichever entry it is, so the order of the tests does
      not matter. */
  lemma ContentTypeListed(name: string, i: nat)
    requires i < |MimeTable| && EndsWith(name, MimeTable[i].0)
    ensures ContentType(name) == MimeTable[i].1
  {
    ExtensionOf(name, MimeTable[i].0);
    var e := Extension(name);
    assert EndsWith(name, ".htm") ==> e == ".htm" by { if EndsWith(name, ".htm") { ExtensionOf(name, ".htm"); } }
    assert EndsWith(name, ".html") ==> e == ".html" by { if EndsWith(name, ".html") { ExtensionOf(name, ".html"); } }
    assert EndsWith(name, ".gif") ==> e == ".gif" by { if EndsWith(name, ".gif") { ExtensionOf(name, ".gif"); } }
    assert EndsWith(name, ".jpg") ==> e == ".jpg" by { if EndsWith(name, ".jpg") { ExtensionOf(name, ".jpg"); } }
    assert EndsWith(name, ".jpeg") ==> e == ".jpeg" by { if EndsWith(name, ".jpeg") { ExtensionOf(name, ".jpeg"); } }
    assert EndsWith(name, ".class") ==> e == ".class" by { if EndsWith(name, ".class") { ExtensionOf(name, ".class"); } }
    assert EndsWith(name, ".jar") ==> e == ".jar" by { if EndsWith(name, ".jar") { ExtensionOf(name, ".jar"); } }
  }

  /** A name with none of the listed extensions is served as text/plain. */
  lemma ContentTypeDefault(name: string)
    requires forall i :: 0 <= i < |MimeTable| ==> !EndsWith(name, MimeTable[i].0)
    ensures ContentType(name) == "text/plain"
  {
    assert MimeTable[0].0 == ".htm" && MimeTable[1].0 == ".html" && MimeTable[2].0 == ".gif";
    assert MimeTable[3].0 == ".jpg" && MimeTable[4].0 == ".jpeg";
    assert MimeTable[5].0 == ".class" && MimeTable[6].0 == ".jar";
  }

  function StatusLine(status: string): string {
    Protocol + " " + status
  }

  /** Header fields written one per line. */
  function Render(fields: seq<(string, string)>): (lines: seq<string>)
    ensures |lines| == |fields|
    ensures forall i :: 0 <= i < |fields| ==> lines[i] == Field(fields[i].0, fields[i].1)
  {
    seq(|fields|, i requires 0 <= i < |fields| => Field(fields[i].0, fields[i].1))
  }

  /** A header block: the status line, the fields, and the blank line that ends it. */
  function Block(status: string, fields: seq<(string, string)>): seq<string> {
    [StatusLine(status)] + Render(fields) + [""]
  }

  function ConnectionField(keepAlive: bool): seq<(string, string)> {
    if keepAlive then [] else [("Connection", ConnectionClose)]
  }

  /** The fields of sendHeaders. */
  function OkFields(contentType: string, length: nat, date: string, keepAlive: bool): seq<(string, string)> {
    [("Server", ServerName), ("Date", date), ("Allow", Allowed)]
    + ConnectionField(keepAlive)
    + [("Content-Type", contentType), ("Content-Length", NatToString(length))]
  }

  function NotImplementedMessage(verb: string): string {
    "<H2>501 Method " + verb + " not implemented.</H2>"
  }

  /** The fields of sendNotImplementedMethod. */
  function NotImplementedFields(verb: string, date: string, keepAlive: bool): seq<(string, string)> {
    [("Server", ServerName), ("Date", date), ("Allow", Allowed)]
    + ConnectionField(keepAlive)
    + [("Content-Type", HtmlUtf8), ("Content-Length", NatToString(JavaLength(NotImplementedMessage(verb))))]
  }

  function NotFoundMessage(file: string): string {
    "<H2>404 File Not Found: " + file + "</H2>"
  }

  /** The fields of fileNotFound, in its own order (Date after Connection). */
  function NotFoundFields(date: string, keepAlive: bool): seq<(string, string)> {
    [("Server", ServerName), ("Allow", Allowed)]
    + ConnectionField(keepAlive)
    + [("Date", date), ("Content-Type", HtmlUtf8), ("Content-Length", NatToString(NotFoundLength))]
  }

  /** File.length(): the size of the file, or 0 when there is none. */
  function FileLength(webRoot: WebRoot, file: string): nat {
    if Exists(webRoot, file) then |Contents(webRoot, file)| else 0
  }

  /** The header block sendHeaders writes for a file. */
  function OkHeader(webRoot: WebRoot, file: string, date: string, keepAlive: bool): seq<string> {
    Block(StatusOk, OkFields(ContentType(FileName(file)), FileLength(webRoot, file), date, keepAlive))
  }

  function NotImplementedReply(verb: string, date: string, keepAlive: bool): Reply {
    Reply(Block(StatusNotImplemented, NotImplementedFields(verb, date, keepAlive)),
          Some(Encode(NotImplementedMessage(verb))))
  }

  function NotFoundReply(file: string, date: string, keepAlive: bool): Reply {
    Reply(Block(StatusNotFound, NotFoundFields(date, keepAlive)), Some(Encode(NotFoundMessage(file))))
  }

  function Lines(ls: seq<string>): (w: seq<Chunk>)
    ensures |w| == |ls|
    ensures forall i :: 0 <= i < |ls| ==> w[i] == Line(ls[i])
  {
    seq(|ls|, i requires 0 <= i < |ls| => Line(ls[i]))
  }

  /** What a reply puts on the connection: its header lines, then its body. */
  function Wire(r: Reply): seq<Chunk> {
    Lines(r.header) + (if r.body.Some? then [Data(r.body.value)] else [])
  }

  /** Every header line of a reply reaches the connection before any body byte,
      and the text lines on the connection are exactly the header block. */
  lemma HeadersBeforeBody(r: Reply)
    ensures forall i, j :: 0 <= i < |Wire(r)| && 0 <= j < |Wire(r)| && Wire(r)[i].Data? && Wire(r)[j].Line? ==> j < i
    ensures forall i :: 0 <= i < |r.header| ==> Wire(r)[i] == Line(r.header[i])
    ensures |Wire(r)| == |r.header| + (if r.body.Some? then 1 else 0)
  {
  }

  /** A header block as a client reads it back: status line, then field lines up
      to the first blank line, and nothing after that blank line. */
  predicate Framed(h: seq<string>) {
    && |h| >= 2
    && h[|h| - 1] == ""
    && BlockLength(h[1..]) == |h| - 2
    && AllFields(h[1..|h| - 1])
  }

  function FieldsOf(h: seq<string>): map<string, string>
    requires Framed(h)
  {
    HeaderMap(h[1..|h| - 1])
  }

  /** The Content-Length a client reads from a framed header block. */
  function DeclaredLength(h: seq<string>): Option<nat>
    requires Framed(h)
  {
    match Get(FieldsOf(h), "Content-Length")
    case Some(v) => if v != [] && AllDigits(v) then Some(DecimalValue(v)) else None
    case None => None
  }

  predicate CleanNames(fields: seq<(string, string)>) {
    forall i :: 0 <= i < |fields| ==> CleanName(fields[i].0)
  }

  /** A rendered block with clean names is framed by its blank line, and its
      field lines are those of the fields, one for one. */
  lemma {:induction false} BlockFramed(status: string, fields: seq<(string, string)>)
    requires CleanNames(fields)
    ensures Framed(Block(status, fields))
    ensures forall i :: 0 <= i < |fields| ==>
      Pairs(Block(status, fields)[1..|fields| + 1])[i] == (fields[i].0, FieldValue(Field(fields[i].0, fields[i].1)))
  {
    var h := Block(status, fields);
    var lines := Render(fields);
    assert h[1..|h| - 1] == lines;
    assert h[1..] == lines + [""];
    forall i | 0 <= i < |fields|
      ensures IsField(lines[i]) && !IsBlank(lines[i]) && FieldName(lines[i]) == fields[i].0
    {
      FieldRoundTrip(fields[i].0, fields[i].1);
    }
    assert IsBlank(h[1..][|fields|]) by {
      TrimShape("");
    }
  }

  /** A field with a trimmed value reads back under its name when no later
      field carries the same name. */
  lemma ReadBackField(status: string, fields: seq<(string, string)>, i: nat)
    requires CleanNames(fields) && i < |fields|
    requires forall j :: i < j < |fields| ==> fields[j].0 != fields[i].0
    requires Trimmed(fields[i].1)
    ensures Framed(Block(status, fields))
    ensures Get(FieldsOf(Block(status, fields)), fields[i].0) == Some(fields[i].1)
  {
    BlockFramed(status, fields);
    var h := Block(status, fields);
    var pairs := Pairs(h[1..|h| - 1]);
    FieldRoundTrip(fields[i].0, fields[i].1);
    PutAllLastWins(pairs, i);
  }

  /** A name no field carries is absent from what a client reads back. */
  lemma ReadBackAbsent(status: string, fields: seq<(string, string)>, name: string)
    requires CleanNames(fields)
    requires forall i :: 0 <= i < |fields| ==> fields[i].0 != name
    ensures Framed(Block(status, fields))
    ensures Get(FieldsOf(Block(status, fields)), name) == None
  {
    BlockFramed(status, fields);
    var h := Block(status, fields);
    PutAllKeys(Pairs(h[1..|h| - 1]), name);
  }

  /** Whether the Connection field is there depends only on the keep-alive flag. */
  lemma {:induction false} ConnectionReadBack(status: string, pre: seq<(string, string)>, keepAlive: bool, post: seq<(string, string)>)
    requires CleanNames(pre + ConnectionField(keepAlive) + post)
    requires forall i :: 0 <= i < |pre| ==> pre[i].0 != "Connection"
    requires forall i :: 0 <= i < |post| ==> post[i].0 != "Connection"
    ensures var h := Block(status, pre + ConnectionField(keepAlive) + post);
      && Framed(h)
      && Get(FieldsOf(h), "Connection") == (if keepAlive then None else Some(ConnectionClose))
      && KeepAlive(FieldsOf(h)) == keepAlive
  {
    var fields := pre + ConnectionField(keepAlive) + post;
    if keepAlive {
      ReadBackAbsent(status, fields, "Connection");
    } else {
      assert fields[|pre|] == ("Connection", ConnectionClose);
      ReadBackField(status, fields, |pre|);
    }
  }

  /** The Content-Length field, last in every block, reads back as the number written. */
  lemma LengthReadBack(status: string, fields: seq<(string, string)>, length: nat)
    requires CleanNames(fields) && fields != []
    requires fields[|fields| - 1] == ("Content-Length", NatToString(length))
    ensures Framed(Block(status, fields)) && DeclaredLength(Block(status, fields)) == Some(length)
  {
    DecimalRoundTrip(length);
    ReadBackField(status, fields, |fields| - 1);
  }

  lemma OkFieldsClean(contentType: string, length: nat, date: string, keepAlive: bool)
    ensures CleanNames(OkFields(contentType, length, date, keepAlive))
  {
  }

  lemma NotImplementedFieldsClean(verb: string, date: string, keepAlive: bool)
    ensures CleanNames(NotImplementedFields(verb, date, keepAlive))
  {
  }

  lemma NotFoundFieldsClean(date: string, keepAlive: bool)
    ensures CleanNames(NotFoundFields(date, keepAlive))
  {
  }

  lemma OkLength(contentType: string, length: nat, date: string, keepAlive: bool)
    ensures var h := Block(StatusOk, OkFields(contentType, length, date, keepAlive));
      Framed(h) && DeclaredLength(h) == Some(length)
  {
    OkFieldsClean(contentType, length, date, keepAlive);
    LengthReadBack(StatusOk, OkFields(contentType, length, date, keepAlive), length);
  }

  lemma OkConnection(contentType: string, length: nat, date: string, keepAlive: bool)
    ensures var h := Block(StatusOk, OkFields(contentType, length, date, keepAlive));
      && Framed(h)
      && Get(FieldsOf(h), "Connection") == (if keepAlive then None else Some(ConnectionClose))
      && KeepAlive(FieldsOf(h)) == keepAlive
  {
    OkFieldsClean(contentType, length, date, keepAlive);
    ConnectionReadBack(StatusOk, [("Server", ServerName), ("Date", date), ("Allow", Allowed)], keepAlive,
      [("Content-Type", contentType), ("Content-Length", NatToString(length))]);
  }

  lemma OkAllow(contentType: string, length: nat, date: string, keepAlive: bool)
    ensures var h := Block(StatusOk, OkFields(contentType, length, date, keepAlive));
      Framed(h) && Get(FieldsOf(h), "Allow") == Some(Allowed)
  {
    OkFieldsClean(contentType, length, date, keepAlive);
    ReadBackField(StatusOk, OkFields(contentType, length, date, keepAlive), 2);
  }

  lemma OkType(contentType: string, length: nat, date: string, keepAlive: bool)
    requires Trimmed(contentType)
    ensures var h := Block(StatusOk, OkFields(contentType, length, date, keepAlive));
      Framed(h) && Get(FieldsOf(h), "Content-Type") == Some(contentType)
  {
    var fields := OkFields(contentType, length, date, keepAlive);
    OkFieldsClean(contentType, length, date, keepAlive);
    ReadBackField(StatusOk, fields, |fields| - 2);
  }


  /** The 200 header block as a client reads it: framed by its blank line,
      Content-Length is the given length, the Connection field says close
      exactly when the connection is not kept alive, and Allow and the content
      type read back as written. */
  lemma OkBlockReadBack(contentType: string, length: nat, date: string, keepAlive: bool)
    ensures var h := Block(StatusOk, OkFields(contentType, length, date, keepAlive));
      && Framed(h)
      && DeclaredLength(h) == Some(length)
      && Get(FieldsOf(h), "Connection") == (if keepAlive then None else Some(ConnectionClose))
      && KeepAlive(FieldsOf(h)) == keepAlive
      && Get(FieldsOf(h), "Allow") == Some(Allowed)
      && (Trimmed(contentType) ==> Get(FieldsOf(h), "Content-Type") == Some(contentType))
  {
    OkLength(contentType, length, date, keepAlive);
    OkConnection(contentType, length, date, keepAlive);
    OkAllow(contentType, length, date, keepAlive);
    if Trimmed(contentType) {
      OkType(contentType, length, date, keepAlive);
    }
  }

  lemma NotImplementedLength(verb: string, date: string, keepAlive: bool)
    ensures var h := Block(StatusNotImplemented, NotImplementedFields(verb, date, keepAlive));
      Framed(h) && DeclaredLength(h) == Some(JavaLength(NotImplementedMessage(verb)))
  {
    NotImplementedFieldsClean(verb, date, keepAlive);
    LengthReadBack(StatusNotImplemented, NotImplementedFields(verb, date, keepAlive), JavaLength(NotImplementedMessage(verb)));
  }

  lemma NotImplementedConnection(verb: string, date: string, keepAlive: bool)
    ensures var h := Block(StatusNotImplemented, NotImplementedFields(verb, date, keepAlive));
      && Framed(h)
      && Get(FieldsOf(h), "Connection") == (if keepAlive then None else Some(ConnectionClose))
      && KeepAlive(FieldsOf(h)) == keepAlive
  {
    NotImplementedFieldsClean(verb, date, keepAlive);
    ConnectionReadBack(StatusNotImplemented, [("Server", ServerName), ("Date", date), ("Allow", Allowed)], keepAlive,
      [("Content-Type", HtmlUtf8), ("Content-Length", NatToString(JavaLength(NotImplementedMessage(verb))))]);
  }

  lemma NotImplementedAllow(verb: string, date: string, keepAlive: bool)
    ensures var h := Block(StatusNotImplemented, NotImplementedFields(verb, date, keepAlive));
      Framed(h) && Get(FieldsOf(h), "Allow") == Some(Allowed)
  {
    NotImplementedFieldsClean(verb, date, keepAlive);
    ReadBackField(StatusNotImplemented, NotImplementedFields(verb, date, keepAlive), 2);
  }

  lemma NotImplementedType(verb: string, date: string, keepAlive: bool)
    ensures var h := Block(StatusNotImplemented, NotImplementedFields(verb, date, keepAlive));
      Framed(h) && Get(FieldsOf(h), "Content-Type") == Some(HtmlUtf8)
  {
    var fields := NotImplementedFields(verb, date, keepAlive);
    NotImplementedFieldsClean(verb, date, keepAlive);
    ReadBackField(StatusNotImplemented, fields, |fields| - 2);
  }


  /** The 501 message is the method between two fixed ASCII texts of 37
      characters in all, both as String.length() counts and as bytes. */
  lemma NotImplementedSizes(verb: string)
    ensures JavaLength(NotImplementedMessage(verb)) == 37 + JavaLength(verb)
    ensures |Encode(NotImplementedMessage(verb))| == 37 + |Encode(verb)|
  {
    var pre, post := "<H2>501 Method ", " not implemented.</H2>";
    assert IsAscii(pre) && IsAscii(post);
    EncodeBetween(pre, verb, post);
  }

  /** The 501 response as a client reads it: framed, typed as UTF-8 HTML, and
      Connection: close exactly when not kept alive. Its Content-Length is the
      message's String.length(), which equals the number of body bytes exactly
      when the method name is ASCII. */
  lemma NotImplementedReadBack(verb: string, date: string, keepAlive: bool)
    ensures var r := NotImplementedReply(verb, date, keepAlive);
      && Framed(r.header)
      && r.body.Some? && |r.body.value| == 37 + |Encode(verb)|
      && DeclaredLength(r.header) == Some(JavaLength(NotImplementedMessage(verb)))
      && (DeclaredLength(r.header) == Some(|r.body.value|) <==> IsAscii(verb))
      && Get(FieldsOf(r.header), "Connection") == (if keepAlive then None else Some(ConnectionClose))
      && KeepAlive(FieldsOf(r.header)) == keepAlive
      && Get(FieldsOf(r.header), "Content-Type") == Some(HtmlUtf8)
      && Get(FieldsOf(r.header), "Allow") == Some(Allowed)
  {
    NotImplementedLength(verb, date, keepAlive);
    NotImplementedConnection(verb, date, keepAlive);
    NotImplementedAllow(verb, date, keepAlive);
    NotImplementedType(verb, date, keepAlive);
    NotImplementedSizes(verb);
    EncodeSize(verb);
  }

  /** The 404 block writes the literal 100. */
  lemma NotFoundLengthText()
    ensures NatToString(NotFoundLength) == "100"
  {
    assert NatToString(1) == "1";
    assert NatToString(10) == "10";
  }

  lemma NotFoundLengthField(date: string, keepAlive: bool)
    ensures var h := Block(StatusNotFound, NotFoundFields(date, keepAlive));
      Framed(h) && DeclaredLength(h) == Some(NotFoundLength)
  {
    NotFoundFieldsClean(date, keepAlive);
    NotFoundLengthText();
    LengthReadBack(StatusNotFound, NotFoundFields(date, keepAlive), NotFoundLength);
  }

  lemma NotFoundConnection(date: string, keepAlive: bool)
    ensures var h := Block(StatusNotFound, NotFoundFields(date, keepAlive));
      && Framed(h)
      && Get(FieldsOf(h), "Connection") == (if keepAlive then None else Some(ConnectionClose))
      && KeepAlive(FieldsOf(h)) == keepAlive
  {
    NotFoundFieldsClean(date, keepAlive);
    ConnectionReadBack(StatusNotFound, [("Server", ServerName), ("Allow", Allowed)], keepAlive,
      [("Date", date), ("Content-Type", HtmlUtf8), ("Content-Length", NatToString(NotFoundLength))]);
  }

  lemma NotFoundAllow(date: string, keepAlive: bool)
    ensures var h := Block(StatusNotFound, NotFoundFields(date, keepAlive));
      Framed(h) && Get(FieldsOf(h), "Allow") == Some(Allowed)
  {
    NotFoundFieldsClean(date, keepAlive);
    ReadBackField(StatusNotFound, NotFoundFields(date, keepAlive), 1);
  }

  lemma NotFoundType(date: string, keepAlive: bool)
    ensures var h := Block(StatusNotFound, NotFoundFields(date, keepAlive));
      Framed(h) && Get(FieldsOf(h), "Content-Type") == Some(HtmlUtf8)
  {
    var fields := NotFoundFields(date, keepAlive);
    NotFoundFieldsClean(date, keepAlive);
    ReadBackField(StatusNotFound, fields, |fields| - 2);
  }


  /** The 404 message is the file name between two fixed ASCII texts of 29 bytes. */
  lemma NotFoundSize(file: string)
    ensures |Encode(NotFoundMessage(file))| == 29 + |Encode(file)|
  {
    var pre, post := "<H2>404 File Not Found: ", "</H2>";
    assert IsAscii(pre) && IsAscii(post);
    EncodeBetween(pre, file, post);
  }

  /** The 404 response as a client reads it: framed, typed as UTF-8 HTML, the
      body names the file, and Content-Length is always 100, so the declared
      length matches the body only when the name takes exactly 71 bytes. */
  lemma NotFoundReadBack(file: string, date: string, keepAlive: bool)
    ensures var r := NotFoundReply(file, date, keepAlive);
      && Framed(r.header)
      && r.body.Some? && |r.body.value| == 29 + |Encode(file)|
      && (IsAscii(file) ==> |Encode(file)| == |file|)
      && DeclaredLength(r.header) == Some(100)
      && (DeclaredLength(r.header) == Some(|r.body.value|) <==> |Encode(file)| == 71)
      && Get(FieldsOf(r.header), "Connection") == (if keepAlive then None else Some(ConnectionClose))
      && KeepAlive(FieldsOf(r.header)) == keepAlive
      && Get(FieldsOf(r.header), "Content-Type") == Some(HtmlUtf8)
      && Get(FieldsOf(r.header), "Allow") == Some(Allowed)
  {
    NotFoundLengthField(date, keepAlive);
    NotFoundConnection(date, keepAlive);
    NotFoundAllow(date, keepAlive);
    NotFoundType(date, keepAlive);
    NotFoundSize(file);
    if IsAscii(file) {
      EncodeAscii(file);
    }
  }

  /** The lines sendHeaders prints, in its order. */
  lemma OkHeaderLines(contentType: string, length: nat, date: string, keepAlive: bool)
    ensures Block(StatusOk, OkFields(contentType, length, date, keepAlive)) ==
      [StatusLine(StatusOk), Field("Server", ServerName), Field("Date", date), Field("Allow", Allowed)]
      + (if keepAlive then [] else [Field("Connection", ConnectionClose)])
      + [Field("Content-Type", contentType), Field("Content-Length", NatToString(length)), ""]
  {
    var fields := OkFields(contentType, length, date, keepAlive);
    assert Block(StatusOk, fields)[|fields| - 1] == Field("Content-Type", contentType);
  }

  /** The lines sendNotImplementedMethod prints, in its order. */
  lemma NotImplementedHeaderLines(verb: string, date: string, keepAlive: bool)
    ensures Block(StatusNotImplemented, NotImplementedFields(verb, date, keepAlive)) ==
      [StatusLine(StatusNotImplemented), Field("Server", ServerName), Field("Date", date), Field("Allow", Allowed)]
      + (if keepAlive then [] else [Field("Connection", ConnectionClose)])
      + [Field("Content-Type", HtmlUtf8), Field("Content-Length", NatToString(JavaLength(NotImplementedMessage(verb)))), ""]
  {
    var fields := NotImplementedFields(verb, date, keepAlive);
    assert Block(StatusNotImplemented, fields)[|fields| - 1] == Field("Content-Type", HtmlUtf8);
  }

  /** The lines fileNotFound prints, in its order: Date comes after Connection. */
  lemma NotFoundHeaderLines(date: string, keepAlive: bool)
    ensures Block(StatusNotFound, NotFoundFields(date, keepAlive)) ==
      [StatusLine(StatusNotFound), Field("Server", ServerName), Field("Allow", Allowed)]
      + (if keepAlive then [] else [Field("Connection", ConnectionClose)])
      + [Field("Date", date), Field("Content-Type", HtmlUtf8), Field("Content-Length", NatToString(NotFoundLength)), ""]
  {
    var fields := NotFoundFields(date, keepAlive);
    assert Block(StatusNotFound, fields)[|fields| - 1] == Field("Content-Type", HtmlUtf8);
  }

  /**
    The response writer. Header lines go through a PrintWriter, whose buffer is
    `pending`, and reach the connection when it is flushed; body bytes go
    through a BufferedOutputStream that each write flushes at once. `wire` is
    everything that has reached the connection, in order.
   */
  class HttpResponse {
    const keepAlive: bool
    var pending: seq<string>
    var wire: seq<Chunk>
    var contentType: Option<string>
    var body: Option<seq<byte>>

    /** Every header line printed so far has been flushed. */
    predicate Flushed()
      reads this
    {
      pending == []
    }

    constructor (keepAlive: bool)
      ensures this.keepAlive == keepAlive
      ensures pending == [] && wire == []
      ensures contentType == None && body == None
    {
      this.keepAlive := keepAlive;
      pending := [];
      wire := [];
      contentType := None;
      body := None;
    }

    /** sendHeaders: the 200 block for the file, flushed; the content type is remembered. */
    method SendHeaders(webRoot: WebRoot, file: string, date: string)
      requires Flushed()
      modifies this
      ensures Flushed()
      ensures wire == old(wire) + Lines(OkHeader(webRoot, file, date, keepAlive))
      ensures contentType == Some(ContentType(FileName(file))) && body == old(body)
    {
      var ct := ContentType(FileName(file));
      contentType := Some(ct);
      pending := pending + [StatusLine(StatusOk)];
      pending := pending + [Field("Server", ServerName)];
      pending := pending + [Field("Date", date)];
      pending := pending + [Field("Allow", Allowed)];
      assert pending == [StatusLine(StatusOk), Field("Server", ServerName), Field("Date", date), Field("Allow", Allowed)];
      if !keepAlive {
        pending := pending + [Field("Connection", ConnectionClose)];
      }
      assert pending == [StatusLine(StatusOk), Field("Server", ServerName), Field("Date", date), Field("Allow", Allowed)] + (if keepAlive then [] else [Field("Connection", ConnectionClose)]);
      pending := pending + [Field("Content-Type", ct)];
      pending := pending + [Field("Content-Length", NatToString(FileLength(webRoot, file)))];
      pending := pending + [""];
      assert pending == [StatusLine(StatusOk), Field("Server", ServerName), Field("Date", date), Field("Allow", Allowed)]
        + (if keepAlive then [] else [Field("Connection", ConnectionClose)])
        + [Field("Content-Type", ct), Field("Content-Length", NatToString(FileLength(webRoot, file))), ""];
      OkHeaderLines(ct, FileLength(webRoot, file), date, keepAlive);
      wire := wire + Lines(pending);
      pending := [];
    }

    /** sendBody(File): the whole file, or nothing when it cannot be opened. */
    method SendFileBody(webRoot: WebRoot, file: string)
      modifies this
      ensures wire == old(wire) + (if Exists(webRoot, file) then [Data(Contents(webRoot, file))] else [])
      ensures pending == old(pending) && contentType == old(contentType) && body == old(body)
    {
      if Exists(webRoot, file) {
        SendBody(Contents(webRoot, file));
      }
    }

    /** sendBody(byte[]): exactly the given bytes, in order. */
    method SendBody(data: seq<byte>)
      modifies this
      ensures wire == old(wire) + [Data(data)]
      ensures pending == old(pending) && contentType == old(contentType) && body == old(body)
    {
      wire := wire + [Data(data)];
    }

    /** sendNotImplementedMethod: the 501 block, flushed, then the message as the body. */
    method SendNotImplementedMethod(verb: string, date: string)
      requires Flushed()
      modifies this
      ensures Flushed()
      ensures wire == old(wire) + Wire(NotImplementedReply(verb, date, keepAlive))
      ensures body == NotImplementedReply(verb, date, keepAlive).body
      ensures contentType == old(contentType)
    {
      pending := pending + [StatusLine(StatusNotImplemented)];
      pending := pending + [Field("Server", ServerName)];
      pending := pending + [Field("Date", date)];
      pending := pending + [Field("Allow", Allowed)];
      assert pending == [StatusLine(StatusNotImplemented), Field("Server", ServerName), Field("Date", date), Field("Allow", Allowed)];
      if !keepAlive {
        pending := pending + [Field("Connection", ConnectionClose)];
      }
      assert pending == [StatusLine(StatusNotImplemented), Field("Server", ServerName), Field("Date", date), Field("Allow", Allowed)] + (if keepAlive then [] else [Field("Connection", ConnectionClose)]);
      pending := pending + [Field("Content-Type", HtmlUtf8)];
      var msg := NotImplementedMessage(verb);
      pending := pending + [Field("Content-Length", NatToString(JavaLength(msg)))];
      pending := pending + [""];
      assert pending == [StatusLine(StatusNotImplemented), Field("Server", ServerName), Field("Date", date), Field("Allow", Allowed)]
        + (if keepAlive then [] else [Field("Connection", ConnectionClose)])
        + [Field("Content-Type", HtmlUtf8), Field("Content-Length", NatToString(JavaLength(msg))), ""];
      NotImplementedHeaderLines(verb, date, keepAlive);
      wire := wire + Lines(pending);
      pending := [];
      body := Some(Encode(msg));
      SendBody(Encode(msg));
    }

    /** fileNotFound: the 404 block, flushed, then the message naming the file. */
    method FileNotFound(file: string, date: string)
      requires Flushed()
      modifies this
      ensures Flushed()
      ensures wire == old(wire) + Wire(NotFoundReply(file, date, keepAlive))
      ensures body == NotFoundReply(file, date, keepAlive).body
      ensures contentType == old(contentType)
    {
      pending := pending + [StatusLine(StatusNotFound)];
      pending := pending + [Field("Server", ServerName)];
      pending := pending + [Field("Allow", Allowed)];
      assert pending == [StatusLine(StatusNotFound), Field("Server", ServerName), Field("Allow", Allowed)];
      if !keepAlive {
        pending := pending + [Field("Connection", ConnectionClose)];
      }
      assert pending == [StatusLine(StatusNotFound), Field("Server", ServerName), Field("Allow", Allowed)] + (if keepAlive then [] else [Field("Connection", ConnectionClose)]);
      pending := pending + [Field("Date", date)];
      pending := pending + [Field("Content-Type", HtmlUtf8)];
      var msg := NotFoundMessage(file);
      pending := pending + [Field("Content-Length", NatToString(NotFoundLength))];
      pending := pending + [""];
      assert pending == [StatusLine(StatusNotFound), Field("Server", ServerName), Field("Allow", Allowed)]
        + (if keepAlive then [] else [Field("Connection", ConnectionClose)])
        + [Field("Date", date), Field("Content-Type", HtmlUtf8), Field("Content-Length", NatToString(NotFoundLength)), ""];
      NotFoundHeaderLines(date, keepAlive);
      wire := wire + Lines(pending);
      pending := [];
      body := Some(Encode(msg));
      SendBody(Encode(msg));
    }
  }
}
