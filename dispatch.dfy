/**
  How HttpRequest chooses a response: preparePath maps the request target to a
  file under the web root, initResponse checks that the file can be opened, and
  sendResponse picks 404, 200 with or without a body, or 501.
 */
module Dispatch {

  import opened Wrappers
  import opened Text
  import opened Headers
  import opened Paths
  import opened Response

  /** WebServer.DEFAULT_FILE */
  const DefaultFile: string := "index.html"
  const MethodGet: string := "GET"
  const MethodHead: string := "HEAD"

  /** preparePath: "/" and any target holding ".." become the default file;
      every other target is kept as it is (the separator replacement is
      computed and thrown away). */
  function PreparePath(path: string): (r: string)
    ensures path == "/" || HasDotDot(path) ==> r == DefaultFile
    ensures path != "/" && !HasDotDot(path) ==> r == path
    ensures !HasDotDot(r)
  {
    if path == "/" || HasDotDot(path) then DefaultFile else path
  }

  /** Whatever the target, the prepared path names no parent directory, so the
      file it resolves to lies inside the web root. */
  lemma PreparedPathStaysInRoot(target: string)
    ensures ".." !in Segments(PreparePath(target))
    ensures forall i :: 0 <= i < |Segments(PreparePath(target))| ==> !HasDotDot(Segments(PreparePath(target))[i])
  {
    NoParentSegment(PreparePath(target));
  }

  /** The default file is found under its own name whether it is asked for as
      "/", as "/index.html" or as "index.html". */
  lemma DefaultFileResolves()
    ensures FileKey(PreparePath("/")) == FileKey("/index.html") == FileKey("index.html") == DefaultFile
    ensures FileName(PreparePath("/")) == DefaultFile
  {
    PlainName(DefaultFile);
  }

  /** The reply sendResponse writes for a request, after initResponse. */
  function ResponseFor(webRoot: WebRoot, verb: string, target: string, keepAlive: bool, date: string): Reply {
    ReplyTo(webRoot, verb, PreparePath(target), keepAlive, date)
  }

  /** The reply for the prepared path `file`. */
  function ReplyTo(webRoot: WebRoot, verb: string, file: string, keepAlive: bool, date: string): Reply {
    if !Exists(webRoot, file) then NotFoundReply(file, date, keepAlive)
    else if verb == MethodGet then Reply(OkHeader(webRoot, file, date, keepAlive), Some(Contents(webRoot, file)))
    else if verb == MethodHead then Reply(OkHeader(webRoot, file, date, keepAlive), None)
    else NotImplementedReply(verb, date, keepAlive)
  }

  /** The status line of each reply, and which replies carry a body: a missing
      file is answered 404 whatever the method, an existing one 200 for GET and
      HEAD and 501 for anything else, and only HEAD goes without a body. */
  lemma DispatchOutcome(webRoot: WebRoot, verb: string, target: string, keepAlive: bool, date: string)
    ensures var r := ResponseFor(webRoot, verb, target, keepAlive, date);
      var found := Exists(webRoot, PreparePath(target));
      && r.header != []
      && (!found ==> r.header[0] == StatusLine(StatusNotFound))
      && (found && (verb == MethodGet || verb == MethodHead) ==> r.header[0] == StatusLine(StatusOk))
      && (found && verb != MethodGet && verb != MethodHead ==> r.header[0] == StatusLine(StatusNotImplemented))
      && (r.body.None? <==> found && verb == MethodHead)
  {
  }

  /** A missing file is reported before the method is looked at: the reply does
      not depend on the method at all, and it names the prepared path. */
  lemma MissingFileIgnoresMethod(webRoot: WebRoot, verb: string, other: string, target: string, keepAlive: bool, date: string)
    requires !Exists(webRoot, PreparePath(target))
    ensures ResponseFor(webRoot, verb, target, keepAlive, date) == ResponseFor(webRoot, other, target, keepAlive, date)
    ensures ResponseFor(webRoot, verb, target, keepAlive, date).body == Some(Encode(NotFoundMessage(PreparePath(target))))
  {
  }

  /** GET of an existing file sends exactly the file's bytes, announced with
      their number and the type its name calls for. */
  lemma GetServesFile(webRoot: WebRoot, target: string, keepAlive: bool, date: string)
    requires Exists(webRoot, PreparePath(target))
    ensures var r := ResponseFor(webRoot, MethodGet, target, keepAlive, date);
      && r.body == Some(Contents(webRoot, PreparePath(target)))
      && Framed(r.header)
      && DeclaredLength(r.header) == Some(|r.body.value|)
      && Get(FieldsOf(r.header), "Content-Type") == Some(ContentType(FileName(PreparePath(target))))
  {
    var file := PreparePath(target);
    assert ResponseFor(webRoot, MethodGet, target, keepAlive, date)
        == Reply(OkHeader(webRoot, file, date, keepAlive), Some(Contents(webRoot, file)));
    ContentTypeTrimmed(FileName(file));
    OkBlockReadBack(ContentType(FileName(file)), FileLength(webRoot, file), date, keepAlive);
  }

  /** HEAD sends the same header block as GET, and no body. */
  lemma HeadOmitsBody(webRoot: WebRoot, target: string, keepAlive: bool, date: string)
    ensures ResponseFor(webRoot, MethodHead, target, keepAlive, date).header == ResponseFor(webRoot, MethodGet, target, keepAlive, date).header
    ensures Exists(webRoot, PreparePath(target)) ==> ResponseFor(webRoot, MethodHead, target, keepAlive, date).body.None?
  {
  }

  /** A target that tries to climb out of the web root is served exactly as "/". */
  lemma TraversalServesDefault(webRoot: WebRoot, verb: string, target: string, keepAlive: bool, date: string)
    requires HasDotDot(target)
    ensures ResponseFor(webRoot, verb, target, keepAlive, date) == ResponseFor(webRoot, verb, "/", keepAlive, date)
  {
    assert PreparePath(target) == PreparePath("/");
  }

  /** Every reply is a framed header block in which Connection: close appears
      exactly when the connection is not kept alive. */
  lemma ReplyConnection(webRoot: WebRoot, verb: string, target: string, keepAlive: bool, date: string)
    ensures var r := ResponseFor(webRoot, verb, target, keepAlive, date);
      && Framed(r.header)
      && Get(FieldsOf(r.header), "Connection") == (if keepAlive then None else Some(ConnectionClose))
      && KeepAlive(FieldsOf(r.header)) == keepAlive
  {
    var file := PreparePath(target);
    if !Exists(webRoot, file) {
      NotFoundReadBack(file, date, keepAlive);
    } else if verb == MethodGet || verb == MethodHead {
      OkBlockReadBack(ContentType(FileName(file)), FileLength(webRoot, file), date, keepAlive);
    } else {
      NotImplementedReadBack(verb, date, keepAlive);
    }
  }
}
