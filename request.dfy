/**
  HttpRequest: parseRequest reads the request line and the header block of one
  request, the constructor derives the keep-alive flag, and sendResponse writes
  the reply chosen for the prepared path.
 */
module Request {

  import opened Wrappers
  import opened Text
  import opened Headers
  import opened Paths
  import opened Response
  import opened Dispatch

  /** What parseRequest reads: the method, the lower-cased target and the header map. */
  datatype RequestHead = RequestHead(verb: string, target: string, headers: map<string, string>)

  /** Why parseRequest gives up. A missing request line and a request line with
      fewer than three pieces surface as runtime exceptions (a null dereference,
      an index out of bounds); the other two are IOExceptions. */
  datatype ParseError = NoRequestLine | ShortRequestLine | NotHttp | MalformedHeader

  datatype ParseResult = Parsed(head: RequestHead) | Failed(error: ParseError)

  const HttpPrefix: string := "HTTP/"

  /** The header lines parseRequest reads from what follows the request line:
      those up to the first blank line or the end of the stream. */
  function HeaderLines(rest: seq<string>): seq<string> {
    rest[..BlockLength(rest)]
  }

  /** parseRequest over the lines the reader delivers, as one value. */
  function Parse(lines: seq<string>): ParseResult {
    if lines == [] then Failed(NoRequestLine)
    else
      var req := SplitRequestLine(lines[0]);
      if |req| < 3 then Failed(ShortRequestLine)
      else if !StartsWith(req[2], HttpPrefix) then Failed(NotHttp)
      else
        match ReadBlock(lines[1..])
        case None => Failed(MalformedHeader)
        case Some(headers) => Parsed(RequestHead(req[0], Lower(req[1]), headers))
  }

  /** The header lines of a request, read as parseRequest's loop reads them:
      the map of the block's fields, or None when a line of the block has no
      colon. */
  function ReadBlock(rest: seq<string>): Option<map<string, string>> {
    var block := HeaderLines(rest);
    if AllFields(block) then Some(HeaderMap(block)) else None
  }

  /** parseRequest: the request line is checked, then the header lines are read. */
  method ParseRequest(lines: seq<string>) returns (r: ParseResult)
    ensures r == Parse(lines)
  {
    if |lines| == 0 {
      return Failed(NoRequestLine);
    }
    var req := SplitRequestLine(lines[0]);
    if |req| < 3 {
      return Failed(ShortRequestLine);
    }
    var protocol := req[2];
    if !StartsWith(protocol, HttpPrefix) {
      return Failed(NotHttp);
    }
    var verb := req[0];
    var url := Lower(req[1]);
    var headers := ReadHeaders(lines[1..]);
    if headers.None? {
      return Failed(MalformedHeader);
    }
    return Parsed(RequestHead(verb, url, headers.value));
  }

  /** The header loop of parseRequest: lines are read one at a time and put
      into the map until a blank line or the end; a line without a colon stops
      the parse. */
  method ReadHeaders(rest: seq<string>) returns (r: Option<map<string, string>>)
    ensures r == ReadBlock(rest)
  {
    var headers: map<string, string> := map[];
    var k := 0;
    while k < |rest| && !IsBlank(rest[k])
      invariant 0 <= k <= |rest|
      invariant forall j :: 0 <= j < k ==> !IsBlank(rest[j])
      invariant AllFields(rest[..k])
      invariant headers == HeaderMap(rest[..k])
    {
      var header := SplitFirst(rest[k], ':');
      if header.None? {
        NoColonFails(rest, k);
        return None;
      }
      ReadOneMore(rest, k);
      headers := headers[Trim(header.value.0) := Trim(header.value.1)];
      k := k + 1;
    }
    BlockLengthIs(rest, k);
    return Some(headers);
  }

  /** A line of the block without a colon makes the block unreadable. */
  lemma NoColonFails(rest: seq<string>, k: nat)
    requires k < |rest| && !IsField(rest[k])
    requires forall j :: 0 <= j <= k ==> !IsBlank(rest[j])
    ensures ReadBlock(rest) == None
  {
    BlockLengthAtLeast(rest, k + 1);
    assert HeaderLines(rest)[k] == rest[k];
  }

  /** One more field line of the block extends the map read so far. */
  lemma ReadOneMore(rest: seq<string>, k: nat)
    requires k < |rest| && IsField(rest[k]) && AllFields(rest[..k])
    ensures AllFields(rest[..k + 1])
    ensures HeaderMap(rest[..k + 1]) == HeaderMap(rest[..k])[FieldName(rest[k]) := FieldValue(rest[k])]
  {
    assert rest[..k + 1] == rest[..k] + [rest[k]];
    HeaderMapAppend(rest[..k], rest[k]);
  }

  /** A request line of a space-free method and target followed by a protocol
      starting with HTTP/, then field lines up to a blank line or the end,
      parses to that method, the lower-cased target and the map of those
      fields; whatever follows the blank line is not read. */
  lemma ParseAccepts(verb: string, target: string, rest: string, fields: seq<string>, tail: seq<string>)
    requires ' ' !in verb && ' ' !in target && StartsWith(rest, HttpPrefix)
    requires forall i :: 0 <= i < |fields| ==> IsField(fields[i]) && !IsBlank(fields[i])
    requires tail == [] || IsBlank(tail[0])
    ensures Parse([verb + " " + target + " " + rest] + fields + tail)
         == Parsed(RequestHead(verb, Lower(target), HeaderMap(fields)))
  {
    var line := verb + " " + target + " " + rest;
    assert [line] + fields + tail == [line] + (fields + tail);
    SplitRequestLineOf(verb, target, rest);
    ReadBlockOf(fields, tail);
  }

  /** The header block ends where the field lines end. */
  lemma ReadBlockOf(fields: seq<string>, tail: seq<string>)
    requires forall i :: 0 <= i < |fields| ==> IsField(fields[i]) && !IsBlank(fields[i])
    requires tail == [] || IsBlank(tail[0])
    ensures ReadBlock(fields + tail) == Some(HeaderMap(fields))
  {
    var after := fields + tail;
    assert forall i :: 0 <= i < |fields| ==> after[i] == fields[i];
    BlockLengthIs(after, |fields|);
    assert after[..|fields|] == fields;
  }

  /** How parsing fails: no request line; a request line with fewer than two
      spaces; a protocol piece not starting with HTTP/; and, with a good
      request line, a non-blank line without a colon inside the header block. */
  lemma ParseFailures(lines: seq<string>)
    ensures Parse(lines) == Failed(NoRequestLine) <==> lines == []
    ensures lines != [] ==> (Parse(lines) == Failed(ShortRequestLine) <==> multiset(lines[0])[' '] < 2)
    ensures lines != [] && multiset(lines[0])[' '] >= 2 ==>
      (Parse(lines) == Failed(NotHttp) <==> !StartsWith(SplitRequestLine(lines[0])[2], HttpPrefix))
  {
    if lines != [] {
      SplitRequestLineSpaces(lines[0]);
    }
  }

  /** A non-blank header line without a colon, reached before any blank line,
      makes the whole request fail. */
  lemma MalformedHeaderFails(lines: seq<string>, i: nat)
    requires lines != [] && |SplitRequestLine(lines[0])| == 3 && StartsWith(SplitRequestLine(lines[0])[2], HttpPrefix)
    requires 1 <= i < |lines|
    requires forall j :: 1 <= j <= i ==> !IsBlank(lines[j])
    requires !IsField(lines[i])
    ensures Parse(lines) == Failed(MalformedHeader)
  {
    BlockLengthAtLeast(lines[1..], i);
    assert HeaderLines(lines[1..])[i - 1] == lines[i];
  }

  /** The header map of a parsed request: a name is present exactly when some
      header line carries it, and its value is the trimmed value of the last
      such line, so a later duplicate replaces an earlier one. */
  lemma ParsedHeaders(lines: seq<string>, name: string)
    requires Parse(lines).Parsed?
    ensures var block := HeaderLines(lines[1..]);
      && AllFields(block)
      && (name in Parse(lines).head.headers <==> exists i :: 0 <= i < |block| && FieldName(block[i]) == name)
      && forall i :: (0 <= i < |block| && FieldName(block[i]) == name
           && forall j :: i < j < |block| ==> FieldName(block[j]) != name)
           ==> Get(Parse(lines).head.headers, name) == Some(FieldValue(block[i]))
  {
    var block := HeaderLines(lines[1..]);
    assert AllFields(block) && Parse(lines).head.headers == HeaderMap(block);
    BlockFields(block, name);
  }

  /** A name is in the map of a block exactly when a line of the block has
      it, and the last such line gives its value. */
  lemma BlockFields(block: seq<string>, name: string)
    requires AllFields(block)
    ensures name in HeaderMap(block) <==> exists i :: 0 <= i < |block| && FieldName(block[i]) == name
    ensures forall i :: (0 <= i < |block| && FieldName(block[i]) == name
                         && forall j :: i < j < |block| ==> FieldName(block[j]) != name)
                         ==> Get(HeaderMap(block), name) == Some(FieldValue(block[i]))
  {
    var pairs := Pairs(block);
    PutAllKeys(pairs, name);
    forall i | 0 <= i < |block| && FieldName(block[i]) == name
        && (forall j :: i < j < |block| ==> FieldName(block[j]) != name)
      ensures Get(PutAll(pairs), name) == Some(FieldValue(block[i]))
    {
      PutAllLastWins(pairs, i);
    }
  }

  /**
    A request being served: its method, its target (replaced by the prepared
    path when the response starts), the file it resolves to, and whether the
    connection stays open after it.
   */
  class HttpRequest {
    var url: string
    const verb: string
    var file: Option<string>
    const keepAlive: bool

    /** The constructor: the connection is kept alive unless the header map
        holds Connection with the value close, exactly. */
    constructor (url: string, verb: string, headers: map<string, string>)
      ensures this.url == url && this.verb == verb && file == None
      ensures !keepAlive <==> "Connection" in headers && headers["Connection"] == ConnectionClose
    {
      this.url := url;
      this.verb := verb;
      file := None;
      keepAlive := KeepAlive(headers);
    }

    /** initResponse: prepare the path, resolve the file under the web root, and
        report whether it can be opened (the source signals a missing file
        with FileNotFoundException). */
    method InitResponse(webRoot: WebRoot) returns (found: bool)
      modifies this
      ensures url == PreparePath(old(url)) && file == Some(url)
      ensures found <==> Exists(webRoot, url)
    {
      url := PreparePath(url);
      file := Some(url);
      found := Exists(webRoot, url);
    }

    /** sendResponse: 404 naming the prepared path when the file is missing,
        otherwise headers and body for GET, headers only for HEAD, and 501 for
        any other method. */
    method SendResponse(response: HttpResponse, webRoot: WebRoot, date: string)
      requires response.Flushed()
      modifies this, response
      ensures url == PreparePath(old(url)) && file == Some(url)
      ensures response.Flushed()
      ensures response.wire == old(response.wire) + Wire(ResponseFor(webRoot, verb, old(url), response.keepAlive, date))
      ensures var served := Exists(webRoot, url) && (verb == MethodGet || verb == MethodHead);
        && response.contentType == (if served then Some(ContentType(FileName(url))) else old(response.contentType))
        && response.body == (if served then old(response.body) else ResponseFor(webRoot, verb, old(url), response.keepAlive, date).body)
    {
      ghost var reply := ResponseFor(webRoot, verb, url, response.keepAlive, date);
      var found := InitResponse(webRoot);
      if !found {
        assert reply == NotFoundReply(url, date, response.keepAlive);
        response.FileNotFound(url, date);
      } else if verb == MethodGet {
        assert reply == Reply(OkHeader(webRoot, url, date, response.keepAlive), Some(Contents(webRoot, url)));
        response.SendHeaders(webRoot, url, date);
        response.SendFileBody(webRoot, url);
      } else if verb == MethodHead {
        assert reply == Reply(OkHeader(webRoot, url, date, response.keepAlive), None);
        response.SendHeaders(webRoot, url, date);
      } else {
        assert reply == NotImplementedReply(verb, date, response.keepAlive);
        response.SendNotImplementedMethod(verb, date);
      }
    }
  }
}
