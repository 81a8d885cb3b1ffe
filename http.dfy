/** The per-connection request logic of src/http.rs: response formatting,
    the WebSocket upgrade handshake (section 4.2.2 of RFC 6455) and routing
    of the parsed request. The request itself arrives already parsed (the
    path, if any, and the headers); SHA-1 and base64 are parameters. */
module Http {
  import opened Wire
  import opened Utf8
  import opened Text

  datatype HttpError = HttpError(code: nat, status: string)

  const NotFound: HttpError := HttpError(404, "Not Found")
  const BadRequest: HttpError := HttpError(400, "Bad Request")

  /** A request header as the parser hands it over: the name as text, the
      value as raw bytes. */
  datatype Header = Header(name: string, value: seq<byte>)

  const CRLF: string := "\r\n"

  predicate NoCR(s: string)
  {
    forall i :: 0 <= i < |s| ==> s[i] != '\r'
  }

  // ---------------------------------------------------------------------------
  // Response formatting.

  /** The header `write_response` formats: the status line, `Content-Type`
      and `Content-Length`, each ended by CRLF, then an empty line. */
  function ResponseHead(code: nat, status: string, contentType: string, length: nat): string
  {
    JoinLines(ResponseLines(code, status, contentType, length))
  }

  /** `write_response`: the header's bytes, then the body. */
  function WriteResponse(code: nat, status: string, contentType: string, data: seq<byte>): seq<byte>
  {
    Utf8.Encode(ResponseHead(code, status, contentType, |data|)) + data
  }

  function TextContentType(contentType: string): string
  {
    contentType + "; charset=utf-8"
  }

  /** `write_text_response`: the text's UTF-8 bytes, with the charset named. */
  function WriteTextResponse(code: nat, status: string, contentType: string, text: string): seq<byte>
  {
    WriteResponse(code, status, TextContentType(contentType), Utf8.Encode(text))
  }

  function ErrorBody(e: HttpError): string
  {
    "<h1>" + Decimal(e.code) + " " + e.status + "</h1>"
  }

  /** `write_error`. */
  function WriteError(e: HttpError): seq<byte>
  {
    WriteTextResponse(e.code, e.status, "text/html", ErrorBody(e))
  }

  /** The WebSocket GUID of section 1.3 of RFC 6455. */
  const Guid: string := "258EAFA5-E914-47DA-95CA-C5AB0DC85B11"

  /** `Sec-WebSocket-Accept`: base64 of the SHA-1 of the key followed by the GUID. */
  function AcceptToken(sha1: seq<byte> -> seq<byte>, base64: seq<byte> -> string, key: seq<byte>): string
  {
    base64(sha1(key + Utf8.Encode(Guid)))
  }

  /** Status 101, then `Sec-WebSocket-Accept`, `Connection: Upgrade` and
      `Upgrade: websocket`, each ended by CRLF, then an empty line. */
  function UpgradeHead(token: string): string
  {
    JoinLines(UpgradeLines(token))
  }

  /** `write_upgrade_response`: a header and no body. */
  function WriteUpgradeResponse(sha1: seq<byte> -> seq<byte>, base64: seq<byte> -> string, key: seq<byte>): seq<byte>
  {
    Utf8.Encode(UpgradeHead(AcceptToken(sha1, base64, key)))
  }

  // ---------------------------------------------------------------------------
  // Reading a response head back: its CRLF-separated lines and its fields.

  /** The lines of `s[start..]`, scanning for CRLF from `i`. */
  function LinesFrom(s: string, start: nat, i: nat): (r: seq<string>)
    requires start <= i <= |s|
    ensures |r| > 0
    decreases |s| - i
  {
    if i + 1 >= |s| then [s[start..]]
    else if s[i] == '\r' && s[i + 1] == '\n' then [s[start..i]] + LinesFrom(s, i + 2, i + 2)
    else LinesFrom(s, start, i + 1)
  }

  /** `s` split at every CRLF. */
  function Lines(s: string): (r: seq<string>)
    ensures |r| > 0
  {
    LinesFrom(s, 0, 0)
  }

  /** The value of the first `name: value` line. */
  function Field(lines: seq<string>, name: string): (r: Option<string>)
  {
    if lines == [] then None
    else if name + ": " <= lines[0] then Some(lines[0][|name| + 2..])
    else Field(lines[1..], name)
  }

  /** `lines` with CRLF between them. */
  function JoinLines(lines: seq<string>): string
    requires |lines| > 0
  {
    if |lines| == 1 then lines[0] else lines[0] + (CRLF + JoinLines(lines[1..]))
  }

  lemma {:induction false} ScanPlain(s: string, start: nat, i: nat, j: nat)
    requires start <= i <= j <= |s|
    requires forall k :: i <= k < j ==> s[k] != '\r'
    ensures LinesFrom(s, start, i) == LinesFrom(s, start, j)
    decreases j - i
  {
    if i < j {
      ScanPlain(s, start, i + 1, j);
    }
  }

  lemma {:induction false} ScanShift(p: string, b: string, start: nat, i: nat)
    requires start <= i <= |b|
    ensures LinesFrom(p + b, |p| + start, |p| + i) == LinesFrom(b, start, i)
    decreases |b| - i
  {
    var s := p + b;
    if i + 1 < |b| {
      assert s[|p| + i] == b[i] && s[|p| + i + 1] == b[i + 1];
      if b[i] == '\r' && b[i + 1] == '\n' {
        assert s[|p| + start..|p| + i] == b[start..i];
        ScanShift(p, b, i + 2, i + 2);
        assert LinesFrom(s, |p| + start, |p| + i)
            == [s[|p| + start..|p| + i]] + LinesFrom(s, |p| + (i + 2), |p| + (i + 2));
        assert LinesFrom(b, start, i) == [b[start..i]] + LinesFrom(b, i + 2, i + 2);
      } else {
        ScanShift(p, b, start, i + 1);
        assert LinesFrom(s, |p| + start, |p| + i) == LinesFrom(s, |p| + start, |p| + (i + 1));
        assert LinesFrom(b, start, i) == LinesFrom(b, start, i + 1);
      }
    } else {
      assert |p| + i + 1 >= |s|;
      assert s[|p| + start..] == b[start..];
      assert LinesFrom(s, |p| + start, |p| + i) == [s[|p| + start..]];
    }
  }

  /** A line without CR, then CRLF: the first line is that line. */
  lemma LinesCons(a: string, b: string)
    requires NoCR(a)
    ensures Lines(a + (CRLF + b)) == [a] + Lines(b)
  {
    var s := a + (CRLF + b);
    assert s[|a|] == '\r' && s[|a| + 1] == '\n';
    ScanPlain(s, 0, 0, |a|);
    assert s[0..|a|] == a;
    assert s == (a + CRLF) + b;
    ScanShift(a + CRLF, b, 0, 0);
  }

  lemma {:induction false} LinesOfJoin(lines: seq<string>)
    requires |lines| > 0
    requires forall k :: 0 <= k < |lines| ==> NoCR(lines[k])
    ensures Lines(JoinLines(lines)) == lines
  {
    if |lines| == 1 {
      var s := lines[0];
      ScanPlain(s, 0, 0, |s|);
      assert s[0..] == s;
    } else {
      LinesOfJoin(lines[1..]);
      LinesCons(lines[0], JoinLines(lines[1..]));
      assert lines == [lines[0]] + lines[1..];
    }
  }

  lemma DecimalNoCR(n: nat)
    ensures NoCR(Decimal(n))
  {
    var d := Decimal(n);
    forall i | 0 <= i < |d|
      ensures d[i] != '\r'
    {
      assert DigitValue(d[i]).Some?;
    }
  }

  /** The lines `write_response` writes. */
  function ResponseLines(code: nat, status: string, contentType: string, length: nat): seq<string>
  {
    ["HTTP/1.1 " + Decimal(code) + " " + status, "Content-Type: " + contentType,
     "Content-Length: " + Decimal(length), "", ""]
  }

  /** `Field` finds the first line that carries the name. */
  lemma {:induction false} FieldAt(lines: seq<string>, name: string, k: nat)
    requires k < |lines| && name + ": " <= lines[k]
    requires forall j :: 0 <= j < k ==> !(name + ": " <= lines[j])
    ensures Field(lines, name) == Some(lines[k][|name| + 2..])
  {
    if k > 0 {
      assert forall j :: 0 <= j < k - 1 ==> lines[1..][j] == lines[j + 1];
      FieldAt(lines[1..], name, k - 1);
    }
  }

  lemma ResponseHeadLines(code: nat, status: string, contentType: string, length: nat)
    requires NoCR(status) && NoCR(contentType)
    ensures Lines(ResponseHead(code, status, contentType, length)) == ResponseLines(code, status, contentType, length)
  {
    DecimalNoCR(code);
    DecimalNoCR(length);
    LinesOfJoin(ResponseLines(code, status, contentType, length));
  }

  /** The header `write_response` writes reads back as a status line and two
      fields; `Content-Length` is the body's length in bytes. */
  lemma ResponseHeadFields(code: nat, status: string, contentType: string, length: nat)
    requires NoCR(status) && NoCR(contentType)
    ensures var ls := Lines(ResponseHead(code, status, contentType, length));
            && ls[0] == "HTTP/1.1 " + Decimal(code) + " " + status
            && Field(ls, "Content-Type") == Some(contentType)
            && Field(ls, "Content-Length") == Some(Decimal(length))
            && ParseDecimal(Decimal(length)) == Some(length)
  {
    var ls := ResponseLines(code, status, contentType, length);
    ResponseHeadLines(code, status, contentType, length);

    assert ls[0][0] == 'H';
    assert ls[1][8] == 'T';
    FieldAt(ls, "Content-Type", 1);
    FieldAt(ls, "Content-Length", 2);
    DecimalRoundTrip(length);
  }

  /** What a client reads from `write_response`: the head, then exactly the
      data, whose length the head announces. */
  lemma WriteResponseBody(code: nat, status: string, contentType: string, data: seq<byte>)
    requires NoCR(status) && NoCR(contentType)
    ensures var head := ResponseHead(code, status, contentType, |data|);
            var r := WriteResponse(code, status, contentType, data);
            var n := |Utf8.Encode(head)|;
            && n == Utf8Len(head) && n <= |r|
            && Utf8.Decode(r[..n]) == Some(head)
            && r[n..] == data
            && Field(Lines(head), "Content-Length") == Some(Decimal(|r| - n))
            && ParseDecimal(Decimal(|r| - n)) == Some(|data|)
  {
    var head := ResponseHead(code, status, contentType, |data|);
    var r := WriteResponse(code, status, contentType, data);
    EncodeLength(head);
    Utf8.DecodeEncode(head);
    assert r[..|Utf8.Encode(head)|] == Utf8.Encode(head);
    ResponseHeadFields(code, status, contentType, |data|);
  }

  /** `write_text_response` names the charset and announces the text's
      UTF-8 length, not its character count. */
  lemma TextResponseFields(code: nat, status: string, contentType: string, text: string)
    requires NoCR(status) && NoCR(contentType)
    ensures var head := ResponseHead(code, status, TextContentType(contentType), Utf8Len(text));
            && WriteTextResponse(code, status, contentType, text) == Utf8.Encode(head) + Utf8.Encode(text)
            && Field(Lines(head), "Content-Type") == Some(contentType + "; charset=utf-8")
            && Field(Lines(head), "Content-Length") == Some(Decimal(Utf8Len(text)))
            && ParseDecimal(Decimal(Utf8Len(text))) == Some(Utf8Len(text))
  {
    EncodeLength(text);
    ResponseHeadFields(code, status, TextContentType(contentType), Utf8Len(text));
  }

  /** `write_error`: an HTML body `<h1>code status</h1>` under that status. */
  lemma ErrorResponseFields(e: HttpError)
    requires NoCR(e.status)
    ensures var head := ResponseHead(e.code, e.status, "text/html; charset=utf-8", Utf8Len(ErrorBody(e)));
            && WriteError(e) == Utf8.Encode(head) + Utf8.Encode("<h1>" + Decimal(e.code) + " " + e.status + "</h1>")
            && Lines(head)[0] == "HTTP/1.1 " + Decimal(e.code) + " " + e.status
            && Field(Lines(head), "Content-Type") == Some("text/html; charset=utf-8")
  {
    assert TextContentType("text/html") == "text/html; charset=utf-8";
    EncodeLength(ErrorBody(e));
    ResponseHeadFields(e.code, e.status, "text/html; charset=utf-8", Utf8Len(ErrorBody(e)));
  }

  function UpgradeLines(token: string): seq<string>
  {
    ["HTTP/1.1 101 Switching Protocols", "Sec-WebSocket-Accept: " + token,
     "Connection: Upgrade", "Upgrade: websocket", "", ""]
  }

  lemma UpgradeHeadLines(token: string)
    requires NoCR(token)
    ensures Lines(UpgradeHead(token)) == UpgradeLines(token)
  {
    var ls := UpgradeLines(token);
    assert NoCR(ls[0]) && NoCR(ls[2]) && NoCR(ls[3]);
    LinesOfJoin(ls);
  }

  /** The upgrade response reads back as status 101 with the accept token. */
  lemma UpgradeHeadFields(token: string)
    requires NoCR(token)
    ensures var ls := Lines(UpgradeHead(token));
            && ls[0] == "HTTP/1.1 101 Switching Protocols"
            && Field(ls, "Sec-WebSocket-Accept") == Some(token)
  {
    var ls := UpgradeLines(token);
    UpgradeHeadLines(token);

    assert ls[0][0] == 'H';
    FieldAt(ls, "Sec-WebSocket-Accept", 1);
  }

  /** ... says the connection is being upgraded ... */
  lemma UpgradeHeadConnection(token: string)
    requires NoCR(token)
    ensures Field(Lines(UpgradeHead(token)), "Connection") == Some("Upgrade")
  {
    var ls := UpgradeLines(token);
    UpgradeHeadLines(token);

    assert !("Connection: " <= ls[0]) by { assert ls[0][0] == 'H'; }
    assert !("Connection: " <= ls[1]) by { assert ls[1][0] == 'S'; }
    FieldAt(ls, "Connection", 2);
  }

  /** ... and names the protocol it switches to. */
  lemma UpgradeHeadProtocol(token: string)
    requires NoCR(token)
    ensures Field(Lines(UpgradeHead(token)), "Upgrade") == Some("websocket")
  {
    var ls := UpgradeLines(token);
    UpgradeHeadLines(token);

    assert !("Upgrade: " <= ls[0]) by { assert ls[0][0] == 'H'; }
    assert !("Upgrade: " <= ls[1]) by { assert ls[1][0] == 'S'; }
    assert !("Upgrade: " <= ls[2]) by { assert ls[2][0] == 'C'; }
    FieldAt(ls, "Upgrade", 3);
  }

  // ---------------------------------------------------------------------------
  // The upgrade handshake.

  /** The first header whose lower-cased name is `lowerName`. */
  function FindHeader(headers: seq<Header>, lowerName: string): (r: Option<Header>)
    ensures r.None? <==> forall j :: 0 <= j < |headers| ==> Lower(headers[j].name) != lowerName
    ensures r.Some? ==> exists j :: 0 <= j < |headers| && headers[j] == r.value
                          && Lower(r.value.name) == lowerName
                          && forall k :: 0 <= k < j ==> Lower(headers[k].name) != lowerName
  {
    if headers == [] then None
    else if Lower(headers[0].name) == lowerName then
      Some(headers[0])
    else
      var r := FindHeader(headers[1..], lowerName);
      if r.Some? then
        var j :| 0 <= j < |headers[1..]| && headers[1..][j] == r.value
                 && Lower(r.value.name) == lowerName
                 && forall k :: 0 <= k < j ==> Lower(headers[1..][k].name) != lowerName;
        assert headers[j + 1] == r.value;
        assert forall k :: 0 <= k < j + 1 ==> Lower(headers[k].name) != lowerName by {
          forall k | 0 <= k < j + 1
            ensures Lower(headers[k].name) != lowerName
          {
            if k > 0 {
              assert headers[k] == headers[1..][k - 1];
            }
          }
        }
        r
      else
        r
  }

  /** A header the upgrade requires, with the value it must contain. */
  datatype Required = Required(name: string, value: string)

  const RequiredHeaders: seq<Required> :=
    [Required("Upgrade", "websocket"), Required("Connection", "Upgrade"), Required("Sec-WebSocket-Version", "13")]

  /** The check for one required header: the first header with that name,
      compared case-insensitively, has a UTF-8 value that contains the
      expected value, both lower-cased. Containment, so that
      `Connection: keep-alive, Upgrade` passes. */
  predicate HeaderPasses(headers: seq<Header>, req: Required)
  {
    match FindHeader(headers, Lower(req.name))
    case None => false
    case Some(h) =>
      match Utf8.Decode(h.value)
      case None => false
      case Some(s) => Contains(Lower(s), Lower(req.value))
  }

  predicate AllRequiredPass(headers: seq<Header>)
  {
    forall k :: 0 <= k < |RequiredHeaders| ==> HeaderPasses(headers, RequiredHeaders[k])
  }

  lemma LowerAppend(a: string, b: string)
    ensures Lower(a + b) == Lower(a) + Lower(b)
  {
    assert forall i :: 0 <= i < |a + b| ==> Lower(a + b)[i] == (Lower(a) + Lower(b))[i];
  }

  /** The check is containment, not equality: a header whose value lists
      the expected token among others (`Connection: keep-alive, Upgrade`)
      passes. */
  lemma ListedValuePasses(headers: seq<Header>, req: Required, before: string, after: string)
    requires FindHeader(headers, Lower(req.name)).Some?
    requires Utf8.Decode(FindHeader(headers, Lower(req.name)).value.value) == Some(before + req.value + after)
    ensures HeaderPasses(headers, req)
  {
    LowerAppend(before + req.value, after);
    LowerAppend(before, req.value);
    var hay := Lower(before + req.value + after);
    assert hay == Lower(before) + Lower(req.value) + Lower(after);
    assert hay[|before|..|before| + |req.value|] == Lower(req.value);
    assert OccursAt(hay, Lower(req.value), |before|);
    OccursContains(hay, Lower(req.value), |before|);
  }

  /** `handle_upgrade_request`: check the required headers in turn, stopping
      at the first that fails; then look for the key. It answers 101 with
      the accept token exactly when every check passes and a key is present,
      and 400 with the error page otherwise. */
  method HandleUpgradeRequest(headers: seq<Header>, sha1: seq<byte> -> seq<byte>, base64: seq<byte> -> string)
    returns (code: nat, upgraded: bool, written: seq<byte>)
    ensures upgraded <==> AllRequiredPass(headers) && FindHeader(headers, "sec-websocket-key").Some?
    ensures upgraded ==> code == 101
                         && written == WriteUpgradeResponse(sha1, base64, FindHeader(headers, "sec-websocket-key").value.value)
    ensures !upgraded ==> code == 400 && written == WriteError(BadRequest)
  {
    var valid := true;
    var i := 0;
    while i < |RequiredHeaders|
      invariant 0 <= i <= |RequiredHeaders|
      invariant valid
      invariant forall k :: 0 <= k < i ==> HeaderPasses(headers, RequiredHeaders[k])
    {
      var req := RequiredHeaders[i];
      var found := FindHeader(headers, Lower(req.name));
      if found.None? {
        valid := false;
      } else {
        var expected := Lower(req.value);
        var text := Utf8.Decode(found.value.value);
        valid := text.Some? && Contains(Lower(text.value), expected);
      }
      assert valid == HeaderPasses(headers, req);
      if !valid {
        break;
      }
      i := i + 1;
    }
    written := [];
    if valid {
      var key := FindHeader(headers, "sec-websocket-key");
      if key.Some? {
        written := WriteUpgradeResponse(sha1, base64, key.value.value);
        valid := true;
      } else {
        valid := false;
      }
    }
    if !valid {
      written := WriteError(BadRequest);
      return 400, valid, written;
    } else {
      return 101, valid, written;
    }
  }

  // ---------------------------------------------------------------------------
  // Routing.

  /** `handle_connection` once the request has been parsed: `path` is the
      parsed path, `None` when the parser gave up. `images` is the image
      list; `indexHtml` and `indexJs` are the two pages compiled into the
      server. */
  method HandleConnection(path: Option<string>, headers: seq<Header>, images: map<string, seq<byte>>,
                          indexHtml: string, indexJs: string,
                          sha1: seq<byte> -> seq<byte>, base64: seq<byte> -> string)
    returns (code: nat, upgraded: bool, written: seq<byte>)
    ensures upgraded ==> code == 101 && path == Some("/websocket")
    ensures path.None? ==> code == 400 && written == WriteError(BadRequest)
    ensures path.Some? && "/img/" <= path.value ==>
              var name := path.value[5..];
              && (name in images ==> code == 200 && written == WriteResponse(200, "OK", "image/png", images[name]))
              && (name !in images ==> code == 404 && written == WriteError(NotFound))
    ensures path == Some("/websocket") ==>
              && (upgraded <==> AllRequiredPass(headers) && FindHeader(headers, "sec-websocket-key").Some?)
              && (upgraded ==>
                    written == WriteUpgradeResponse(sha1, base64, FindHeader(headers, "sec-websocket-key").value.value))
              && (!upgraded ==> code == 400 && written == WriteError(BadRequest))
    ensures path == Some("/") ==> code == 200 && written == WriteTextResponse(200, "OK", "text/html", indexHtml)
    ensures path == Some("/index.js") ==>
              code == 200 && written == WriteTextResponse(200, "OK", "text/javascript", indexJs)
    ensures path.Some? && !("/img/" <= path.value) && path.value !in {"/websocket", "/", "/index.js"} ==>
              code == 404 && written == WriteError(NotFound)
  {
    assert !("/img/" <= "/websocket") by { assert "/websocket"[1] != "/img/"[1]; }
    assert !("/img/" <= "/index.js") by { assert "/index.js"[2] != "/img/"[2]; }
    assert "/index.js" != "/" && "/websocket" != "/" && "/websocket" != "/index.js";
    if path.Some? && "/img/" <= path.value {
      var imageName := path.value[5..];
      if imageName in images {
        code := 200;
        written := WriteResponse(200, "OK", "image/png", images[imageName]);
      } else {
        code := NotFound.code;
        written := WriteError(NotFound);
      }
      upgraded := false;
    } else if path == Some("/websocket") {
      code, upgraded, written := HandleUpgradeRequest(headers, sha1, base64);
    } else {
      if path == Some("/") {
        written := WriteTextResponse(200, "OK", "text/html", indexHtml);
        code := 200;
      } else if path == Some("/index.js") {
        written := WriteTextResponse(200, "OK", "text/javascript", indexJs);
        code := 200;
      } else if path.Some? {
        written := WriteError(NotFound);
        code := NotFound.code;
      } else {
        written := WriteError(BadRequest);
        code := BadRequest.code;
      }
      upgraded := false;
    }
  }
}
