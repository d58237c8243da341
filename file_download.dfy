/** What the NextCloud client writes when it forwards a downloaded file: the
    status decision and the fixed list of response headers. The output is a
    log of `header()` lines and `echo`ed text, in the order they are written. */
module FileDownload {
  import opened PhpStrings

  datatype Option<T> = None | Some(value: T)

  /** The answer of the WebDAV transport to a GET: the status code (already an
      integer), each header name (lower case) with its list of values, and the
      raw body. */
  datatype GetResponse = GetResponse(statusCode: int, headers: map<string, seq<string>>, body: string)

  /** One piece of output: a `header()` line or text written with `echo`. */
  datatype OutputEvent = Header(line: string) | Echo(text: string)

  /** `$headers[name][0]`: the first value of a header. A missing header or an
      empty value list reads as PHP null, which concatenates as "". */
  function FirstHeaderValue(headers: map<string, seq<string>>, name: string): (v: string)
    ensures name in headers && headers[name] != [] ==> v == headers[name][0]
    ensures v == "" || (name in headers && headers[name] != [] && v == headers[name][0])
  {
    if name in headers && |headers[name]| > 0 then headers[name][0] else ""
  }

  /** What is echoed instead of the file when the GET did not answer 200. */
  const NotFoundText: string := "404\n"

  /** The field names of the header lines written for a successful download,
      in the order they are written. */
  const DownloadHeaderNames: seq<string> :=
    ["Content-Type", "Content-Disposition", "Expires", "Cache-Control", "Pragma", "Content-Length"]

  /** The text put before the file name in the `Content-Disposition` value. */
  const AttachmentPrefix: string := "attachment; filename="

  /** A header line `name: value`, as `header('Name: ' . $value)` writes it. */
  function HeaderLine(name: string, value: string): (line: string)
    ensures |line| == |name| + 2 + |value|
    ensures line[..|name|] == name && line[|name|..|name| + 2] == ": "
    ensures line[|name| + 2..] == value
  {
    name + ": " + value
  }

  /** The values of the download headers, one per name of
      `DownloadHeaderNames`: the transport's first content type, the
      attachment with the requested file's basename, the three fixed cache
      settings and the transport's first content length. */
  function DownloadHeaderValues(filePath: string, contents: GetResponse): (v: seq<string>)
    ensures |v| == |DownloadHeaderNames|
  {
    [ FirstHeaderValue(contents.headers, "content-type"),
      AttachmentPrefix + Basename(filePath),
      "0",
      "must-revalidate",
      "public",
      FirstHeaderValue(contents.headers, "content-length") ]
  }

  /** The six header lines of a successful download, in the order they are written. */
  function DownloadHeaders(filePath: string, contents: GetResponse): (h: seq<OutputEvent>)
    ensures |h| == |DownloadHeaderNames|
    ensures forall i :: 0 <= i < |h| ==>
              h[i].Header? &&
              HeaderValue(DownloadHeaderNames[i], h[i].line) == Some(DownloadHeaderValues(filePath, contents)[i])
  {
    var values := DownloadHeaderValues(filePath, contents);
    seq(|DownloadHeaderNames|, i requires 0 <= i < |DownloadHeaderNames| =>
      Header(HeaderLine(DownloadHeaderNames[i], values[i])))
  }

  /** Everything `sendFile` writes for the answer `contents` to a GET of
      `filePath`: "404\n" alone when the status is not 200, otherwise the six
      download headers followed by the body. */
  function SendFileOutput(filePath: string, contents: GetResponse): (events: seq<OutputEvent>)
    ensures contents.statusCode != 200 ==> events == [Echo(NotFoundText)]
    ensures contents.statusCode == 200 ==>
              |events| == 7 && events[6] == Echo(contents.body) && events[..6] == DownloadHeaders(filePath, contents)
  {
    if contents.statusCode != 200 then [Echo(NotFoundText)]
    else
      DownloadHeaders(filePath, contents) + [Echo(contents.body)]
  }

  /** The field name of a header line: everything before its first `:`. */
  function FieldName(line: string): (name: string)
    ensures |name| <= |line| && ':' !in name
    decreases |line|
  {
    if line == [] || line[0] == ':' then [] else [line[0]] + FieldName(line[1..])
  }

  /** The field names of the header lines in `events`, in order. */
  function HeaderNames(events: seq<OutputEvent>): (names: seq<string>)
    ensures |names| <= |events|
    decreases |events|
  {
    if events == [] then []
    else
      (if events[0].Header? then [FieldName(events[0].line)] else []) + HeaderNames(events[1..])
  }

  /** The value of the header line `line` when its field is `name`. */
  function HeaderValue(name: string, line: string): (v: Option<string>)
  {
    var head := name + ": ";
    if |head| <= |line| && line[..|head|] == head then Some(line[|head|..]) else None
  }

  /** A header line written for a colon-free field name gives that name back. */
  lemma {:induction false} FieldNameOfLine(name: string, value: string)
    requires ':' !in name
    ensures FieldName(HeaderLine(name, value)) == name
    decreases |name|
  {
    var line := HeaderLine(name, value);
    if name == [] {
      assert line[0] == ':';
    } else {
      assert line[0] == name[0] && line[1..] == HeaderLine(name[1..], value);
      assert name[0] in name;
      assert ':' !in name[1..] by {
        assert forall c :: c in name[1..] ==> c in name;
      }
      FieldNameOfLine(name[1..], value);
      assert [name[0]] + name[1..] == name;
    }
  }

  /** Reading a header line back under its own field name gives its value. */
  lemma HeaderValueOfLine(name: string, value: string)
    ensures HeaderValue(name, HeaderLine(name, value)) == Some(value)
  {
    var line := HeaderLine(name, value);
    assert line == (name + ": ") + value;
    assert line[..|name + ": "|] == name + ": ";
  }

  /** The download as a receiving browser reads it off the output: the content
      type, the file name offered for saving, the announced length and the body. */
  datatype Download = Download(contentType: string, fileName: string, contentLength: string, body: string)

  /** Reads a download back from the output: six header lines in the fixed
      order with the fixed cache headers, then the body; anything else is None. */
  function ReadDownload(events: seq<OutputEvent>): (d: Option<Download>)
  {
    if |events| != 7 || !events[0].Header? || !events[1].Header? || !events[2].Header? ||
       !events[3].Header? || !events[4].Header? || !events[5].Header? || !events[6].Echo? ||
       events[2].line != HeaderLine("Expires", "0") ||
       events[3].line != HeaderLine("Cache-Control", "must-revalidate") ||
       events[4].line != HeaderLine("Pragma", "public")
    then None
    else
      match (HeaderValue("Content-Type", events[0].line),
             HeaderValue("Content-Disposition", events[1].line),
             HeaderValue("Content-Length", events[5].line))
      case (Some(t), Some(disposition), Some(l)) =>
        if |AttachmentPrefix| <= |disposition| && disposition[..|AttachmentPrefix|] == AttachmentPrefix
        then Some(Download(t, disposition[|AttachmentPrefix|..], l, events[6].text))
        else None
      case _ => None
  }

  /** On status 200 the output is the download of the body, under the
      requested file's basename, with the transport's first content type and
      content length copied verbatim; on any other status it is no download. */
  lemma SendFileDelivers(filePath: string, contents: GetResponse)
    ensures ReadDownload(SendFileOutput(filePath, contents)) ==
            if contents.statusCode == 200 then
              Some(Download(FirstHeaderValue(contents.headers, "content-type"), Basename(filePath),
                            FirstHeaderValue(contents.headers, "content-length"), contents.body))
            else None
  {
    if contents.statusCode == 200 {
      var t := FirstHeaderValue(contents.headers, "content-type");
      var l := FirstHeaderValue(contents.headers, "content-length");
      var disposition := AttachmentPrefix + Basename(filePath);
      HeaderValueOfLine("Content-Type", t);
      HeaderValueOfLine("Content-Disposition", disposition);
      HeaderValueOfLine("Content-Length", l);
      assert disposition[..|AttachmentPrefix|] == AttachmentPrefix;
      assert disposition[|AttachmentPrefix|..] == Basename(filePath);
    }
  }

  /** Filtering the header lines of a concatenation filters each part. */
  lemma {:induction false} HeaderNamesAppend(a: seq<OutputEvent>, b: seq<OutputEvent>)
    ensures HeaderNames(a + b) == HeaderNames(a) + HeaderNames(b)
    decreases |a|
  {
    if a == [] {
      assert a + b == b;
    } else {
      assert (a + b)[0] == a[0] && (a + b)[1..] == a[1..] + b;
      HeaderNamesAppend(a[1..], b);
    }
  }

  /** A run of header lines whose field names are `names`, one per line, has
      exactly those names. */
  lemma {:induction false} HeaderNamesOfHeaders(h: seq<OutputEvent>, names: seq<string>)
    requires |h| == |names|
    requires forall i :: 0 <= i < |h| ==> h[i].Header? && FieldName(h[i].line) == names[i]
    ensures HeaderNames(h) == names
    decreases |h|
  {
    if h != [] {
      HeaderNamesOfHeaders(h[1..], names[1..]);
      assert [names[0]] + names[1..] == names;
    }
  }

  /** No download header name holds a colon. */
  lemma DownloadHeaderNamesColonFree()
    ensures forall i :: 0 <= i < |DownloadHeaderNames| ==> ':' !in DownloadHeaderNames[i]
  {
    forall i | 0 <= i < |DownloadHeaderNames| ensures ':' !in DownloadHeaderNames[i] {
      if i == 0 {} else if i == 1 {} else if i == 2 {} else if i == 3 {} else if i == 4 {} else {}
    }
  }

  /** The field names of the six download headers, in order. */
  lemma DownloadHeaderFieldNames(filePath: string, contents: GetResponse)
    ensures HeaderNames(DownloadHeaders(filePath, contents)) == DownloadHeaderNames
  {
    var h := DownloadHeaders(filePath, contents);
    var values := DownloadHeaderValues(filePath, contents);
    DownloadHeaderNamesColonFree();
    forall i | 0 <= i < |h|
      ensures h[i].Header? && FieldName(h[i].line) == DownloadHeaderNames[i]
    {
      FieldNameOfLine(DownloadHeaderNames[i], values[i]);
    }
    HeaderNamesOfHeaders(h, DownloadHeaderNames);
  }

  /** On status 200 exactly the six download headers are written, in their
      fixed order; on any other status no header is written at all. */
  lemma SendFileHeaderOrder(filePath: string, contents: GetResponse)
    ensures HeaderNames(SendFileOutput(filePath, contents)) ==
            if contents.statusCode == 200 then DownloadHeaderNames else []
  {
    var events := SendFileOutput(filePath, contents);
    if contents.statusCode == 200 {
      var body := [Echo(contents.body)];
      HeaderNamesAppend(DownloadHeaders(filePath, contents), body);
      assert HeaderNames(body) == [] by {
        assert body[1..] == [];
      }
      DownloadHeaderFieldNames(filePath, contents);
    } else {
      assert events[1..] == [];
    }
  }

  /** The PHP output stream of one request: every `header()` line and every
      `echo`ed text, in the order they were written. Nothing is ever taken
      back out of it. */
  class OutputLog {
    var events: seq<OutputEvent>

    constructor ()
      ensures events == []
    {
      events := [];
    }

    /** `header(line)`. */
    method WriteHeader(line: string)
      modifies this
      ensures events == old(events) + [Header(line)]
    {
      events := events + [Header(line)];
    }

    /** `echo text`. */
    method WriteText(text: string)
      modifies this
      ensures events == old(events) + [Echo(text)]
    {
      events := events + [Echo(text)];
    }
  }
}
