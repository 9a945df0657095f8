/*
 * The unofficial Claude web client (claude_api_CS.py): the MIME type chosen
 * for an attachment, the request headers, the decoder of the streamed reply
 * and the status checks of two conversation requests.  The network requests
 * themselves are not modelled; their answers are inputs.
 */
module ClaudeApi {
  import opened Wrappers
  import opened Strings

  // ---------------------------------------------------------------------------
  // Content types

  /** The four members of the `ContentType` enumeration. */
  datatype ContentType = Pdf | Txt | Csv | OctetStream
  {
    /** The member's value, a MIME type. */
    function Value(): string
    {
      match this
      case Pdf => "application/pdf"
      case Txt => "text/plain"
      case Csv => "text/csv"
      case OctetStream => "application/octet-stream"
    }

    /** The member's name. */
    function Name(): string
    {
      match this
      case Pdf => "PDF"
      case Txt => "TXT"
      case Csv => "CSV"
      case OctetStream => "OCTET_STREAM"
    }
  }

  /** `ContentType[key]` when `key in ContentType.__members__`: lookup by member name. */
  function MemberNamed(key: string): (r: Option<ContentType>)
    ensures r.Some? ==> r.value.Name() == key
    ensures r.None? <==> forall t: ContentType :: t.Name() != key
  {
    if key == "PDF" then Some(Pdf)
    else if key == "TXT" then Some(Txt)
    else if key == "CSV" then Some(Csv)
    else if key == "OCTET_STREAM" then Some(OctetStream)
    else None
  }

  /** Index of the last `c` in `s`, or -1 (Python's `str.rfind`). */
  function LastIndexOf(s: string, c: char): (i: int)
    ensures -1 <= i < |s|
    ensures i >= 0 ==> s[i] == c
    ensures forall k :: i < k < |s| ==> s[k] != c
  {
    if s == [] then -1
    else if s[|s| - 1] == c then |s| - 1
    else LastIndexOf(s[..|s| - 1], c)
  }

  /** Whether `s` has a character other than `.`: the loop of `splitext`
      that skips the leading dots of the last path component. */
  predicate HasNonDot(s: string)
  {
    s != [] && (s[0] != '.' || HasNonDot(s[1..]))
  }

  lemma {:induction false} HasNonDotAt(s: string, k: nat)
    requires k < |s| && s[k] != '.'
    ensures HasNonDot(s)
  {
    if s[0] == '.' {
      HasNonDotAt(s[1..], k - 1);
    }
  }

  /** `path[d..]` is the extension `splitext` reports: `d` holds the last
      `.` of the last path component, and that component has a character
      other than `.` before it. */
  predicate ExtensionAt(path: string, d: int)
  {
    0 <= d < |path| && path[d] == '.'
    && (forall k :: d < k < |path| ==> path[k] != '.' && path[k] != '/')
    && exists k :: 0 <= k < d && path[k] != '.' && forall m :: k <= m < d ==> path[m] != '/'
  }

  /** The second half of POSIX `os.path.splitext`: from the last `.` of the
      last path component, provided that component has a character other
      than `.` before it (so `.bashrc` and `..` have no extension). */
  function Extension(path: string): (ext: string)
    ensures ext != [] <==> exists d :: ExtensionAt(path, d)
    ensures ext != [] ==> ExtensionAt(path, |path| - |ext|) && ext == path[|path| - |ext|..]
  {
    var sep := LastIndexOf(path, '/');
    var dot := LastIndexOf(path, '.');
    var found := dot > sep && HasNonDot(path[sep + 1..dot]);
    ExtensionCases(path, sep, dot);
    if found then
      assert |path| - |path[dot..]| == dot;
      path[dot..]
    else
      []
  }

  /** The test `splitext` makes holds exactly when an extension exists, and
      then the extension starts at the last `.`. */
  lemma ExtensionCases(path: string, sep: int, dot: int)
    requires sep == LastIndexOf(path, '/') && dot == LastIndexOf(path, '.')
    ensures dot > sep && HasNonDot(path[sep + 1..dot]) <==> exists d :: ExtensionAt(path, d)
    ensures dot > sep && HasNonDot(path[sep + 1..dot]) ==> ExtensionAt(path, dot)
  {
    if dot > sep && HasNonDot(path[sep + 1..dot]) {
      ExtensionFound(path, sep, dot);
    }
    if d :| ExtensionAt(path, d) {
      ExtensionIsLastDot(path, sep, dot, d);
    }
  }

  lemma ExtensionFound(path: string, sep: int, dot: int)
    requires sep == LastIndexOf(path, '/') && dot == LastIndexOf(path, '.')
    requires dot > sep && HasNonDot(path[sep + 1..dot])
    ensures ExtensionAt(path, dot)
  {
    var base := path[sep + 1..dot];
    var i := NonDotIndex(base);
    var k := sep + 1 + i;
    assert path[k] == base[i];
    assert forall m :: k <= m < dot ==> path[m] != '/';
  }

  lemma ExtensionIsLastDot(path: string, sep: int, dot: int, d: int)
    requires sep == LastIndexOf(path, '/') && dot == LastIndexOf(path, '.')
    requires ExtensionAt(path, d)
    ensures d == dot && dot > sep && HasNonDot(path[sep + 1..dot])
  {
    var k :| 0 <= k < d && path[k] != '.' && forall m :: k <= m < d ==> path[m] != '/';
    assert d <= dot;
    assert path[dot] == '.';
    assert dot <= d;
    if sep >= 0 {
      assert path[sep] == '/';
    }
    assert sep < k;
    var base := path[sep + 1..dot];
    assert base[k - sep - 1] == path[k];
    HasNonDotAt(base, k - sep - 1);
  }

  /** An index of a character other than `.`. */
  lemma {:induction false} NonDotIndex(s: string) returns (i: nat)
    requires HasNonDot(s)
    ensures i < |s| && s[i] != '.'
  {
    if s[0] == '.' {
      var j := NonDotIndex(s[1..]);
      i := j + 1;
    } else {
      i := 0;
    }
  }

  function LowerChar(c: char): char
  {
    if 'A' <= c <= 'Z' then (c as int + 32) as char else c
  }

  function UpperChar(c: char): char
  {
    if 'a' <= c <= 'z' then (c as int - 32) as char else c
  }

  /** `str.lower`, on ASCII letters. */
  function Lower(s: string): (r: string)
    ensures |r| == |s| && forall k :: 0 <= k < |s| ==> r[k] == LowerChar(s[k])
  {
    seq(|s|, k requires 0 <= k < |s| => LowerChar(s[k]))
  }

  /** `str.upper`, on ASCII letters. */
  function Upper(s: string): (r: string)
    ensures |r| == |s| && forall k :: 0 <= k < |s| ==> r[k] == UpperChar(s[k])
  {
    seq(|s|, k requires 0 <= k < |s| => UpperChar(s[k]))
  }

  /** `extension[1:].upper()` for `extension = splitext(path)[-1].lower()`. */
  function ExtensionKey(filePath: string): (key: string)
    ensures Extension(filePath) == [] ==> key == []
    ensures Extension(filePath) != [] ==> key == Upper(Extension(filePath)[1..])
    ensures forall k :: 0 <= k < |key| ==> key[k] != '.' && key[k] != '/'
  {
    var ext := Extension(filePath);
    var extension := Lower(ext);
    if extension == [] then []
    else
      ExtensionTail(filePath);
      assert extension[1..] == Lower(ext[1..]);
      UpperOfLower(ext[1..]);
      Upper(extension[1..])
  }

  /** After its leading `.`, an extension holds neither `.` nor `/`. */
  lemma ExtensionTail(filePath: string)
    ensures forall k :: 1 <= k < |Extension(filePath)| ==>
      Extension(filePath)[k] != '.' && Extension(filePath)[k] != '/'
  {
    var ext := Extension(filePath);
    if ext != [] {
      var d := |filePath| - |ext|;
      assert ExtensionAt(filePath, d);
      forall k | 1 <= k < |ext|
        ensures ext[k] != '.' && ext[k] != '/'
      {
        assert ext[k] == filePath[d + k];
      }
    }
  }

  /** `_get_content_type`: the MIME type of a file, by its extension and
      regardless of case; octet-stream for any other extension or none. */
  function GetContentType(filePath: string): (mime: string)
    ensures mime in {"application/pdf", "text/plain", "text/csv", "application/octet-stream"}
    ensures mime == "application/pdf" <==> ExtensionKey(filePath) == "PDF"
    ensures mime == "text/plain" <==> ExtensionKey(filePath) == "TXT"
    ensures mime == "text/csv" <==> ExtensionKey(filePath) == "CSV"
    ensures mime == "application/octet-stream" <==> ExtensionKey(filePath) !in {"PDF", "TXT", "CSV"}
  {
    match MemberNamed(ExtensionKey(filePath))
    case Some(t) => t.Value()
    case None => OctetStream.Value()
  }

  lemma UpperOfLower(s: string)
    ensures Upper(Lower(s)) == Upper(s)
  {
    assert forall k :: 0 <= k < |s| ==> UpperChar(LowerChar(s[k])) == UpperChar(s[k]);
  }

  /** The extension of `stem.ext`, when the last path component of `stem`
      does not end in `.`, is `.ext`. */
  lemma ExtensionOfStemAndExt(stem: string, ext: string)
    requires stem != [] && stem[|stem| - 1] != '.' && stem[|stem| - 1] != '/'
    requires forall k :: 0 <= k < |ext| ==> ext[k] != '.' && ext[k] != '/'
    ensures Extension(stem + "." + ext) == "." + ext
  {
    var path := stem + "." + ext;
    var n := |stem|;
    StemAndExtShape(stem, ext);
    var e := Extension(path);
    var d := |path| - |e|;
    assert ExtensionAt(path, d);
    ExtensionAtUnique(path, d, n);
  }

  /** The characters of `stem.ext` around and after its last `.`. */
  lemma StemAndExtShape(stem: string, ext: string)
    requires stem != [] && stem[|stem| - 1] != '.' && stem[|stem| - 1] != '/'
    requires forall k :: 0 <= k < |ext| ==> ext[k] != '.' && ext[k] != '/'
    ensures var path := stem + "." + ext; var n := |stem|;
      path[n..] == "." + ext && ExtensionAt(path, n)
  {
    var path := stem + "." + ext;
    var n := |stem|;
    forall k | n < k < |path|
      ensures path[k] != '.' && path[k] != '/'
    {
      assert path[k] == ext[k - n - 1];
    }
    assert path[n] == '.';
    assert path[n - 1] == stem[n - 1];
    assert forall m :: n - 1 <= m < n ==> path[m] != '/';
  }

  /** A path has at most one extension start. */
  lemma ExtensionAtUnique(path: string, d: int, d': int)
    requires ExtensionAt(path, d) && ExtensionAt(path, d')
    ensures d == d'
  {
  }

  /** A file named `stem.ext` gets the type its extension names, in any case. */
  lemma ContentTypeOfStemAndExt(stem: string, ext: string)
    requires stem != [] && stem[|stem| - 1] != '.' && stem[|stem| - 1] != '/'
    requires forall k :: 0 <= k < |ext| ==> ext[k] != '.' && ext[k] != '/'
    ensures GetContentType(stem + "." + ext) ==
      if Upper(ext) == "PDF" then "application/pdf"
      else if Upper(ext) == "TXT" then "text/plain"
      else if Upper(ext) == "CSV" then "text/csv"
      else "application/octet-stream"
  {
    ExtensionOfStemAndExt(stem, ext);
    assert Lower("." + ext)[1..] == Lower(ext);
    UpperOfLower(ext);
    assert ExtensionKey(stem + "." + ext) == Upper(ext);
  }

  /** A path without `.` gets octet-stream. */
  lemma ContentTypeWithoutDot(path: string)
    requires forall k :: 0 <= k < |path| ==> path[k] != '.'
    ensures GetContentType(path) == "application/octet-stream"
  {
    assert LastIndexOf(path, '.') == -1;
  }

  /** A dotfile such as `dir/.csv` has no extension, so it gets octet-stream
      whatever follows the dot. */
  lemma ContentTypeOfDotfile(dir: string, name: string)
    requires forall k :: 0 <= k < |name| ==> name[k] != '.' && name[k] != '/'
    ensures GetContentType(dir + "/." + name) == "application/octet-stream"
  {
    var path := dir + "/." + name;
    var n := |dir|;
    assert path[n] == '/' && path[n + 1] == '.';
    assert forall k :: n + 1 < k < |path| ==> path[k] == name[k - n - 2];
    assert LastIndexOf(path, '/') == n;
    assert LastIndexOf(path, '.') == n + 1;
    assert path[n + 1..n + 1] == [];
  }

  // ---------------------------------------------------------------------------
  // Headers

  const UserAgent := "Mozilla/5.0 (Macintosh; Intel Mac OS X 10_15_7) AppleWebKit/537.36 (KHTML, like Gecko) Chrome/110.0.0.0 Safari/537.36"

  /** A client: the session cookie it was created with and the organization
      id it looked up (the lookup is a network request, so it is an input). */
  datatype Client = Client(cookie: string, organizationId: string)

  /** The six headers every request carries. */
  function DefaultHeaders(cookie: string): (h: map<string, string>)
    ensures h.Keys == {"User-Agent", "Accept-Language", "Referer", "Content-Type", "Connection", "Cookie"}
    ensures h["Cookie"] == cookie && h["User-Agent"] == UserAgent
  {
    map["User-Agent" := UserAgent,
        "Accept-Language" := "en-US,en;q=0.5",
        "Referer" := "https://claude.ai/chats",
        "Content-Type" := "application/json",
        "Connection" := "keep-alive",
        "Cookie" := cookie]
  }

  /** `_get_headers`: the defaults, updated in place with the extra headers
      when there are any.  Every default key stays; an extra header replaces
      the default of the same name and adds the others. */
  method GetHeaders(client: Client, extraHeaders: Option<map<string, string>>) returns (headers: map<string, string>)
    ensures extraHeaders.None? ==> headers == DefaultHeaders(client.cookie)
    ensures extraHeaders.Some? ==> headers.Keys == DefaultHeaders(client.cookie).Keys + extraHeaders.value.Keys
    ensures forall key :: key in headers ==>
      headers[key] == if extraHeaders.Some? && key in extraHeaders.value then extraHeaders.value[key]
                      else DefaultHeaders(client.cookie)[key]
  {
    headers := DefaultHeaders(client.cookie);
    if extraHeaders.Some? && |extraHeaders.value| > 0 {
      headers := headers + extraHeaders.value;
    }
  }

  // ---------------------------------------------------------------------------
  // Streamed reply

  /** The characters Python's `str.strip()` removes. */
  predicate IsPySpace(c: char)
  {
    ('\t' <= c <= '\r') || ('\U{1C}' <= c <= ' ') || c == '\U{85}' || c == '\U{A0}'
    || c == '\U{1680}' || ('\U{2000}' <= c <= '\U{200A}') || c == '\U{2028}' || c == '\U{2029}'
    || c == '\U{202F}' || c == '\U{205F}' || c == '\U{3000}'
  }

  const DataMarker := "data: "

  /** A JSON value, as far as the decoder looks at it. */
  datatype JsonValue = JString(text: string) | JOther

  /** What `json.loads` made of a payload: a parse error, an object, or
      another JSON value (array, string, number, literal). */
  datatype Payload = Malformed | JsonObject(fields: map<string, JsonValue>) | JsonNonObject

  /** The exceptions the decoder lets escape: `data['type']` on a
      non-object (TypeError), a missing `type` or `completion` key
      (KeyError), and a non-string completion at the final join (TypeError). */
  datatype StreamError = NotSubscriptable | MissingType | MissingCompletion | CompletionNotString

  /** What one line does to the decoder. */
  datatype LineEffect = Skip | Append(value: JsonValue) | Raise(error: StreamError)

  /** The effect of a parsed payload. */
  function PayloadEffect(data: Payload): (e: LineEffect)
    ensures e.Append? <==> data.JsonObject? && "type" in data.fields && data.fields["type"] == JString("completion")
                           && "completion" in data.fields
    ensures e.Append? ==> e.value == data.fields["completion"]
    ensures e.Raise? <==> data.JsonNonObject? || (data.JsonObject? && "type" !in data.fields)
                          || (data.JsonObject? && "type" in data.fields && data.fields["type"] == JString("completion")
                              && "completion" !in data.fields)
    ensures data.JsonNonObject? ==> e == Raise(NotSubscriptable)
    ensures data.JsonObject? && "type" !in data.fields ==> e == Raise(MissingType)
    ensures (data.JsonObject? && "type" in data.fields && data.fields["type"] == JString("completion")
             && "completion" !in data.fields) ==> e == Raise(MissingCompletion)
  {
    match data
    case Malformed => Skip
    case JsonNonObject => Raise(NotSubscriptable)
    case JsonObject(fields) =>
      if "type" !in fields then Raise(MissingType)
      else if fields["type"] != JString("completion") then Skip
      else if "completion" !in fields then Raise(MissingCompletion)
      else Append(fields["completion"])
  }

  /** `line[i..j]` is what `strip()` leaves of `line` (only whitespace
      outside it, none at its ends), and it starts with the marker. */
  predicate DataLineAt(line: string, i: int, j: int)
  {
    0 <= i <= j <= |line|
    && (forall k :: 0 <= k < i ==> IsPySpace(line[k]))
    && (forall k :: j <= k < |line| ==> IsPySpace(line[k]))
    && StartsWith(line[i..j], DataMarker) && !IsPySpace(line[j - 1])
  }

  /** The effect of one raw line: a line whose stripped text starts with
      `data: ` is parsed from the character after the marker; every other
      line, the empty one included, is skipped. */
  function LineEffectOf(line: string, parse: string -> Payload): (e: LineEffect)
    ensures forall i, j :: DataLineAt(line, i, j) ==> e == PayloadEffect(parse(line[i + 6..j]))
    ensures (forall i, j :: !DataLineAt(line, i, j)) ==> e == Skip
  {
    DataLineCases(line);
    if line == [] then Skip
    else
      var decodedLine := Strip(line, IsPySpace);
      if !StartsWith(decodedLine, DataMarker) then Skip
      else PayloadEffect(parse(decodedLine[6..]))
  }

  /** A data line is what `strip()` leaves of the line, and a line whose
      stripped text starts with the marker is a data line. */
  lemma DataLineCases(line: string)
    ensures line != [] && StartsWith(Strip(line, IsPySpace), DataMarker) ==> exists i, j :: DataLineAt(line, i, j)
    ensures forall i, j :: DataLineAt(line, i, j) ==>
      line != [] && Strip(line, IsPySpace) == line[i..j] && Strip(line, IsPySpace)[6..] == line[i + 6..j]
  {
    if line != [] && StartsWith(Strip(line, IsPySpace), DataMarker) {
      StrippedDataLine(line);
    }
    forall i, j | DataLineAt(line, i, j)
      ensures line != [] && Strip(line, IsPySpace) == line[i..j] && Strip(line, IsPySpace)[6..] == line[i + 6..j]
    {
      DataLineIsStripped(line, i, j);
    }
  }

  lemma StrippedDataLine(line: string)
    requires StartsWith(Strip(line, IsPySpace), DataMarker)
    ensures exists i, j :: DataLineAt(line, i, j)
  {
    var r := Strip(line, IsPySpace);
    var i0, j0 := StripBounds(line, IsPySpace);
    SliceDataLine(line, r, i0, j0);
  }

  /** A stripped slice that starts with the marker is a data line. */
  lemma SliceDataLine(line: string, r: string, i0: int, j0: int)
    requires 0 <= i0 <= j0 <= |line| && r == line[i0..j0]
    requires forall k :: 0 <= k < i0 ==> IsPySpace(line[k])
    requires forall k :: j0 <= k < |line| ==> IsPySpace(line[k])
    requires r == [] || !IsPySpace(r[|r| - 1])
    requires StartsWith(r, DataMarker)
    ensures DataLineAt(line, i0, j0)
  {
    assert line[j0 - 1] == r[|r| - 1];
  }

  lemma DataLineIsStripped(line: string, i: int, j: int)
    requires DataLineAt(line, i, j)
    ensures line != [] && Strip(line, IsPySpace) == line[i..j] && Strip(line, IsPySpace)[6..] == line[i + 6..j]
  {
    var r := Strip(line, IsPySpace);
    var i0, j0 :| (0 <= i0 <= j0 <= |line| && r == line[i0..j0]
      && (forall k :: 0 <= k < i0 ==> IsPySpace(line[k])) && (forall k :: j0 <= k < |line| ==> IsPySpace(line[k])));
    SliceIsDataLine(line, i, j, r, i0, j0);
  }

  /** A stripped slice `r` of a line that also has the data line `[i, j)`
      is that data line. */
  lemma SliceIsDataLine(line: string, i: int, j: int, r: string, i0: int, j0: int)
    requires DataLineAt(line, i, j)
    requires 0 <= i0 <= j0 <= |line| && r == line[i0..j0]
    requires forall k :: 0 <= k < i0 ==> IsPySpace(line[k])
    requires forall k :: j0 <= k < |line| ==> IsPySpace(line[k])
    requires r == [] || (!IsPySpace(r[0]) && !IsPySpace(r[|r| - 1]))
    ensures line != [] && r == line[i..j] && r[6..] == line[i + 6..j]
  {
    assert i0 < j0 ==> line[i0] == r[0] && line[j0 - 1] == r[|r| - 1];
    StrippedBoundsUnique(line, i, j, i0, j0);
    assert line[i..j][6..] == line[i + 6..j];
  }

  /** Only one slice of a line is its stripped text. */
  lemma StrippedBoundsUnique(line: string, i: int, j: int, i0: int, j0: int)
    requires DataLineAt(line, i, j)
    requires 0 <= i0 <= j0 <= |line|
    requires forall k :: 0 <= k < i0 ==> IsPySpace(line[k])
    requires forall k :: j0 <= k < |line| ==> IsPySpace(line[k])
    requires i0 == j0 || (!IsPySpace(line[i0]) && !IsPySpace(line[j0 - 1]))
    ensures i == i0 && j == j0
  {
    assert line[i] == line[i..j][0] == 'd';
    assert !IsPySpace(line[i]);
    assert i0 <= i < j0;
    assert i == i0;
    assert j == j0;
  }

  /** Line `k` is the first line of `lines` that raises. */
  predicate RaisesFirstAt(lines: seq<string>, parse: string -> Payload, k: int)
  {
    0 <= k < |lines| && LineEffectOf(lines[k], parse).Raise?
    && forall m :: 0 <= m < k ==> !LineEffectOf(lines[m], parse).Raise?
  }

  /** The number of lines that carry a completion event. */
  function CompletionLineCount(lines: seq<string>, parse: string -> Payload): (n: nat)
    ensures n <= |lines|
  {
    if lines == [] then 0
    else CompletionLineCount(lines[..|lines| - 1], parse)
         + (if LineEffectOf(lines[|lines| - 1], parse).Append? then 1 else 0)
  }

  /** The completions collected from `lines`, in order, or the first error
      a line raises. */
  function Collect(lines: seq<string>, parse: string -> Payload): (r: Result<seq<JsonValue>, StreamError>)
    ensures r.Success? ==> |r.value| == CompletionLineCount(lines, parse)
  {
    if lines == [] then Success([])
    else
      match Collect(lines[..|lines| - 1], parse)
      case Failure(e) => Failure(e)
      case Success(acc) =>
        match LineEffectOf(lines[|lines| - 1], parse)
        case Skip => Success(acc)
        case Append(v) => Success(acc + [v])
        case Raise(e) => Failure(e)
  }

  /** Collecting fails exactly when some line raises, and then with the
      error of the first such line. */
  lemma {:induction false} CollectRaisesFirst(lines: seq<string>, parse: string -> Payload)
    ensures Collect(lines, parse).Failure? <==> exists k :: 0 <= k < |lines| && LineEffectOf(lines[k], parse).Raise?
    ensures Collect(lines, parse).Failure? ==>
      exists k :: RaisesFirstAt(lines, parse, k) && LineEffectOf(lines[k], parse).error == Collect(lines, parse).error
    decreases |lines|
  {
    if lines != [] {
      var n := |lines| - 1;
      var init, last := lines[..n], lines[n];
      assert lines == init + [last];
      CollectRaisesFirst(init, parse);
      RaisesInPrefix(init, last, parse);
      if Collect(init, parse).Failure? {
        var k :| RaisesFirstAt(init, parse, k) && LineEffectOf(init[k], parse).error == Collect(init, parse).error;
        RaisesFirstInPrefix(init, last, parse, k);
      } else if LineEffectOf(last, parse).Raise? {
        RaisesFirstAtLast(init, last, parse);
      }
    }
  }

  /** Some line raises exactly when a line before the last does or the last does. */
  lemma RaisesInPrefix(init: seq<string>, last: string, parse: string -> Payload)
    ensures (exists k :: 0 <= k < |init + [last]| && LineEffectOf((init + [last])[k], parse).Raise?) <==>
      (exists k :: 0 <= k < |init| && LineEffectOf(init[k], parse).Raise?) || LineEffectOf(last, parse).Raise?
  {
    assert forall k :: 0 <= k < |init| ==> (init + [last])[k] == init[k];
    assert (init + [last])[|init|] == last;
  }

  /** The first line of a prefix that raises is the first line of the whole that raises. */
  lemma RaisesFirstInPrefix(init: seq<string>, last: string, parse: string -> Payload, k: int)
    requires RaisesFirstAt(init, parse, k)
    ensures RaisesFirstAt(init + [last], parse, k) && (init + [last])[k] == init[k]
  {
    assert forall m :: 0 <= m <= k ==> (init + [last])[m] == init[m];
  }

  /** The last line raises first when no line before it raises. */
  lemma RaisesFirstAtLast(init: seq<string>, last: string, parse: string -> Payload)
    requires LineEffectOf(last, parse).Raise?
    requires !exists k :: 0 <= k < |init| && LineEffectOf(init[k], parse).Raise?
    ensures RaisesFirstAt(init + [last], parse, |init|)
  {
    assert forall m :: 0 <= m < |init| ==> (init + [last])[m] == init[m];
    assert (init + [last])[|init|] == last;
  }

  /** `"".join(values)`: fails on the first value that is not a string. */
  function Join(values: seq<JsonValue>): (r: Result<string, StreamError>)
    ensures r.Failure? <==> exists k :: 0 <= k < |values| && values[k].JOther?
    ensures r.Failure? ==> r.error == CompletionNotString
  {
    if values == [] then Success("")
    else if values[0].JOther? then Failure(CompletionNotString)
    else
      match Join(values[1..])
      case Success(s) => Success(values[0].text + s)
      case Failure(e) => Failure(e)
  }

  /** What `_process_stream_response` returns (Success) or raises (Failure). */
  function DecodeStream(lines: seq<string>, parse: string -> Payload): Result<string, StreamError>
  {
    match Collect(lines, parse)
    case Success(values) => Join(values)
    case Failure(e) => Failure(e)
  }

  /** `_process_stream_response`: reads the lines in order, appending each
      completion, and joins them at the end. */
  method ProcessStreamResponse(lines: seq<string>, parse: string -> Payload) returns (r: Result<string, StreamError>)
    ensures r == DecodeStream(lines, parse)
  {
    var gptResponse: seq<JsonValue> := [];
    var i := 0;
    while i < |lines|
      invariant 0 <= i <= |lines|
      invariant Collect(lines[..i], parse) == Success(gptResponse)
    {
      var effect := DecodeLine(lines[i], parse);
      CollectStep(lines, i, parse);
      i := i + 1;
      match effect {
        case Skip =>
        case Append(completion) =>
          gptResponse := gptResponse + [completion];
        case Raise(e) =>
          CollectPrefixFailure(lines, i, parse);
          return Failure(e);
      }
    }
    assert lines[..i] == lines;
    r := Join(gptResponse);
  }

  /** Collecting one more line of `lines`. */
  lemma CollectStep(lines: seq<string>, i: nat, parse: string -> Payload)
    requires i < |lines|
    ensures Collect(lines[..i + 1], parse) ==
      match Collect(lines[..i], parse)
      case Failure(e) => Failure(e)
      case Success(acc) =>
        match LineEffectOf(lines[i], parse)
        case Skip => Success(acc)
        case Append(v) => Success(acc + [v])
        case Raise(e) => Failure(e)
  {
    assert lines[..i + 1][..i] == lines[..i];
    assert lines[..i + 1][i] == lines[i];
  }

  /** A failure on a prefix is the failure of the whole stream. */
  lemma CollectPrefixFailure(lines: seq<string>, i: nat, parse: string -> Payload)
    requires i <= |lines| && Collect(lines[..i], parse).Failure?
    ensures Collect(lines, parse) == Collect(lines[..i], parse)
  {
    CollectFailureSticks(lines[..i], lines[i..], parse);
    assert lines[..i] + lines[i..] == lines;
  }

  /** The body of the decoder's loop for one line, in the imperative form
      the source writes it: skip it, take its completion, or raise.  It is
      proved to compute `LineEffectOf`, the specification the lemmas use. */
  method DecodeLine(line: string, parse: string -> Payload) returns (effect: LineEffect)
    ensures effect == LineEffectOf(line, parse)
  {
    if line == [] {
      return Skip;
    }
    var decodedLine := Strip(line, IsPySpace);
    if !StartsWith(decodedLine, DataMarker) {
      return Skip;
    }
    var data := parse(decodedLine[6..]);
    match data {
      case Malformed =>
        effect := Skip;
      case JsonNonObject =>
        effect := Raise(NotSubscriptable);
      case JsonObject(fields) =>
        if "type" !in fields {
          effect := Raise(MissingType);
        } else if fields["type"] != JString("completion") {
          effect := Skip;
        } else if "completion" !in fields {
          effect := Raise(MissingCompletion);
        } else {
          effect := Append(fields["completion"]);
        }
    }
  }

  // ---------------------------------------------------------------------------
  // Properties of the decoder

  /** Once a line raises, later lines change nothing. */
  lemma {:induction false} CollectFailureSticks(a: seq<string>, b: seq<string>, parse: string -> Payload)
    requires Collect(a, parse).Failure?
    ensures Collect(a + b, parse) == Collect(a, parse)
    decreases |b|
  {
    if b == [] {
      assert a + b == a;
    } else {
      var c := b[..|b| - 1];
      CollectFailureSticks(a, c, parse);
      assert (a + b)[..|a + b| - 1] == a + c;
    }
  }

  /** Collecting two pieces of a stream is collecting each and concatenating. */
  lemma {:induction false} CollectAppend(a: seq<string>, b: seq<string>, parse: string -> Payload)
    requires Collect(a, parse).Success?
    ensures Collect(a + b, parse) ==
      match Collect(b, parse)
      case Success(vs) => Success(Collect(a, parse).value + vs)
      case Failure(e) => Failure(e)
    decreases |b|
  {
    var x := Collect(a, parse).value;
    if b == [] {
      assert a + b == a;
      assert x + [] == x;
    } else {
      var c, last := b[..|b| - 1], b[|b| - 1];
      CollectAppend(a, c, parse);
      assert (a + b)[..|a + b| - 1] == a + c;
      assert (a + b)[|a + b| - 1] == last;
      match Collect(c, parse)
      case Failure(_) =>
      case Success(vs) =>
        assert Collect(a + c, parse) == Success(x + vs);
        match LineEffectOf(last, parse)
        case Append(v) =>
          assert x + vs + [v] == x + (vs + [v]);
        case _ =>
    }
  }

  lemma {:induction false} JoinAppend(x: seq<JsonValue>, y: seq<JsonValue>)
    requires Join(x).Success? && Join(y).Success?
    ensures Join(x + y) == Success(Join(x).value + Join(y).value)
    decreases |x|
  {
    if x == [] {
      assert x + y == y;
      assert "" + Join(y).value == Join(y).value;
    } else {
      var xy := x + y;
      assert xy[0] == x[0];
      assert xy[1..] == x[1..] + y;
      JoinAppend(x[1..], y);
      var a, b, c := x[0].text, Join(x[1..]).value, Join(y).value;
      assert Join(xy) == Success(a + (b + c));
      assert a + (b + c) == (a + b) + c;
    }
  }

  /** Decoding a stream in two pieces and concatenating the texts gives the
      text of the whole stream. */
  lemma DecodeConcat(a: seq<string>, b: seq<string>, parse: string -> Payload)
    requires DecodeStream(a, parse).Success? && DecodeStream(b, parse).Success?
    ensures DecodeStream(a + b, parse) == Success(DecodeStream(a, parse).value + DecodeStream(b, parse).value)
  {
    CollectAppend(a, b, parse);
    JoinAppend(Collect(a, parse).value, Collect(b, parse).value);
  }

  /** A skipped line (empty, not a data line, malformed JSON, another event
      type) can be removed without changing the result. */
  lemma SkippedLineIrrelevant(a: seq<string>, line: string, b: seq<string>, parse: string -> Payload)
    requires LineEffectOf(line, parse) == Skip
    ensures DecodeStream(a + [line] + b, parse) == DecodeStream(a + b, parse)
  {
    assert (a + [line])[..|a + [line]| - 1] == a;
    if Collect(a, parse).Failure? {
      CollectFailureSticks(a + [line], b, parse);
      CollectFailureSticks(a, b, parse);
    } else {
      CollectAppend(a + [line], b, parse);
      CollectAppend(a, b, parse);
    }
  }

  /** The text a line contributes when nothing goes wrong. */
  function Contribution(line: string, parse: string -> Payload): string
  {
    match LineEffectOf(line, parse)
    case Append(JString(t)) => t
    case _ => ""
  }

  /** The concatenated contributions of all lines, the decoder's intended
      result. */
  function Contributions(lines: seq<string>, parse: string -> Payload): string
  {
    if lines == [] then "" else Contributions(lines[..|lines| - 1], parse) + Contribution(lines[|lines| - 1], parse)
  }

  /** A line that makes the decoder raise, now or at the final join. */
  predicate IsBadLine(line: string, parse: string -> Payload)
  {
    LineEffectOf(line, parse).Raise? || LineEffectOf(line, parse) == Append(JOther)
  }

  /** One more line: the decoder still succeeds exactly when it did and the
      line is not bad, and then the line's contribution is appended. */
  lemma DecodeStep(init: seq<string>, last: string, parse: string -> Payload)
    ensures DecodeStream(init + [last], parse).Success? <==> DecodeStream(init, parse).Success? && !IsBadLine(last, parse)
    ensures DecodeStream(init + [last], parse).Success? ==>
      DecodeStream(init + [last], parse).value == DecodeStream(init, parse).value + Contribution(last, parse)
  {
    var lines := init + [last];
    assert lines[..|lines| - 1] == init;
    assert lines[|lines| - 1] == last;
    if Collect(init, parse).Success? {
      var vs := Collect(init, parse).value;
      match LineEffectOf(last, parse)
      case Skip =>
        if Join(vs).Success? {
          assert Join(vs).value + "" == Join(vs).value;
        }
      case Raise(_) =>
      case Append(v) =>
        assert Collect(lines, parse) == Success(vs + [v]);
        if v.JOther? {
          assert (vs + [v])[|vs|].JOther?;
        } else {
          assert Join([v]) == Success(v.text) by {
            assert [v][1..] == [];
            assert v.text + "" == v.text;
          }
          if Join(vs).Success? {
            JoinAppend(vs, [v]);
          } else {
            var k :| 0 <= k < |vs| && vs[k].JOther?;
            assert (vs + [v])[k] == vs[k];
          }
        }
    }
  }

  /** The decoder succeeds exactly when no line is bad, and then returns the
      in-order concatenation of the completions. */
  lemma {:induction false} DecodeIsContributions(lines: seq<string>, parse: string -> Payload)
    ensures DecodeStream(lines, parse).Success? <==> forall k :: 0 <= k < |lines| ==> !IsBadLine(lines[k], parse)
    ensures DecodeStream(lines, parse).Success? ==> DecodeStream(lines, parse).value == Contributions(lines, parse)
    decreases |lines|
  {
    if lines != [] {
      var init := lines[..|lines| - 1];
      var last := lines[|lines| - 1];
      DecodeIsContributions(init, parse);
      assert init + [last] == lines;
      DecodeStep(init, last, parse);
      NoBadLineSplit(init, last, parse);
    }
  }

  /** No line is bad exactly when no line before the last is and the last is not. */
  lemma NoBadLineSplit(init: seq<string>, last: string, parse: string -> Payload)
    ensures (forall k :: 0 <= k < |init + [last]| ==> !IsBadLine((init + [last])[k], parse)) <==>
      (forall k :: 0 <= k < |init| ==> !IsBadLine(init[k], parse)) && !IsBadLine(last, parse)
  {
    assert forall k :: 0 <= k < |init| ==> (init + [last])[k] == init[k];
    assert (init + [last])[|init|] == last;
  }

  /** A line that is exactly the marker and a payload ending in a visible
      character is parsed from its seventh character. */
  lemma DataLinePayload(payload: string, parse: string -> Payload)
    requires payload != [] && !IsPySpace(payload[|payload| - 1])
    ensures LineEffectOf(DataMarker + payload, parse) == PayloadEffect(parse(payload))
  {
    var line := DataMarker + payload;
    assert line[0] == 'd';
    assert line[|line| - 1] == payload[|payload| - 1];
    var n := LeadingCount(line, IsPySpace);
    assert n == 0;
    var lead := line[n..];
    assert lead == line;
    assert TrailingCount(lead, IsPySpace) == 0;
    assert Strip(line, IsPySpace) == line;
    assert line[..6] == DataMarker;
    assert line[6..] == payload;
  }

  /** `data:` without the space is not a data line. */
  lemma MarkerWithoutSpaceSkipped(rest: string, parse: string -> Payload)
    requires rest == [] || rest[0] != ' '
    ensures LineEffectOf("data:" + rest, parse) == Skip
  {
    var line := "data:" + rest;
    assert LeadingCount(line, IsPySpace) == 0;
    assert line[0..] == line;
    var stripped := Strip(line, IsPySpace);
    assert stripped == line[..|stripped|];
    assert |stripped| >= 6 ==> stripped[..6][5] == stripped[5] == line[5] == rest[0];
  }

  /** Two completion events around an empty line give their texts joined,
      as "Hi" and " there" give "Hi there". */
  lemma TwoCompletionEvents(p1: string, t1: string, p2: string, t2: string, parse: string -> Payload)
    requires p1 != [] && !IsPySpace(p1[|p1| - 1]) && p2 != [] && !IsPySpace(p2[|p2| - 1])
    requires parse(p1) == JsonObject(map["type" := JString("completion"), "completion" := JString(t1)])
    requires parse(p2) == JsonObject(map["type" := JString("completion"), "completion" := JString(t2)])
    ensures DecodeStream([DataMarker + p1, "", DataMarker + p2], parse) == Success(t1 + t2)
  {
    var l1, l3 := DataMarker + p1, DataMarker + p2;
    CompletionLine(p1, t1, parse);
    CompletionLine(p2, t2, parse);
    assert DecodeStream([], parse) == Success("");
    DecodeAppendCompletion([], "", l1, t1, parse);
    assert [] + [l1] == [l1] && "" + t1 == t1;
    assert LineEffectOf("", parse) == Skip;
    SkippedLineIrrelevant([l1], "", [], parse);
    assert [l1] + [""] + [] == [l1, ""] && [l1] + [] == [l1];
    DecodeAppendCompletion([l1, ""], t1, l3, t2, parse);
    assert [l1, ""] + [l3] == [l1, "", l3];
  }

  /** A completion line after a successfully decoded prefix appends its text. */
  lemma DecodeAppendCompletion(init: seq<string>, s: string, line: string, t: string, parse: string -> Payload)
    requires DecodeStream(init, parse) == Success(s)
    requires LineEffectOf(line, parse) == Append(JString(t))
    ensures DecodeStream(init + [line], parse) == Success(s + t)
  {
    DecodeStep(init, line, parse);
  }

  /** A completion event line contributes its completion text. */
  lemma CompletionLine(p: string, t: string, parse: string -> Payload)
    requires p != [] && !IsPySpace(p[|p| - 1])
    requires parse(p) == JsonObject(map["type" := JString("completion"), "completion" := JString(t)])
    ensures LineEffectOf(DataMarker + p, parse) == Append(JString(t))
    ensures Contribution(DataMarker + p, parse) == t && !IsBadLine(DataMarker + p, parse)
  {
    DataLinePayload(p, parse);
  }

  // ---------------------------------------------------------------------------
  // Status checks

  /** `delete_conversation` reports success only for 204 No Content. */
  function DeleteConversationSucceeded(statusCode: int): (ok: bool)
    ensures ok <==> statusCode == 204
  {
    statusCode == 204
  }

  /** `rename_chat` reports success only for 200 OK. */
  function RenameChatSucceeded(statusCode: int): (ok: bool)
    ensures ok <==> statusCode == 200
  {
    statusCode == 200
  }
}
