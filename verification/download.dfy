/**
 * `download_firmware` (api/ota.py): the firmware download route, with its
 * hand-written handling of the `Range` request header as the handler does
 * it: no 416 of its own, no bounds check, `bytes=` deleted wherever it
 * occurs, and `f.seek(start); f.read(end - start + 1)` clipped at end of file.
 * A present but empty header is not the handler's to parse: it goes to
 * `send_file`, whose conditional-response processing rejects it.
 */
module Download {
  import opened Wrappers
  import opened Text
  import opened Http

  /** The firmware directory: file name to file contents. */
  type FileStore = map<string, seq<byte>>

  /** The largest signed 64-bit integer: seek targets are C `off_t` and read
      sizes C `Py_ssize_t`, and a larger Python int makes the call raise. */
  const INT64_MAX: int := 0x7FFF_FFFF_FFFF_FFFF

  /** The exceptions the partial-content path can raise; each becomes a 500. */
  datatype Fault =
    | NotAnInteger(text: string)       // int() of a range part that is not a numeral
    | OffsetOutOfRange(offset: int)    // f.seek(start) with start beyond off_t
    | LengthOutOfRange(length: int)    // f.read(length) with length beyond Py_ssize_t
    | NegativeReadLength(length: int)  // f.read(length) with length below -1
    | RangeNotSatisfiable(size: nat)   // send_file given a Range header it cannot parse

  /** The start and end the handler computes; `end` is -1 for an empty file
      with no end given, and nothing keeps it at or above `start`. */
  datatype RangeSpec = RangeSpec(start: nat, end: int)

  function Min(a: int, b: int): int { if a <= b then a else b }

  function Max(a: int, b: int): int { if a >= b then a else b }

  // ---------------------------------------------------------------------------
  // Parsing the Range header
  // ---------------------------------------------------------------------------

  /** `int(text)` on a non-empty part. */
  function ParseInt(text: string): Result<nat, Fault>
  {
    if IsNumeral(text) then Success(DigitsValue(text)) else Failure(NotAnInteger(text))
  }

  /** `range_header.replace('bytes=', '').split('-')`. */
  function RangeParts(header: string): (parts: seq<string>)
    ensures |parts| >= 1
  {
    Split(RemoveAll(header, "bytes="), '-')
  }

  /** The start and end the handler derives from a non-empty Range header on a
      file of `fileSize` bytes: an empty first part means 0, a missing or empty
      second part means `fileSize - 1`, later parts are ignored. */
  function ParseRange(header: string, fileSize: nat): (r: Result<RangeSpec, Fault>)
    ensures r.Success? ==> r.value.end >= -1
    ensures r.Success? && fileSize > 0 ==> r.value.end >= 0
  {
    var parts := RangeParts(header);
    var startOrFault := if parts[0] == "" then Success(0) else ParseInt(parts[0]);
    if startOrFault.Failure? then Failure(startOrFault.error)
    else
      var endText := if |parts| > 1 then parts[1] else "";
      if endText == "" then Success(RangeSpec(startOrFault.value, fileSize - 1))
      else
        match ParseInt(endText)
        case Failure(f) => Failure(f)
        case Success(end) => Success(RangeSpec(startOrFault.value, end))
  }

  // ---------------------------------------------------------------------------
  // Reading a span of the file
  // ---------------------------------------------------------------------------

  /** `f.seek(start); f.read(length)` on a file holding `data`, with CPython's
      buffered reader: -1 reads to end of file, anything below -1 raises, and a
      read that runs past the end of the file returns what is there. */
  function ReadAt(data: seq<byte>, start: nat, length: int): (r: Result<seq<byte>, Fault>)
    ensures r.Success? <==> start <= INT64_MAX && -1 <= length <= INT64_MAX
    ensures r.Success? ==>
      |r.value| == (if length == -1 || start + length > |data| then Max(0, |data| - start) else length)
    ensures r.Success? ==> forall i :: 0 <= i < |r.value| ==> start + i < |data| && r.value[i] == data[start + i]
  {
    if start > INT64_MAX then Failure(OffsetOutOfRange(start))
    else if length > INT64_MAX || length < -INT64_MAX - 1 then Failure(LengthOutOfRange(length))
    else if length < -1 then Failure(NegativeReadLength(length))
    else
      var from := Min(start, |data|);
      var to := if length == -1 then |data| else Min(start + length, |data|);
      Success(data[from..to])
  }

  // ---------------------------------------------------------------------------
  // The responses
  // ---------------------------------------------------------------------------

  /** `Content-Range` as the handler formats it: `bytes <start>-<end>/<size>`. */
  function ContentRangeValue(start: nat, end: int, size: nat): string
  {
    "bytes " + NatToString(start) + "-" + IntToString(end) + "/" + NatToString(size)
  }

  /** The headers the handler sets on a 206 response. */
  function PartialHeaders(start: nat, end: int, size: nat, length: int): map<string, string>
  {
    map[
      "Content-Range" := ContentRangeValue(start, end, size),
      "Accept-Ranges" := "bytes",
      "Content-Length" := IntToString(length),
      "Content-Type" := OCTET_STREAM,
      "Access-Control-Allow-Origin" := "*"
    ]
  }

  /** The `except Exception as e` branch: 500 with an error object. */
  function ServerError(f: Fault): (r: Response)
    ensures r.status == 500 && r.body.Object? && r.body.fields.Keys == {"error"}
  {
    JsonResponse(500, map["error" := JStr(FaultMessage(f))])
  }

  function FaultMessage(f: Fault): string
  {
    match f
    case NotAnInteger(text) => "invalid literal for int(): " + text
    case OffsetOutOfRange(_) => "seek offset does not fit in a 64-bit integer"
    case LengthOutOfRange(_) => "read length does not fit in a 64-bit integer"
    case NegativeReadLength(_) => "read length must be non-negative or -1"
    case RangeNotSatisfiable(_) => "416 Requested Range Not Satisfiable: The server cannot provide the requested range."
  }

  const NOT_FOUND: Response := JsonResponse(404, map["error" := JStr("Firmware not found")])

  /** `send_file(...)` for a request without a Range header. */
  function FullFile(data: seq<byte>): Response
  {
    Response(200, map["Content-Type" := OCTET_STREAM], Octets(data))
  }

  /** `send_file(...)` for a request whose Range header is present but empty,
      so falsy for the handler: `send_file` answers conditionally, and for a
      non-empty file it finds a Range header that does not parse and raises
      416, which the handler's `except` turns into a 500. An empty file has
      no ranges to process and is sent whole. */
  function EmptyRangeToSendFile(data: seq<byte>): Response
  {
    if |data| == 0 then FullFile(data) else ServerError(RangeNotSatisfiable(|data|))
  }

  /** The Range branch, lines 125-150. */
  function PartialFile(data: seq<byte>, header: string): Response
  {
    match ParseRange(header, |data|)
    case Failure(f) => ServerError(f)
    case Success(spec) =>
      var length := spec.end - spec.start + 1;
      match ReadAt(data, spec.start, length)
      case Failure(f) => ServerError(f)
      case Success(chunk) => Response(206, PartialHeaders(spec.start, spec.end, |data|, length), Octets(chunk))
  }

  /** `download_firmware(filename)`: the whole handler. */
  function DownloadFirmware(verb: Method, store: FileStore, filename: string, rangeHeader: Option<string>): (resp: Response)
    ensures verb == Options ==> resp == Preflight()
    ensures verb != Options && filename !in store ==> resp == NOT_FOUND
    ensures resp.status in {200, 204, 206, 404, 500}
    ensures resp.status == 200 ==>
      && filename in store && resp.body == Octets(store[filename])
      && (rangeHeader.None? || |store[filename]| == 0)
    ensures resp.status == 206 ==>
      && filename in store && rangeHeader.Some? && rangeHeader.value != ""
      && resp.headers.Keys >= {"Content-Range", "Accept-Ranges", "Content-Length"}
      && resp.headers["Accept-Ranges"] == "bytes"
      && resp.body.Octets? && |resp.body.bytes| <= |store[filename]|
  {
    if verb == Options then Preflight()
    else if filename !in store then NOT_FOUND
    else if rangeHeader.None? then FullFile(store[filename])
    else if rangeHeader.value == "" then EmptyRangeToSendFile(store[filename])
    else PartialFile(store[filename], rangeHeader.value)
  }

  // ---------------------------------------------------------------------------
  // What the handler does with particular headers
  // ---------------------------------------------------------------------------

  /** The header a client writes for bytes `first` through `last`. */
  function RangeRequest(first: nat, last: nat): string
  {
    "bytes=" + NatToString(first) + "-" + NatToString(last)
  }

  /** A missing file is a 404 whatever the Range header says. */
  lemma MissingFileIgnoresRange(store: FileStore, filename: string, h1: Option<string>, h2: Option<string>)
    requires filename !in store
    ensures DownloadFirmware(Get, store, filename, h1) == DownloadFirmware(Get, store, filename, h2)
    ensures DownloadFirmware(Get, store, filename, h1).status == 404
    ensures DownloadFirmware(Get, store, filename, h1).body == Object(map["error" := JStr("Firmware not found")])
  {
  }

  /** Without a Range header, or with an empty one, the body is the whole file. */
  lemma NoRangeServesWholeFile(store: FileStore, filename: string, header: Option<string>)
    requires filename in store
    requires header.None? || (header.value == "" && |store[filename]| == 0)
    ensures DownloadFirmware(Get, store, filename, header).status == 200
    ensures BodyBytes(DownloadFirmware(Get, store, filename, header)) == store[filename]
  {
  }

  /** A present but empty Range header on a non-empty file: `send_file`
      raises 416 Requested Range Not Satisfiable, and the handler answers 500
      with that error. */
  lemma EmptyRangeHeaderIsServerError(store: FileStore, filename: string)
    requires filename in store && |store[filename]| > 0
    ensures var resp := DownloadFirmware(Get, store, filename, Some(""));
      && resp.status == 500
      && resp.body == Object(map["error" := JStr(FaultMessage(RangeNotSatisfiable(|store[filename]|)))])
  {
  }

  /** `int(str(n)) == n`. */
  lemma ParseIntRoundTrip(n: nat)
    ensures ParseInt(NatToString(n)) == Success(n)
  {
    NatToStringRoundTrip(n);
  }

  /** The digits and the dash of a range are untouched by the `bytes=` deletion. */
  lemma RemovePrefixOfRange(a: string, b: string)
    requires AllDigits(a) && AllDigits(b)
    ensures RemoveAll("bytes=" + (a + "-" + b), "bytes=") == a + "-" + b
  {
    RemoveAllLeading("bytes=", a + "-" + b);
    var t := a + "-" + b;
    forall i | 0 <= i < |t| ensures t[i] != 'b' {
      if i < |a| { assert t[i] == a[i]; } else if i > |a| { assert t[i] == b[i - |a| - 1]; }
    }
    RemoveAllAbsent(t, "bytes=");
  }

  /** The pieces of `a-b` when neither holds a dash. */
  lemma SplitRange(a: string, b: string)
    requires '-' !in a && '-' !in b
    ensures Split(a + "-" + b, '-') == [a, b]
  {
    SplitAfterPiece(a, '-', b);
    SplitWithoutSeparator(b, '-');
  }

  /** `bytes=<s>-<e>` is read as start `s`, end `e`, whatever the file size. */
  lemma {:induction false} ParseRangeRequest(first: nat, last: nat, fileSize: nat)
    ensures ParseRange(RangeRequest(first, last), fileSize) == Success(RangeSpec(first, last))
  {
    var a, b := NatToString(first), NatToString(last);
    assert RangeRequest(first, last) == "bytes=" + (a + "-" + b);
    RemovePrefixOfRange(a, b);
    NatToStringHasOnly(first, '-');
    NatToStringHasOnly(last, '-');
    SplitRange(a, b);
    ParseIntRoundTrip(first);
    ParseIntRoundTrip(last);
  }

  /** `bytes=<s>-` runs to the last byte of the file. */
  lemma {:induction false} ParseOpenEndedRange(first: nat, fileSize: nat)
    ensures ParseRange("bytes=" + NatToString(first) + "-", fileSize) == Success(RangeSpec(first, fileSize - 1))
  {
    var a := NatToString(first);
    assert "bytes=" + a + "-" == "bytes=" + (a + "-" + "");
    RemovePrefixOfRange(a, "");
    NatToStringHasOnly(first, '-');
    SplitRange(a, "");
    ParseIntRoundTrip(first);
  }

  /** `bytes=<s>` with no dash at all has no end part (`len(byte_range) == 1`)
      and also runs to the last byte of the file. */
  lemma {:induction false} ParseStartOnly(first: nat, fileSize: nat)
    ensures ParseRange("bytes=" + NatToString(first), fileSize) == Success(RangeSpec(first, fileSize - 1))
  {
    var a := NatToString(first);
    RemoveAllLeading("bytes=", a);
    NatToStringHasOnly(first, 'b');
    RemoveAllAbsent(a, "bytes=");
    NatToStringHasOnly(first, '-');
    SplitWithoutSeparator(a, '-');
    ParseIntRoundTrip(first);
  }

  /** `bytes=-<n>` is NOT the last `n` bytes (a suffix range in the sense of
      section 14.1.2 of RFC 9110): the handler reads it as bytes 0 through n. */
  lemma {:induction false} ParseSuffixAsPrefix(n: nat, fileSize: nat)
    ensures ParseRange("bytes=-" + NatToString(n), fileSize) == Success(RangeSpec(0, n))
  {
    var b := NatToString(n);
    assert "bytes=-" + b == "bytes=" + ("" + "-" + b);
    RemovePrefixOfRange("", b);
    NatToStringHasOnly(n, '-');
    SplitRange("", b);
    ParseIntRoundTrip(n);
  }

  /** The `bytes=` prefix is optional: deleting it first changes nothing. */
  lemma ParsePrefixOptional(header: string, fileSize: nat)
    ensures ParseRange("bytes=" + header, fileSize) == ParseRange(header, fileSize)
  {
    RemoveAllLeading("bytes=", header);
  }

  /** Text after a second dash is ignored. */
  lemma {:induction false} ParseIgnoresExtraParts(first: nat, last: nat, rest: string, fileSize: nat)
    ensures ParseRange(RangeRequest(first, last) + "-" + rest, fileSize) == Success(RangeSpec(first, last))
  {
    var a, b := NatToString(first), NatToString(last);
    var t := a + "-" + (b + "-" + rest);
    assert RangeRequest(first, last) + "-" + rest == "bytes=" + t;
    RemoveAllLeading("bytes=", t);
    NatToStringHasOnly(first, '-');
    NatToStringHasOnly(last, '-');
    NatToStringHasOnly(first, 'b');
    NatToStringHasOnly(last, 'b');
    var r := RemoveAll(rest, "bytes=");
    assert RemoveAll(b + "-" + rest, "bytes=") == b + "-" + r by {
      assert b + "-" + rest == (b + "-") + rest;
      RemoveAllDigitsPrefix(b + "-", rest);
    }
    assert RemoveAll(t, "bytes=") == a + "-" + (b + "-" + r) by {
      assert t == (a + "-") + (b + "-" + rest);
      RemoveAllDigitsPrefix(a + "-", b + "-" + rest);
    }
    SplitAfterPiece(a, '-', b + "-" + r);
    SplitAfterPiece(b, '-', r);
    assert a + "-" + (b + "-" + r) == a + ['-'] + (b + ['-'] + r);
    assert RangeParts(RangeRequest(first, last) + "-" + rest) == [a] + ([b] + Split(r, '-'));
    ParseIntRoundTrip(first);
    ParseIntRoundTrip(last);
  }

  /** A prefix without a `b` passes through the `bytes=` deletion unchanged. */
  lemma {:induction false} RemoveAllDigitsPrefix(p: string, s: string)
    requires 'b' !in p
    ensures RemoveAll(p + s, "bytes=") == p + RemoveAll(s, "bytes=")
    decreases |p|
  {
    if p != [] {
      var t := p + s;
      assert t[0] == p[0] != 'b';
      assert !(|t| >= 6 && t[..6] == "bytes=");
      assert t[1..] == p[1..] + s;
      assert 'b' !in p[1..];
      RemoveAllDigitsPrefix(p[1..], s);
      var r := RemoveAll(s, "bytes=");
      assert RemoveAll(t[1..], "bytes=") == p[1..] + r;
      assert RemoveAll(t, "bytes=") == [t[0]] + RemoveAll(t[1..], "bytes=");
      assert [p[0]] + (p[1..] + r) == p + r;
    } else {
      assert p + s == s;
    }
  }

  // ---------------------------------------------------------------------------
  // What the handler returns for each kind of range
  // ---------------------------------------------------------------------------

  /** Why a parsed header fails: a non-empty first or second part is not a numeral. */
  lemma ParseRangeFailsIff(header: string, fileSize: nat)
    ensures var parts := RangeParts(header);
      ParseRange(header, fileSize).Failure? <==>
        || (parts[0] != "" && !IsNumeral(parts[0]))
        || (|parts| > 1 && parts[1] != "" && !IsNumeral(parts[1]))
  {
  }

  /** Once the header has parsed and the read has succeeded, the handler
      answers 206 with the bytes read and the computed headers. */
  lemma PartialAfterParse(store: FileStore, filename: string, header: string, first: nat, last: int)
    requires filename in store && header != ""
    requires ParseRange(header, |store[filename]|) == Success(RangeSpec(first, last))
    requires first <= INT64_MAX && -1 <= last - first + 1 <= INT64_MAX
    ensures ReadAt(store[filename], first, last - first + 1).Success?
    ensures DownloadFirmware(Get, store, filename, Some(header))
         == Response(206, PartialHeaders(first, last, |store[filename]|, last - first + 1),
                     Octets(ReadAt(store[filename], first, last - first + 1).value))
  {
    RangeHeaderTakesRangeBranch(store, filename, header);
    RangeBranchAfterParse(store[filename], header, first, last);
  }

  /** A GET for a present file with a non-empty Range header is answered by
      the Range branch. */
  lemma RangeHeaderTakesRangeBranch(store: FileStore, filename: string, header: string)
    requires filename in store && header != ""
    ensures DownloadFirmware(Get, store, filename, Some(header)) == PartialFile(store[filename], header)
  {
  }

  /** The Range branch once the header has parsed and start and length fit. */
  lemma RangeBranchAfterParse(data: seq<byte>, header: string, first: nat, last: int)
    requires ParseRange(header, |data|) == Success(RangeSpec(first, last))
    requires first <= INT64_MAX && -1 <= last - first + 1 <= INT64_MAX
    ensures ReadAt(data, first, last - first + 1).Success?
    ensures PartialFile(data, header)
         == Response(206, PartialHeaders(first, last, |data|, last - first + 1),
                     Octets(ReadAt(data, first, last - first + 1).value))
  {
    var length := last - first + 1;
    var read := ReadAt(data, first, length);
    assert read.Success?;
    match ParseRange(header, |data|)
    case Success(spec) =>
      assert spec == RangeSpec(first, last);
      assert PartialFile(data, header) == Response(206, PartialHeaders(first, last, |data|, length), Octets(read.value));
  }

  /** A range inside the file: 206, exactly the requested bytes, and a
      Content-Length that is the number of bytes sent. */
  lemma {:induction false} InBoundsRangeIsExact(store: FileStore, filename: string, header: string, first: nat, last: nat)
    requires filename in store && header != ""
    requires ParseRange(header, |store[filename]|) == Success(RangeSpec(first, last))
    requires first <= last < |store[filename]| <= INT64_MAX
    ensures var resp := DownloadFirmware(Get, store, filename, Some(header));
      && resp.status == 206
      && resp.body == Octets(store[filename][first..last + 1])
      && |resp.body.bytes| == last - first + 1
      && resp.headers["Content-Length"] == NatToString(|resp.body.bytes|)
      && resp.headers["Content-Range"]
         == "bytes " + NatToString(first) + "-" + NatToString(last) + "/" + NatToString(|store[filename]|)
      && resp.headers["Accept-Ranges"] == "bytes"
  {
    var data := store[filename];
    var chunk := ReadAt(data, first, last - first + 1).value;
    assert chunk == data[first..last + 1];
  }

  /** The same for the header a client writes, `bytes=<first>-<last>`. */
  lemma RangeRequestIsExact(store: FileStore, filename: string, first: nat, last: nat)
    requires filename in store && first <= last < |store[filename]| <= INT64_MAX
    ensures var resp := DownloadFirmware(Get, store, filename, Some(RangeRequest(first, last)));
      && resp.status == 206
      && resp.body == Octets(store[filename][first..last + 1])
      && |resp.body.bytes| == last - first + 1
      && resp.headers["Content-Length"] == NatToString(last - first + 1)
      && resp.headers["Content-Range"] == ContentRangeValue(first, last, |store[filename]|)
      && resp.headers["Accept-Ranges"] == "bytes"
  {
    ParseRangeRequest(first, last, |store[filename]|);
    InBoundsRangeIsExact(store, filename, RangeRequest(first, last), first, last);
  }

  /** No bounds check: a range reaching past the end of the file is still a
      206, the body stops at the end of the file, and Content-Length still
      announces `last - first + 1`, more bytes than are sent. */
  lemma {:induction false} OverlongRangeIsClipped(store: FileStore, filename: string, header: string, first: nat, last: nat)
    requires filename in store && header != ""
    requires ParseRange(header, |store[filename]|) == Success(RangeSpec(first, last))
    requires first <= last && |store[filename]| <= last
    requires first <= INT64_MAX && last - first + 1 <= INT64_MAX
    ensures var resp := DownloadFirmware(Get, store, filename, Some(header));
      && resp.status == 206
      && resp.body == Octets(store[filename][Min(first, |store[filename]|)..])
      && resp.headers["Content-Length"] == NatToString(last - first + 1)
      && |resp.body.bytes| < last - first + 1
  {
    var data := store[filename];
    PartialAfterParse(store, filename, header, first, last);
    var chunk := ReadAt(data, first, last - first + 1).value;
    assert chunk == data[Min(first, |data|)..];
    assert PartialHeaders(first, last, |data|, last - first + 1)["Content-Length"] == NatToString(last - first + 1);
  }

  /** An end one below the start: `f.read(0)` sends nothing. */
  lemma {:induction false} EmptyReversedRange(store: FileStore, filename: string, header: string, first: nat)
    requires filename in store && header != ""
    requires ParseRange(header, |store[filename]|) == Success(RangeSpec(first, first - 1))
    requires first <= INT64_MAX
    ensures var resp := DownloadFirmware(Get, store, filename, Some(header));
      resp.status == 206 && resp.body == Octets([]) && resp.headers["Content-Length"] == "0"
  {
    PartialAfterParse(store, filename, header, first, first - 1);
    assert ReadAt(store[filename], first, 0).value == [];
    assert PartialHeaders(first, first - 1, |store[filename]|, 0)["Content-Length"] == NatToString(0);
  }

  /** An end two below the start: `f.read(-1)` reads to the end of the file. */
  lemma {:induction false} ReadToEndReversedRange(store: FileStore, filename: string, header: string, first: nat)
    requires filename in store && header != ""
    requires ParseRange(header, |store[filename]|) == Success(RangeSpec(first, first - 2))
    requires first <= INT64_MAX
    ensures var resp := DownloadFirmware(Get, store, filename, Some(header));
      && resp.status == 206
      && resp.body == Octets(store[filename][Min(first, |store[filename]|)..])
      && resp.headers["Content-Length"] == "-1"
  {
    var data := store[filename];
    PartialAfterParse(store, filename, header, first, first - 2);
    assert ReadAt(data, first, -1).value == data[Min(first, |data|)..];
    assert PartialHeaders(first, first - 2, |data|, -1)["Content-Length"] == ['-'] + NatToString(1);
  }

  /** No order check: an end one below the start sends nothing, an end two
      below reads to the end of the file (`f.read(-1)`) under a Content-Length
      of -1, and anything lower makes `f.read` raise. */
  lemma {:induction false} ReversedRange(store: FileStore, filename: string, header: string, first: nat, last: int)
    requires filename in store && header != ""
    requires ParseRange(header, |store[filename]|) == Success(RangeSpec(first, last))
    requires last < first <= INT64_MAX
    ensures var resp := DownloadFirmware(Get, store, filename, Some(header));
      && (last == first - 1 ==> resp.status == 206 && resp.body == Octets([]) && resp.headers["Content-Length"] == "0")
      && (last == first - 2 ==>
            && resp.status == 206
            && resp.body == Octets(store[filename][Min(first, |store[filename]|)..])
            && resp.headers["Content-Length"] == "-1")
      && (last < first - 2 ==> resp.status == 500)
  {
    if last == first - 1 {
      EmptyReversedRange(store, filename, header, first);
    } else if last == first - 2 {
      ReadToEndReversedRange(store, filename, header, first);
    } else {
      var length := last - first + 1;
      assert ReadAt(store[filename], first, length) == Failure(NegativeReadLength(length));
    }
  }

  /** `bytes=<s>-` with `s` at or past the end of the file: the end defaults
      to the last byte, so the length is `size - s`, zero or negative. At the
      end the read sends nothing; one past it, `f.read(-1)` sends nothing
      under a Content-Length of -1; further on the read raises, giving 500. */
  lemma {:induction false} OpenEndedPastEnd(store: FileStore, filename: string, first: nat)
    requires filename in store && |store[filename]| <= first
    ensures var resp := DownloadFirmware(Get, store, filename, Some("bytes=" + NatToString(first) + "-"));
      && (first == |store[filename]| && first <= INT64_MAX ==>
            resp.status == 206 && resp.body == Octets([]) && resp.headers["Content-Length"] == "0")
      && (first == |store[filename]| + 1 && first <= INT64_MAX ==>
            resp.status == 206 && resp.body == Octets([]) && resp.headers["Content-Length"] == "-1")
      && (first >= |store[filename]| + 2 ==> resp.status == 500)
  {
    var data := store[filename];
    var header := "bytes=" + NatToString(first) + "-";
    ParseOpenEndedRange(first, |data|);
    if first <= INT64_MAX {
      ReversedRange(store, filename, header, first, |data| - 1);
    } else {
      RangeHeaderTakesRangeBranch(store, filename, header);
      assert ReadAt(data, first, |data| - first) == Failure(OffsetOutOfRange(first));
    }
  }

  /** A part `int()` rejects ends in the 500 branch. */
  lemma NonNumericRangeIsServerError(store: FileStore, filename: string, header: string)
    requires filename in store && header != ""
    requires ParseRange(header, |store[filename]|).Failure?
    ensures DownloadFirmware(Get, store, filename, Some(header)).status == 500
    ensures DownloadFirmware(Get, store, filename, Some(header)).body.Object?
  {
  }

  /** The header the repository's client sends. */
  lemma ExampleFirstKilobyte()
    ensures ParseRange("bytes=0-1023", 2048) == Success(RangeSpec(0, 1023))
  {
    assert NatToString(1023) == "1023";
    assert "bytes=0-1023" == RangeRequest(0, 1023);
    ParseRangeRequest(0, 1023, 2048);
  }

  /** An open-ended header on a 2048-byte file. */
  lemma ExampleOpenEnded()
    ensures ParseRange("bytes=1024-", 2048) == Success(RangeSpec(1024, 2047))
  {
    assert NatToString(1024) == "1024";
    assert "bytes=1024-" == "bytes=" + NatToString(1024) + "-";
    ParseOpenEndedRange(1024, 2048);
  }

  /** A header with neither number is the whole file, not an error. */
  lemma ExampleBothOmitted()
    ensures ParseRange("bytes=-", 2048) == Success(RangeSpec(0, 2047))
  {
    RemoveAllLeading("bytes=", "-");
    RemoveAllAbsent("-", "bytes=");
    assert "-" == "" + "-" + "";
    SplitRange("", "");
  }

  /** A suffix range asking for the last 500 bytes gets the first 501. */
  lemma ExampleSuffix()
    ensures ParseRange("bytes=-500", 2048) == Success(RangeSpec(0, 500))
  {
    assert NatToString(500) == "500";
    assert "bytes=-500" == "bytes=-" + NatToString(500);
    ParseSuffixAsPrefix(500, 2048);
  }

  /** A letter where a number belongs is an error. */
  lemma ExampleNonNumeric()
    ensures ParseRange("bytes=x-5", 2048) == Failure(NotAnInteger("x"))
  {
    RemoveAllLeading("bytes=", "x-5");
    RemoveAllAbsent("x-5", "bytes=");
    assert "x-5" == "x" + "-" + "5";
    SplitRange("x", "5");
  }

  /** Half of a 2048-byte file fetched as one chunk. */
  lemma {:induction false} ChunkExample(store: FileStore, filename: string)
    requires filename in store && |store[filename]| == 2048
    ensures var resp := DownloadFirmware(Get, store, filename, Some("bytes=512-1023"));
      && resp.status == 206
      && |BodyBytes(resp)| == 512
      && BodyBytes(resp) == store[filename][512..1024]
      && resp.headers["Content-Range"] == "bytes 512-1023/2048"
      && resp.headers["Content-Length"] == "512"
  {
    ChunkExampleText();
    RangeRequestIsExact(store, filename, 512, 1023);
  }

  /** The header and the Content-Range of the chunk example, spelled out. */
  lemma ChunkExampleText()
    ensures NatToString(512) == "512"
    ensures RangeRequest(512, 1023) == "bytes=512-1023"
    ensures ContentRangeValue(512, 1023, 2048) == "bytes 512-1023/2048"
  {
    ChunkExampleNumerals();
  }

  lemma ChunkExampleNumerals()
    ensures NatToString(512) == "512" && NatToString(1023) == "1023" && NatToString(2048) == "2048"
  {
    assert NatToString(512) == "512";
    assert NatToString(1023) == "1023";
  }

  /** Asking a 2048-byte file for its first 4096 bytes: Content-Length says
      4096, and 2048 bytes follow. */
  lemma {:induction false} OverlongExample(store: FileStore, filename: string)
    requires filename in store && |store[filename]| == 2048
    ensures var resp := DownloadFirmware(Get, store, filename, Some("bytes=0-4095"));
      && resp.status == 206
      && resp.headers["Content-Length"] == "4096"
      && |BodyBytes(resp)| == 2048
  {
    assert NatToString(4096) == "4096";
    assert NatToString(4095) == "4095";
    assert RangeRequest(0, 4095) == "bytes=0-4095";
    ParseRangeRequest(0, 4095, 2048);
    OverlongRangeIsClipped(store, filename, "bytes=0-4095", 0, 4095);
  }

  /** An empty file asked for `bytes=0-`: 206 with nothing in it, and a
      Content-Range whose end is -1. */
  lemma {:induction false} EmptyFileExample(store: FileStore, filename: string)
    requires filename in store && store[filename] == []
    ensures var resp := DownloadFirmware(Get, store, filename, Some("bytes=0-"));
      && resp.status == 206
      && resp.body == Octets([])
      && resp.headers["Content-Range"] == "bytes 0--1/0"
      && resp.headers["Content-Length"] == "0"
  {
    assert "bytes=0-" == "bytes=" + NatToString(0) + "-";
    ParseOpenEndedRange(0, 0);
    ReversedRange(store, filename, "bytes=0-", 0, -1);
    PartialAfterParse(store, filename, "bytes=0-", 0, -1);
    EmptyContentRange();
  }

  lemma EmptyContentRange()
    ensures ContentRangeValue(0, -1, 0) == "bytes 0--1/0"
  {
    assert NatToString(0) == "0";
    assert IntToString(-1) == "-1";
  }

  // ---------------------------------------------------------------------------
  // A device walking the file chunk by chunk
  // ---------------------------------------------------------------------------

  /** What a device receives asking for `chunk` bytes at a time from offset
      `from`, one independent request per chunk, until it reaches the size. */
  function FetchInChunks(store: FileStore, filename: string, from: nat, chunk: nat): seq<byte>
    requires filename in store && chunk > 0
    decreases |store[filename]| - from
  {
    if from >= |store[filename]| then []
    else
      BodyBytes(DownloadFirmware(Get, store, filename, Some(RangeRequest(from, from + chunk - 1))))
      + FetchInChunks(store, filename, from + chunk, chunk)
  }

  /** One chunk request: the bytes from `from`, at most `chunk` of them. */
  lemma {:induction false} ChunkBody(store: FileStore, filename: string, from: nat, chunk: nat)
    requires filename in store && 0 < chunk <= INT64_MAX
    requires from < |store[filename]| <= INT64_MAX
    ensures BodyBytes(DownloadFirmware(Get, store, filename, Some(RangeRequest(from, from + chunk - 1))))
         == store[filename][from..Min(from + chunk, |store[filename]|)]
  {
    var data := store[filename];
    var last := from + chunk - 1;
    ParseRangeRequest(from, last, |data|);
    PartialAfterParse(store, filename, RangeRequest(from, last), from, last);
    var read := ReadAt(data, from, chunk);
    assert read.value == data[from..Min(from + chunk, |data|)];
  }

  /** One step of the walk: the chunk at `from`, then the walk from the next
      chunk on. */
  lemma FetchInChunksStep(store: FileStore, filename: string, from: nat, chunk: nat)
    requires filename in store && 0 < chunk <= INT64_MAX
    requires from < |store[filename]| <= INT64_MAX
    ensures FetchInChunks(store, filename, from, chunk)
         == store[filename][from..Min(from + chunk, |store[filename]|)] + FetchInChunks(store, filename, from + chunk, chunk)
  {
    ChunkBody(store, filename, from, chunk);
  }

  /** The walk ends once it reaches the end of the file. */
  lemma FetchInChunksDone(store: FileStore, filename: string, from: nat, chunk: nat)
    requires filename in store && chunk > 0 && |store[filename]| <= from
    ensures FetchInChunks(store, filename, from, chunk) == []
  {
  }

  /** The slices of `data` from `from` on, `chunk` bytes each, the last one
      cut at the end, laid end to end. */
  function Chunked(data: seq<byte>, from: nat, chunk: nat): seq<byte>
    requires chunk > 0
    decreases |data| - from
  {
    if from >= |data| then [] else data[from..Min(from + chunk, |data|)] + Chunked(data, from + chunk, chunk)
  }

  /** Laying the slices end to end gives back the data from `from` on. */
  lemma {:induction false} ChunkedIsSuffix(data: seq<byte>, from: nat, chunk: nat)
    requires chunk > 0 && from <= |data|
    ensures Chunked(data, from, chunk) == data[from..]
    decreases |data| - from
  {
    if from < |data| {
      if from + chunk <= |data| {
        ChunkedIsSuffix(data, from + chunk, chunk);
        assert data[from..] == data[from..from + chunk] + data[from + chunk..];
      } else {
        assert Chunked(data, from + chunk, chunk) == [];
      }
    }
  }

  /** The chunks the device fetches from `from` on are the slices of the file. */
  lemma {:induction false} FetchInChunksFrom(store: FileStore, filename: string, from: nat, chunk: nat)
    requires filename in store && 0 < chunk <= INT64_MAX
    requires |store[filename]| <= INT64_MAX
    ensures FetchInChunks(store, filename, from, chunk) == Chunked(store[filename], from, chunk)
    decreases |store[filename]| - from
  {
    if from < |store[filename]| {
      FetchInChunksStep(store, filename, from, chunk);
      FetchInChunksFrom(store, filename, from + chunk, chunk);
    } else {
      FetchInChunksDone(store, filename, from, chunk);
    }
  }

  /** Walking a file in chunks of any size reassembles it exactly. */
  lemma ChunkedDownloadReassembles(store: FileStore, filename: string, chunk: nat)
    requires filename in store && 0 < chunk <= INT64_MAX && |store[filename]| <= INT64_MAX
    ensures FetchInChunks(store, filename, 0, chunk) == store[filename]
  {
    FetchInChunksFrom(store, filename, 0, chunk);
    ChunkedIsSuffix(store[filename], 0, chunk);
  }

  // ---------------------------------------------------------------------------
  // Reading Content-Range back
  // ---------------------------------------------------------------------------

  /** A client's reading of `bytes <first>-<last>/<size>`. */
  function ParseContentRange(value: string): Option<(nat, nat, nat)>
  {
    if |value| < 6 || value[..6] != "bytes " then None
    else
      var halves := Split(value[6..], '/');
      if |halves| != 2 then None
      else
        var ends := Split(halves[0], '-');
        if |ends| != 2 || !IsNumeral(ends[0]) || !IsNumeral(ends[1]) || !IsNumeral(halves[1]) then None
        else Some((DigitsValue(ends[0]), DigitsValue(ends[1]), DigitsValue(halves[1])))
  }

  /** The Content-Range of a range with a non-negative end reads back as the
      same start, end and size. */
  lemma {:induction false} ContentRangeRoundTrip(first: nat, last: nat, size: nat)
    ensures ParseContentRange(ContentRangeValue(first, last, size)) == Some((first, last, size))
  {
    var a, b, n := NatToString(first), NatToString(last), NatToString(size);
    var v := ContentRangeValue(first, last, size);
    assert v == "bytes " + ((a + "-" + b) + "/" + n);
    assert v[..6] == "bytes ";
    assert v[6..] == (a + "-" + b) + "/" + n;
    NatToStringHasOnly(first, '/');
    NatToStringHasOnly(last, '/');
    NatToStringHasOnly(size, '/');
    NatToStringHasOnly(first, '-');
    NatToStringHasOnly(last, '-');
    assert '/' !in a + "-" + b;
    SplitAfterPiece(a + "-" + b, '/', n);
    SplitWithoutSeparator(n, '/');
    SplitRange(a, b);
    NatToStringRoundTrip(first);
    NatToStringRoundTrip(last);
    NatToStringRoundTrip(size);
  }
}
