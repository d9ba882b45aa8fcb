/**
 * The download route as it evidently was meant to behave: byte ranges as
 * section 14.1.2 of RFC 9110 defines them (`first-last`, `first-`, suffix
 * `-n`), a range reaching past the end clipped to the last byte, an invalid
 * range ignored (full body), and an unsatisfiable one answered with 416 and
 * a Content-Range that gives only the size, as section 15.5.17 of RFC 9110
 * asks. Every 206 it sends carries a Content-Length equal to the bytes sent and a Content-Range that
 * reads back as exactly the span sent.
 */
module StrictDownload {
  import opened Wrappers
  import opened Text
  import opened Http
  import opened Download

  /** How a single `bytes=` range-spec stands against a representation. */
  datatype Resolution =
    | Satisfiable(first: nat, last: nat)  // the span to send, inclusive
    | Unsatisfiable                       // well formed, but nothing of it exists
    | Ignored                             // not a single byte range: send the whole file

  /** Resolves a Range header against a file of `size` bytes. */
  function ResolveRange(header: string, size: nat): (r: Resolution)
    ensures r.Satisfiable? ==> r.first <= r.last < size
  {
    if |header| < 6 || header[..6] != "bytes=" then Ignored
    else
      var parts := Split(header[6..], '-');
      if |parts| != 2 then Ignored
      else if parts[0] == "" then
        if !IsNumeral(parts[1]) then Ignored
        else
          var n := DigitsValue(parts[1]);
          if n == 0 || size == 0 then Unsatisfiable
          else Satisfiable(size - Min(n, size), size - 1)
      else if !IsNumeral(parts[0]) || (parts[1] != "" && !IsNumeral(parts[1])) then Ignored
      else
        var first := DigitsValue(parts[0]);
        if parts[1] != "" && DigitsValue(parts[1]) < first then Ignored
        else if first >= size then Unsatisfiable
        else Satisfiable(first, if parts[1] == "" then size - 1 else Min(DigitsValue(parts[1]), size - 1))
  }

  /** The 206 response for a satisfiable span. */
  function PartialSpan(data: seq<byte>, first: nat, last: nat): (resp: Response)
    requires first <= last < |data|
    ensures resp.status == 206 && resp.body.Octets?
    ensures "Content-Length" in resp.headers && "Content-Range" in resp.headers
    ensures resp.headers["Content-Length"] == NatToString(|resp.body.bytes|)
    ensures ParseContentRange(resp.headers["Content-Range"]) == Some((first, last, |data|))
    ensures resp.body.bytes == data[first..last + 1]
  {
    ContentRangeRoundTrip(first, last, |data|);
    Response(206, PartialHeaders(first, last, |data|, last - first + 1), Octets(data[first..last + 1]))
  }

  // The unsatisfied-range form of Content-Range: a star where the span goes.
  function UnsatisfiedRange(size: nat): string
  {
    "bytes */" + NatToString(size)
  }

  /** The download route with standard range handling. */
  function StrictDownloadFirmware(verb: Method, store: FileStore, filename: string, rangeHeader: Option<string>): (resp: Response)
    ensures verb == Options ==> resp == Preflight()
    ensures verb != Options && filename !in store ==> resp == NOT_FOUND
    ensures resp.status in {200, 204, 206, 404, 416}
    ensures resp.status == 200 ==> filename in store && resp.body == Octets(store[filename])
    ensures resp.status == 206 ==>
      && filename in store && resp.body.Octets?
      && "Content-Length" in resp.headers && "Content-Range" in resp.headers
      && resp.headers["Content-Length"] == NatToString(|resp.body.bytes|)
      && match ParseContentRange(resp.headers["Content-Range"])
         case None => false
         case Some(span) =>
           && span.0 <= span.1 < span.2 == |store[filename]|
           && resp.body.bytes == store[filename][span.0..span.1 + 1]
    ensures resp.status == 416 ==>
      filename in store && "Content-Range" in resp.headers && resp.headers["Content-Range"] == UnsatisfiedRange(|store[filename]|)
  {
    if verb == Options then Preflight()
    else if filename !in store then NOT_FOUND
    else
      var data := store[filename];
      if rangeHeader.None? || rangeHeader.value == "" then FullFile(data)
      else
        match ResolveRange(rangeHeader.value, |data|)
        case Ignored => FullFile(data)
        case Unsatisfiable => Response(416, map["Content-Range" := UnsatisfiedRange(|data|)], Empty)
        case Satisfiable(first, last) => PartialSpan(data, first, last)
  }

  /** How the header `bytes=<first>-<last>` a client writes is resolved. */
  lemma {:induction false} ResolveRangeRequest(first: nat, last: nat, size: nat)
    ensures ResolveRange(RangeRequest(first, last), size)
         == if last < first then Ignored
            else if first >= size then Unsatisfiable
            else Satisfiable(first, Min(last, size - 1))
  {
    var a, b := NatToString(first), NatToString(last);
    var h := RangeRequest(first, last);
    assert h[..6] == "bytes=";
    assert h[6..] == a + "-" + b;
    NatToStringHasOnly(first, '-');
    NatToStringHasOnly(last, '-');
    SplitRange(a, b);
    NatToStringRoundTrip(first);
    NatToStringRoundTrip(last);
  }

  /** For a header a client writes for a span inside the file, the standard
      route answers exactly as the route as written does. */
  lemma {:induction false} StrictAgreesInBounds(store: FileStore, filename: string, first: nat, last: nat)
    requires filename in store && first <= last < |store[filename]| <= INT64_MAX
    ensures StrictDownloadFirmware(Get, store, filename, Some(RangeRequest(first, last)))
         == DownloadFirmware(Get, store, filename, Some(RangeRequest(first, last)))
  {
    var h := RangeRequest(first, last);
    ResolveRangeRequest(first, last, |store[filename]|);
    RangeRequestIsExact(store, filename, first, last);
    ParseRangeRequest(first, last, |store[filename]|);
    PartialAfterParse(store, filename, h, first, last);
  }

  /** A range running past the end is clipped to the last byte. */
  lemma {:induction false} StrictClipsOverlong(store: FileStore, filename: string, first: nat, last: nat)
    requires filename in store && first < |store[filename]| <= last
    ensures var resp := StrictDownloadFirmware(Get, store, filename, Some(RangeRequest(first, last)));
      && resp.status == 206
      && resp.body == Octets(store[filename][first..])
      && resp.headers["Content-Length"] == NatToString(|store[filename]| - first)
  {
    ResolveRangeRequest(first, last, |store[filename]|);
  }

  /** A range starting at or after the end is a 416. */
  lemma {:induction false} StrictRejectsPastEnd(store: FileStore, filename: string, first: nat, last: nat)
    requires filename in store && |store[filename]| <= first <= last
    ensures StrictDownloadFirmware(Get, store, filename, Some(RangeRequest(first, last))).status == 416
  {
    ResolveRangeRequest(first, last, |store[filename]|);
  }

  /** An open-ended range `bytes=<first>-` starting at or after the end is a
      416 as well. */
  lemma {:induction false} StrictRejectsOpenEndedPastEnd(store: FileStore, filename: string, first: nat)
    requires filename in store && |store[filename]| <= first
    ensures StrictDownloadFirmware(Get, store, filename, Some("bytes=" + NatToString(first) + "-")).status == 416
  {
    var a := NatToString(first);
    var h := "bytes=" + a + "-";
    assert h[..6] == "bytes=";
    assert h[6..] == a + "-" + "";
    NatToStringHasOnly(first, '-');
    SplitRange(a, "");
    NatToStringRoundTrip(first);
  }

  /** `bytes=-n` is the last n bytes of the file (all of it if it is shorter). */
  lemma {:induction false} StrictSuffixRange(store: FileStore, filename: string, n: nat)
    requires filename in store && 0 < n && 0 < |store[filename]|
    ensures var resp := StrictDownloadFirmware(Get, store, filename, Some("bytes=-" + NatToString(n)));
      && resp.status == 206
      && resp.body == Octets(store[filename][|store[filename]| - Min(n, |store[filename]|)..])
  {
    var b := NatToString(n);
    var h := "bytes=-" + b;
    assert h[..6] == "bytes=";
    assert h[6..] == "" + "-" + b;
    NatToStringHasOnly(n, '-');
    SplitRange("", b);
    NatToStringRoundTrip(n);
  }
}
