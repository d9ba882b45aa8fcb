# OTA firmware server: a Dafny model

This project models the core of a small Flask over-the-air (OTA) update server
for embedded devices, and of the script that produces its test firmware:

- **Download route** (`download_firmware`, `GET /api/firmware/<filename>`,
  also answered at `/firmware/<filename>`, api/ota.py:100-101):
  missing file → 404; no `Range` header → the whole file; a present but empty
  `Range` header is falsy for the handler and goes to `send_file`, which
  rejects it with 416 for a non-empty file, so the answer is a 500; a
  non-empty `Range` header →
  its own parser (delete every `bytes=`, split on `-`, empty start = 0,
  missing or empty end = size − 1), then `f.seek(start); f.read(end - start + 1)`
  and a 206 whose `Content-Range` and `Content-Length` are computed from the
  parsed numbers, not from the bytes actually read.
- **Update decision** (`ota_check`): status 1 with the published version, id,
  size and download URL exactly when `firmware_v2.bin` exists (and its size is
  stored into `FIRMWARE_INFO`), otherwise status 0 echoing the device's
  reported version. No version comparison takes place. The download URL
  always uses the `/api/firmware/<filename>` form of the route (api/ota.py:74).
- **Small responders**: `ota_ack`, `health`, the root `health_check`, and the
  204 answer to OPTIONS on check, download and ack.
- **Test firmware encoder** (`create_test_firmware`): a 16-byte little-endian
  header (`FWUP`, version `0x00020000`, size, CRC placeholder `0x12345678`)
  followed by the 0..255 pattern, written chunk by chunk in a loop.

The firmware directory is a `map<string, seq<byte>>`; the `Range` header is an
`Option<string>`; a request body is a `map<string, string>`; the deployment
host (`VERCEL_URL`) and `request.host_url` are parameters. A response is a
status code, a header map and a body (empty, octets, or a JSON object).

Files:

| file | module | models |
|---|---|---|
| wrappers.dfy | `Wrappers` | `Option`, `Result` |
| text.dfy | `Text` | `str.split`, `str.replace(p, '')`, `str.rstrip`, `int()` on digits, `str()` |
| http.dfy | `Http` | bytes, request methods, JSON values, responses |
| download.dfy | `Download` | `download_firmware` as written, and what it does with each kind of range |
| strict_download.dfy | `StrictDownload` | the corrected range handling of the Findings below |
| update_check.dfy | `UpdateCheck` | `FIRMWARE_INFO`, `ota_check`, `ota_ack`, `health`, `health_check` |
| test_firmware.dfy | `TestFirmware` | `create_test_firmware` |

`download_firmware`, `ota_ack` and the health routes are straight-line code,
modelled as functions. `ota_check` overwrites `FIRMWARE_INFO['size']`, so it is
the method `Check` of the class `FirmwareInfo`, specified by the function
`CheckResponse` about which the lemmas are stated. `create_test_firmware`
is a loop appending chunks, so it is a method with a `while` loop whose
invariants tie the bytes written so far to the function `TestImage`.

Python behaviour the model makes explicit:

- `f.read(n)` on a file opened `'rb'` (CPython's buffered reader) reads to end
  of file for `n == -1`, raises for `n < -1`, and returns fewer than `n` bytes
  at end of file. So a range whose end is one below its start sends nothing,
  one whose end is two below its start sends the rest of the file under
  `Content-Length: -1`, and anything lower is a 500.
- `seek` targets and `read` sizes beyond a signed 64-bit integer raise (500).
- `int()` is modelled on non-empty strings of ASCII digits; everything else it
  is given raises (500). Leading zeros are accepted, and `Content-Range`
  echoes the numbers in canonical form.

## Range handling compared with RFC 9110

The model follows the code; section 14.1.2 of RFC 9110 is the reference the
comparison is made against.

- `Range: bytes=-` is not rejected: both parts are empty, so it means the
  whole file (`Download.ExampleBothOmitted`).
- A header without `bytes=` is parsed all the same
  (`Download.ParsePrefixOptional`), and every occurrence of `bytes=` anywhere
  in the header is deleted before the split (`Text.RemoveAll`). A non-numeric
  part is a 500, not a fallback to the full body.
- A range with an explicit end past the last byte is a 206 whose
  Content-Length announces more bytes than are sent
  (`Download.OverlongRangeIsClipped`); a start at or past the end with such an
  end sends nothing.
- An open-ended range `bytes=<s>-` starting at or past the end of the file
  gets the end `size - 1`, so its length is zero or negative: `s = size` is a
  206 with nothing sent and Content-Length 0, `s = size + 1` a 206 with
  nothing sent and Content-Length -1, and any later start a 500
  (`Download.OpenEndedPastEnd`).
- A reversed range is a 206 only when its end is one or two below its start:
  nothing sent with Content-Length 0, or the rest of the file with
  Content-Length -1. An end lower than that, or a start above 2^63 - 1, makes
  the seek or the read raise and is a 500 (`Download.ReversedRange`).

## Model

| member | source | states |
|---|---|---|
| `Text.Split` | api/ota.py:125 | `split('-')` gives at least one piece and no piece contains the separator |
| `Text.JoinSplit` | api/ota.py:125 | joining the pieces of a split with the separator gives back the original text |
| `Text.SplitWithoutSeparator` | api/ota.py:125 | text without a dash splits into itself alone, so a missing dash leaves no end part |
| `Text.SplitAfterPiece` | api/ota.py:125 | a dash after dash-free text cuts exactly there: the first piece is that text |
| `Text.RemoveAll` | api/ota.py:125 | `replace('bytes=', '')` never lengthens the header |
| `Text.RemoveAllAbsent` | api/ota.py:125 | text without a `b` passes through the `bytes=` deletion unchanged |
| `Text.RemoveAllLeading` | api/ota.py:125 | a leading `bytes=` is deleted and the rest is processed as if it stood alone |
| `Text.RStrip` | api/ota.py:72 | `rstrip('/')` returns a prefix of the host URL that does not end in `/`, and everything it removed is `/` |
| `Text.NatToString` | api/ota.py:143 | `str(n)` is a non-empty digit string, with a leading zero only for 0 |
| `Text.IntToString` | api/ota.py:145 | `str(i)` for any integer; what it prints is stated by `Text.IntToStringReadsBack` |
| `Text.IntToStringReadsBack` | api/ota.py:145 | `str(i)` is non-empty, starts with `-` exactly when `i` is negative, and the rest is a decimal numeral that reads back as the magnitude of `i` |
| `Text.NatToStringRoundTrip` | api/ota.py:126 | reading back a printed number with `int()` gives the number |
| `Text.NatToStringHasOnly` | api/ota.py:143 | a printed number contains no dash, slash or `b` |
| `Http.Preflight` | api/ota.py:36-37 | `return '', 204`: status 204, no headers, empty body; its use on every route is stated by `UpdateCheck.PreflightOnEveryRoute` |
| `Download.ParseInt` | api/ota.py:126 | `int()` gives the value of a digit string and fails on anything else; its round trip with `str` is `Download.ParseIntRoundTrip` |
| `Download.ParseRange` | api/ota.py:125-129 | the parsed end is never below -1, and not below 0 when the file is not empty; an explicit end may lie past the end of the file |
| `Download.RangeParts` | api/ota.py:125 | the pieces of the header after `bytes=` removal are never an empty list, so `byte_range[0]` exists |
| `Download.ReadAt` | api/ota.py:133-135 | `seek(start); read(length)` succeeds exactly when start and length fit 64 bits and length is at least -1; it returns `max(0, size - start)` bytes for -1 or a read past the end and `length` bytes otherwise, each equal to the file's byte at `start + i` |
| `Download.ContentRangeValue` | api/ota.py:143 | the f-string `bytes {start}-{end}/{file_size}`; a client reads it back as the same numbers (`Download.ContentRangeRoundTrip`) |
| `Download.PartialHeaders` | api/ota.py:143-147 | the five headers of the 206 answer; their values for each kind of range are stated by `Download.InBoundsRangeIsExact`, `Download.OverlongRangeIsClipped` and `Download.ReversedRange` |
| `Download.FullFile` | api/ota.py:151-159 | `send_file` without a range: 200, octet-stream, the whole file (stated by `Download.NoRangeServesWholeFile`) |
| `Download.PartialFile` | api/ota.py:125-150 | the Range branch: a 500 when parsing, the seek or the read raises, otherwise a 206 with the bytes read (stated by `Download.RangeBranchAfterParse` and `Download.NonNumericRangeIsServerError`) |
| `Download.ServerError` | api/ota.py:161-162 | every exception becomes a 500 whose JSON object holds only `error` |
| `Download.EmptyRangeToSendFile` | api/ota.py:154-162 | `send_file` with a present but empty Range header: an empty file is sent whole, a non-empty one raises 416 and becomes a 500 (stated by `Download.EmptyRangeHeaderIsServerError` and `Download.NoRangeServesWholeFile`) |
| `Download.DownloadFirmware` | api/ota.py:102-162 | OPTIONS gives the empty 204; a missing file gives the 404 object; the status is one of 200, 204, 206, 404, 500; a 200 carries the whole file and answers a request without a Range header, or an empty file; a 206 only answers a non-empty Range header, carries `Accept-Ranges: bytes`, `Content-Range`, `Content-Length`, and at most the file's bytes |
| `Download.MissingFileIgnoresRange` | api/ota.py:116-118 | for a missing file the answer is the same 404 `{"error": "Firmware not found"}` whatever the Range header |
| `Download.NoRangeServesWholeFile` | api/ota.py:151-159 | without a Range header, or with an empty one on an empty file, the answer is 200 with the whole file |
| `Download.EmptyRangeHeaderIsServerError` | api/ota.py:123-162 | a present but empty Range header on a non-empty file is a 500 whose error is the 416 `send_file` raises |
| `Download.ParseIntRoundTrip` | api/ota.py:126 | `int(str(n)) == n` |
| `Download.ParseRangeRequest` | api/ota.py:125-129 | `bytes=<s>-<e>` is parsed as start `s`, end `e`, for every file size |
| `Download.ParseOpenEndedRange` | api/ota.py:129 | `bytes=<s>-` is parsed as start `s`, end `size - 1` |
| `Download.ParseStartOnly` | api/ota.py:125-129 | `bytes=<s>` without a dash has no end part and is parsed as start `s`, end `size - 1` |
| `Download.ParseSuffixAsPrefix` | api/ota.py:126 | `bytes=-<n>` is parsed as start 0, end `n` |
| `Download.ParsePrefixOptional` | api/ota.py:125 | prefixing a header with `bytes=` never changes how it is parsed |
| `Download.ParseIgnoresExtraParts` | api/ota.py:125-129 | whatever follows a second dash is ignored |
| `Download.ParseRangeFailsIff` | api/ota.py:126-129 | parsing fails exactly when a non-empty first part, or a non-empty second part, is not a numeral |
| `Download.RangeHeaderTakesRangeBranch` | api/ota.py:116-125 | a GET for a present file with a non-empty Range header is answered by the Range branch |
| `Download.RangeBranchAfterParse` | api/ota.py:131-150 | on its own, the Range branch: once the header parses and start and length fit 64 bits, the read succeeds and the branch answers 206 with the bytes read and the computed headers |
| `Download.PartialAfterParse` | api/ota.py:116-150 | the same answer for the whole route, composed of `Download.RangeHeaderTakesRangeBranch` and `Download.RangeBranchAfterParse`: a GET for a present file whose non-empty header parses, with start and length fitting, is that 206 |
| `Download.InBoundsRangeIsExact` | api/ota.py:131-145 | for `0 <= start <= end < size` the body is `file[start..end+1]`, its length is `end - start + 1` and Content-Length states that length, Content-Range is `bytes start-end/size`, Accept-Ranges is `bytes` |
| `Download.RangeRequestIsExact` | api/ota.py:125-145 | for the header `bytes=<s>-<e>` a client writes, with `s <= e` inside the file: 206, the body `file[s..e+1]` of `e - s + 1` bytes, Content-Length stating that length, Content-Range `bytes s-e/size`, Accept-Ranges `bytes` |
| `Download.OverlongRangeIsClipped` | api/ota.py:131-145 | for an explicit end past the last byte (end ≥ size) and start ≤ end, the body is the file from `start` clipped at its end (empty if `start` is past it), while Content-Length announces `end - start + 1`, more than is sent |
| `Download.ReversedRange` | api/ota.py:131-145 | end = start - 1 gives a 206 with nothing and Content-Length 0; end = start - 2 gives the rest of the file with Content-Length -1; a lower end gives 500 |
| `Download.OpenEndedPastEnd` | api/ota.py:125-145 | `bytes=<s>-` with `s` at the end of the file is a 206 sending nothing under Content-Length 0, one past it a 206 sending nothing under Content-Length -1, and any later start a 500 |
| `Download.EmptyReversedRange` | api/ota.py:131-145 | an end one below the start is a 206 sending nothing under Content-Length 0 |
| `Download.ReadToEndReversedRange` | api/ota.py:131-145 | an end two below the start is a 206 sending the rest of the file from the start under Content-Length -1 |
| `Download.NonNumericRangeIsServerError` | api/ota.py:126-162 | a part `int()` rejects gives a 500 with a JSON error object |
| `Download.ExampleFirstKilobyte` | test_local.py:59 | `bytes=0-1023` on a 2048-byte file is (0, 1023) |
| `Download.ExampleOpenEnded` | api/ota.py:129 | `bytes=1024-` on a 2048-byte file is (1024, 2047) |
| `Download.ExampleBothOmitted` | api/ota.py:126-129 | `bytes=-` on a 2048-byte file is (0, 2047) |
| `Download.ExampleSuffix` | api/ota.py:125-126 | `bytes=-500` on a 2048-byte file is (0, 500) |
| `Download.ExampleNonNumeric` | api/ota.py:126 | `bytes=x-5` fails on the part `x` |
| `Download.ChunkExample` | api/ota.py:131-145 | `bytes=512-1023` on a 2048-byte file is a 206 with exactly bytes 512..1023 (512 of them), `Content-Range: bytes 512-1023/2048`, `Content-Length: 512` |
| `Download.OverlongExample` | api/ota.py:131-145 | `bytes=0-4095` on a 2048-byte file is a 206 announcing 4096 bytes and carrying 2048 |
| `Download.EmptyContentRange` | api/ota.py:143 | the Content-Range of start 0, end -1, size 0 is `bytes 0--1/0` |
| `Download.EmptyFileExample` | api/ota.py:126-145 | `bytes=0-` on an empty file is a 206 with no bytes, `Content-Range: bytes 0--1/0`, `Content-Length: 0` |
| `Download.ChunkBody` | api/ota.py:131-135 | one chunk request of `c` bytes at offset `k` inside the file returns the file's bytes from `k`, `c` of them or up to the end |
| `Download.FetchInChunksStep` | api/ota.py:125-145 | one step of the walk: the file's bytes from `k`, at most `c` of them, then the walk from `k + c` |
| `Download.FetchInChunksFrom` | api/ota.py:125-145 | successive independent requests of `c` bytes from offset `k` on return the file's `c`-byte slices from `k` laid end to end, the short last one included |
| `Download.ChunkedDownloadReassembles` | api/ota.py:125-145 | a device walking the file in chunks of any size reassembles it exactly |
| `Download.ContentRangeRoundTrip` | api/ota.py:143 | a client reading `bytes s-e/size` back gets `(s, e, size)` |
| `StrictDownload.ResolveRange` | api/ota.py:125-129 | a satisfiable range lies inside the file: `first <= last < size` |
| `StrictDownload.PartialSpan` | api/ota.py:131-147 | a corrected 206: Content-Length is the number of bytes sent and Content-Range reads back as exactly the span sent |
| `StrictDownload.StrictDownloadFirmware` | api/ota.py:102-162 | the corrected route: OPTIONS 204, missing file 404, 200 with the whole file, a 206 whose Content-Length is the body length and whose Content-Range reads back as a span inside the file that is the body, or a 416 carrying the unsatisfied-range Content-Range |
| `StrictDownload.ResolveRangeRequest` | api/ota.py:125-129 | `bytes=<s>-<e>` is ignored when `e < s`, unsatisfiable when `s` is at or past the end, and otherwise the span from `s` to `e` clipped to the last byte |
| `StrictDownload.StrictAgreesInBounds` | api/ota.py:125-145 | for a range inside the file the corrected route answers exactly as the route as written |
| `StrictDownload.StrictClipsOverlong` | api/ota.py:131-145 | a range past the end is clipped to the last byte and Content-Length counts the bytes sent |
| `StrictDownload.StrictRejectsPastEnd` | api/ota.py:131-135 | a range `bytes=<s>-<e>` with `s <= e` starting at or after the end is a 416 |
| `StrictDownload.StrictRejectsOpenEndedPastEnd` | api/ota.py:125-135 | an open-ended range `bytes=<s>-` starting at or after the end is a 416 |
| `StrictDownload.StrictSuffixRange` | api/ota.py:125-126 | `bytes=-n` is the last `n` bytes, or the whole file if it is shorter |
| `UpdateCheck.ReportedVersion` | api/ota.py:56 | the request's `firmware_version`, or `0x00010000` without one (stated by `UpdateCheck.NoUpdateEchoesReportedVersion`) |
| `UpdateCheck.BaseUrl` | api/ota.py:68-72 | `https://` and the deployment host when it is set and non-empty, else the request host without trailing slashes (stated by `UpdateCheck.UpdateUrl`) |
| `UpdateCheck.FirmwareUrl` | api/ota.py:74 | the base URL, `/api/firmware/` and the file name (stated by `UpdateCheck.UpdateUrl`) |
| `UpdateCheck.UpdateAvailable` | api/ota.py:77-83 | the status-1 object with version, url, size and id, answered 200 (stated by `UpdateCheck.UpdateDescribesPublishedFirmware`) |
| `UpdateCheck.NoUpdate` | api/ota.py:87-93 | the status-0 object with the reported version and the fixed message, answered 200 (stated by `UpdateCheck.NoUpdateEchoesReportedVersion`) |
| `UpdateCheck.CheckDecision` | api/ota.py:56-93 | the answer of a non-OPTIONS check; its properties are `UpdateCheck.UpdateIffFirmwarePresent`, `UpdateCheck.UpdateDescribesPublishedFirmware`, `UpdateCheck.UpdateUrl`, `UpdateCheck.NoVersionComparison` and `UpdateCheck.NoUpdateEchoesReportedVersion` |
| `UpdateCheck.CheckResponse` | api/ota.py:30-93 | the answer of `ota_check`, OPTIONS included; `UpdateCheck.FirmwareInfo.Check` is proved to return it and `UpdateCheck.PreflightOnEveryRoute` states its OPTIONS case |
| `UpdateCheck.FirmwareInfo.constructor` | api/ota.py:21-26 | `FIRMWARE_INFO` starts with size 0 |
| `UpdateCheck.FirmwareInfo.Check` | api/ota.py:30-97 | answers as `CheckResponse`; the stored size becomes the file's byte length when a non-OPTIONS check finds the file, and is left unchanged otherwise |
| `UpdateCheck.UpdateIffFirmwarePresent` | api/ota.py:63-91 | status is 1 exactly when the published file exists and 0 exactly when it does not |
| `UpdateCheck.UpdateDescribesPublishedFirmware` | api/ota.py:63-83 | with the file present: 200, fields status/version/url/size/id, version `0x00020000`, id `ota_update_001`, size equal to the number of bytes the download route sends for that file |
| `UpdateCheck.UpdateUrl` | api/ota.py:68-74 | the URL ends in `/api/firmware/firmware_v2.bin`; with a non-empty deployment host it is `https://` + host + that path; otherwise it starts with the request host stripped of its trailing slashes, and only slashes were stripped |
| `UpdateCheck.NoVersionComparison` | api/ota.py:56-83 | with the file present, two requests reporting any versions get identical answers |
| `UpdateCheck.NoUpdateEchoesReportedVersion` | api/ota.py:84-91 | with no file: 200, fields status/version/message, version the request's `firmware_version` or `0x00010000` by default |
| `UpdateCheck.AckResponse` | api/ota.py:167-188 | every non-OPTIONS acknowledgment whose body decodes to a map is a 200 (malformed bodies are not modelled, see below) |
| `UpdateCheck.AckEchoesDevice` | api/ota.py:184 | the acknowledgment is `{"status": "ok", "device_id": <id>}` whatever the payload |
| `UpdateCheck.Health` | api/ota.py:193-199 | `/health` is always a 200 |
| `UpdateCheck.HealthAgreesWithCheck` | api/ota.py:193-199 | `/health` reports firmware available exactly when a check would answer status 1 |
| `UpdateCheck.RootHealthCheck` | api/ota.py:15-18 | `/` is always a 200 |
| `UpdateCheck.PreflightOnEveryRoute` | api/ota.py:36-37 | OPTIONS on check, download and ack is an empty 204 |
| `TestFirmware.LeU32` | create_test_firmware.py:32-36 | an `I` field is four bytes |
| `TestFirmware.LeU32RoundTrip` | create_test_firmware.py:32-36 | reading a packed `<I` field back little-endian gives the value packed |
| `TestFirmware.PackHeader` | create_test_firmware.py:32-37 | the header is 16 bytes |
| `TestFirmware.PayloadLength` | create_test_firmware.py:41 | `size_bytes - len(header)` when positive, else no payload (stated by `TestFirmware.ImageLength`) |
| `TestFirmware.TestImage` | create_test_firmware.py:32-46 | the header followed by the pattern; `TestFirmware.CreateTestFirmware` is proved to write it, and `TestFirmware.HeaderLayout`, `TestFirmware.PayloadIsPattern` and `TestFirmware.ImageLength` state its layout |
| `TestFirmware.Pattern` | create_test_firmware.py:40 | `n` pattern bytes are `n` bytes long |
| `TestFirmware.PatternExtends` | create_test_firmware.py:40-46 | appending a chunk of at most 256 pattern bytes at a multiple of 256 continues the pattern |
| `TestFirmware.CreateTestFirmware` | create_test_firmware.py:11-56 | packing succeeds exactly when `size_kb * 1024` fits an unsigned 32-bit field; then the bytes written are `TestImage(size_kb * 1024)`, else none |
| `TestFirmware.HeaderLayout` | create_test_firmware.py:32-36 | the image starts with `FWUP`, then version `0x00020000`, the size and `0x12345678`, each read back as a little-endian 32-bit field |
| `TestFirmware.PayloadIsPattern` | create_test_firmware.py:40-46 | payload byte `i`, at offset `16 + i`, is `i mod 256` |
| `TestFirmware.ImageLength` | create_test_firmware.py:25-46 | the image is `16 + max(0, size_bytes - 16)` bytes; from 1 KB on that is `size_bytes`, the size the header records |
| `TestFirmware.HexWord` | create_test_firmware.py:34 | `0x%08x` of a 32-bit value is ten characters: `0x`, then eight lower-case hexadecimal digits that read back as the value |
| `TestFirmware.HexDigitsRoundTrip` | create_test_firmware.py:34 | `n` zero-padded hexadecimal digits of a value below `16^n` read back as the value |
| `TestFirmware.HeaderVersionIsAdvertised` | create_test_firmware.py:34 | the header's version field, written in hexadecimal, is the version string the server advertises |

## Findings

| source | as written | input that shows it | evidently intended | confidence | as-written member | corrected member |
|---|---|---|---|---|---|---|
| api/ota.py:131-145 | `Content-Length` is `end - start + 1` whatever the file holds | a 2048-byte file with `Range: bytes=0-4095`: `Content-Length: 4096`, 2048 bytes sent | clip the end to the last byte and announce the bytes sent (section 14.1.2 of RFC 9110) | not executed | `Download.OverlongExample` | `StrictDownload.StrictClipsOverlong` |
| api/ota.py:125-126 | `bytes=-n` is read as bytes 0 through n | `Range: bytes=-500` on a 2048-byte file sends the first 501 bytes | the last n bytes, a suffix range (section 14.1.2 of RFC 9110) | not executed | `Download.ExampleSuffix` | `StrictDownload.StrictSuffixRange` |
| api/ota.py:131-135 | a start at or past the end of the file, with an explicit end at or after it, is answered 206 with an empty body | `Range: bytes=4096-5000` on a 2048-byte file | 416 Range Not Satisfiable (section 15.5.17 of RFC 9110) | not executed | `Download.OverlongRangeIsClipped` | `StrictDownload.StrictRejectsPastEnd` |

`Download.DownloadFirmware` remains the model of the server as it is;
`StrictDownload.StrictDownloadFirmware` is the corrected route, proved to agree
with it on every range inside the file (`StrictDownload.StrictAgreesInBounds`).
The corrected route ignores a header that is not one well-formed byte range and
sends the whole file; it answers an empty file's suffix range with 416.
An open-ended range starting past the end fares differently in the route as
written (`Download.OpenEndedPastEnd`: `bytes=4096-` on a 2048-byte file makes
`f.read(-2048)` raise, so a 500); the corrected route answers it with 416 too
(`StrictDownload.StrictRejectsOpenEndedPastEnd`).

## Left out

- Flask routing (405 for other methods, the 404 catch-all), the CORS
  extension's headers, logging: plumbing around the handlers.
- `send_file` details: `Content-Disposition`, `ETag`, `Last-Modified`, 304 for
  conditional requests, `If-Range`, streaming. The full download is modelled as
  200 with `Content-Type` and the whole file as body. Of `send_file`'s own
  Range processing only the case the handler lets through is modelled: a
  present but empty header, which `send_file` rejects for a non-empty file.
- The filesystem: `os.path.join(..., '..', 'firmware', name)`, `exists`,
  `getsize`, `open`, `seek`, `read` are lookups and slices on the map; an
  `OSError` from a file vanishing between `exists` and `open`, and a filesystem
  refusing a seek target below 2^63, are not modelled.
- A `read` whose length is valid but too large to allocate (`MemoryError`,
  hence 500) is modelled as a short read.
- `os.getenv('VERCEL_URL')` and `request.host_url` are parameters.
- Request body decoding: the body is a map of strings; malformed JSON, a JSON
  body that is not an object and non-string JSON values are not modelled.
  Malformed JSON makes `get_json()` raise, which leads to `ota_check`'s 500
  branch (api/ota.py:95-97) and to `ota_ack`'s (api/ota.py:186-188); a body
  that is not an object leads to `ota_check`'s. So `UpdateCheck.AckResponse`
  and the `ota_check` lemmas hold for bodies that decode to a map.
- `Download.ParseInt`: Python's `int()` also accepts surrounding whitespace, a
  `+` sign, underscores between digits and non-ASCII digits, and refuses more
  than 4300 digits; the model accepts exactly the ASCII digit strings.
- The text of the 500 error messages is the model's own wording, not Python's
  exception text.
- The race on the shared `FIRMWARE_INFO['size']` under concurrent requests:
  requests are modelled one at a time.
- `create_test_firmware`: the MD5 digest, directory creation, printing, the
  returned path and the `__main__` argument handling; the written file is the
  returned byte sequence.
- `StrictDownload.ResolveRange`: multiple ranges, a case-insensitive unit name
  and whitespace in the header are not handled (such headers are ignored and
  the whole file sent).
- `TestFirmware.LeU32`: its contract states only the field length; what the
  bytes mean is stated by `TestFirmware.LeU32RoundTrip`.
