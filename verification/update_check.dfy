/**
 * `ota_check`, `ota_ack`, `health` and `health_check` (api/ota.py): the update
 * decision and the small fixed responders. The module-level `FIRMWARE_INFO`
 * dictionary, whose `size` entry `ota_check` overwrites, is the class
 * `FirmwareInfo`.
 */
module UpdateCheck {
  import opened Wrappers
  import opened Text
  import opened Http
  import opened Download

  /** The published firmware, as `FIRMWARE_INFO` declares it. */
  const FIRMWARE_VERSION: string := "0x00020000"
  const FIRMWARE_FILENAME: string := "firmware_v2.bin"
  const UPDATE_ID: string := "ota_update_001"

  /** What a device is taken to run when its request names no version. */
  const DEFAULT_REPORTED_VERSION: string := "0x00010000"

  const NO_UPDATE_MESSAGE: string := "No firmware update available"

  /** `data.get('firmware_version', '0x00010000')`. */
  function ReportedVersion(form: map<string, string>): string
  {
    if "firmware_version" in form then form["firmware_version"] else DEFAULT_REPORTED_VERSION
  }

  /** `https://` and `VERCEL_URL` when that is set and non-empty, otherwise
      the request's host URL with its trailing slashes stripped. */
  function BaseUrl(vercelUrl: Option<string>, hostUrl: string): string
  {
    if vercelUrl.Some? && vercelUrl.value != "" then "https://" + vercelUrl.value
    else RStrip(hostUrl, '/')
  }

  function FirmwareUrl(base: string, filename: string): string
  {
    base + "/api/firmware/" + filename
  }

  /** The status-1 object. */
  function UpdateAvailable(version: string, url: string, size: int, id: string): Response
  {
    JsonResponse(200, map[
      "status" := JInt(1),
      "version" := JStr(version),
      "url" := JStr(url),
      "size" := JInt(size),
      "id" := JStr(id)
    ])
  }

  /** The status-0 object. */
  function NoUpdate(reported: string): Response
  {
    JsonResponse(200, map[
      "status" := JInt(0),
      "version" := JStr(reported),
      "message" := JStr(NO_UPDATE_MESSAGE)
    ])
  }

  /** What `ota_check` answers a non-OPTIONS request with. */
  function CheckDecision(store: FileStore, form: map<string, string>, vercelUrl: Option<string>, hostUrl: string): Response
  {
    if FIRMWARE_FILENAME in store then
      UpdateAvailable(FIRMWARE_VERSION, FirmwareUrl(BaseUrl(vercelUrl, hostUrl), FIRMWARE_FILENAME),
                      |store[FIRMWARE_FILENAME]|, UPDATE_ID)
    else NoUpdate(ReportedVersion(form))
  }

  /** What `ota_check` answers, OPTIONS included. */
  function CheckResponse(verb: Method, store: FileStore, form: map<string, string>, vercelUrl: Option<string>, hostUrl: string): Response
  {
    if verb == Options then Preflight() else CheckDecision(store, form, vercelUrl, hostUrl)
  }

  /** `FIRMWARE_INFO`: fixed version, file name and id, and a size that each
      check finding the file overwrites. */
  class FirmwareInfo {
    const version: string := FIRMWARE_VERSION
    const filename: string := FIRMWARE_FILENAME
    const id: string := UPDATE_ID
    var size: int

    /** The dictionary as the module defines it, size 0. */
    constructor ()
      ensures size == 0
    {
      size := 0;
    }

    /** `ota_check(device_id)`: stores the file's size before reporting it; a
        check that finds no file leaves the last size in place, and that
        stale size never reaches a response. */
    method Check(verb: Method, store: FileStore, form: map<string, string>, vercelUrl: Option<string>, hostUrl: string)
      returns (resp: Response)
      modifies this
      ensures resp == CheckResponse(verb, store, form, vercelUrl, hostUrl)
      ensures size == if verb != Options && filename in store then |store[filename]| else old(size)
    {
      if verb == Options {
        return Preflight();
      }
      var currentVersion := ReportedVersion(form);
      if filename in store {
        size := |store[filename]|;
        var firmwareUrl := FirmwareUrl(BaseUrl(vercelUrl, hostUrl), filename);
        resp := UpdateAvailable(version, firmwareUrl, size, id);
      } else {
        resp := NoUpdate(currentVersion);
      }
    }
  }

  /** `ota_ack(device_id)`: the payload is only logged. */
  function AckResponse(verb: Method, deviceId: string, payload: map<string, string>): (resp: Response)
    ensures verb != Options ==> resp.status == 200
  {
    if verb == Options then Preflight()
    else JsonResponse(200, map["status" := JStr("ok"), "device_id" := JStr(deviceId)])
  }

  /** `health()` on `/health`. */
  function Health(store: FileStore): (resp: Response)
    ensures resp.status == 200
  {
    JsonResponse(200, map[
      "status" := JStr("healthy"),
      "service" := JStr("OTA Server"),
      "firmware_available" := JBool(FIRMWARE_FILENAME in store)
    ])
  }

  /** `health_check()` on `/`: a constant answer. */
  function RootHealthCheck(): (resp: Response)
    ensures resp.status == 200
  {
    JsonResponse(200, map["status" := JStr("ok"), "service" := JStr("OTA Server"), "version" := JStr("1.0.0")])
  }

  // ---------------------------------------------------------------------------
  // What the decision promises
  // ---------------------------------------------------------------------------

  /** Status 1 exactly when the published file exists, status 0 otherwise. */
  lemma UpdateIffFirmwarePresent(store: FileStore, form: map<string, string>, vercelUrl: Option<string>, hostUrl: string)
    ensures var fields := CheckDecision(store, form, vercelUrl, hostUrl).body.fields;
      && "status" in fields
      && (fields["status"] == JInt(1) <==> FIRMWARE_FILENAME in store)
      && (fields["status"] == JInt(0) <==> FIRMWARE_FILENAME !in store)
  {
  }

  /** With the file present the answer names the published firmware, and its
      size is the number of bytes the download route sends for that file. */
  lemma UpdateDescribesPublishedFirmware(store: FileStore, form: map<string, string>, vercelUrl: Option<string>, hostUrl: string)
    requires FIRMWARE_FILENAME in store
    ensures var resp := CheckDecision(store, form, vercelUrl, hostUrl);
      && resp.status == 200
      && resp.body.fields.Keys == {"status", "version", "url", "size", "id"}
      && resp.body.fields["version"] == JStr("0x00020000")
      && resp.body.fields["id"] == JStr("ota_update_001")
      && resp.body.fields["size"] == JInt(|BodyBytes(DownloadFirmware(Get, store, FIRMWARE_FILENAME, None))|)
  {
  }

  /** The URL is the base, the download route, then the file name; the base
      is the deployment host when one is configured, else the request host
      without trailing slashes. */
  lemma UpdateUrl(store: FileStore, form: map<string, string>, vercelUrl: Option<string>, hostUrl: string)
    requires FIRMWARE_FILENAME in store
    ensures var url := CheckDecision(store, form, vercelUrl, hostUrl).body.fields["url"].text;
      var tail := "/api/firmware/firmware_v2.bin";
      && |url| >= |tail| && url[|url| - |tail|..] == tail
      && (vercelUrl.Some? && vercelUrl.value != "" ==> url == "https://" + vercelUrl.value + tail)
      && (vercelUrl.None? || vercelUrl.value == "" ==>
            && url[..|url| - |tail|] == RStrip(hostUrl, '/')
            && hostUrl[..|url| - |tail|] == RStrip(hostUrl, '/')
            && forall i :: |url| - |tail| <= i < |hostUrl| ==> hostUrl[i] == '/')
  {
    var base := BaseUrl(vercelUrl, hostUrl);
    var tail := "/api/firmware/firmware_v2.bin";
    var url := FirmwareUrl(base, FIRMWARE_FILENAME);
    assert url == base + tail;
    assert CheckDecision(store, form, vercelUrl, hostUrl).body.fields["url"] == JStr(url);
    assert url[|url| - |tail|..] == tail;
    assert url[..|url| - |tail|] == base;
  }

  /** The device's reported version is never compared: with the file present,
      every device gets the same answer. */
  lemma NoVersionComparison(store: FileStore, form1: map<string, string>, form2: map<string, string>,
                            vercelUrl: Option<string>, hostUrl: string)
    requires FIRMWARE_FILENAME in store
    ensures CheckDecision(store, form1, vercelUrl, hostUrl) == CheckDecision(store, form2, vercelUrl, hostUrl)
  {
  }

  /** With no file the answer echoes the reported version, or the default. */
  lemma NoUpdateEchoesReportedVersion(store: FileStore, form: map<string, string>, vercelUrl: Option<string>, hostUrl: string)
    requires FIRMWARE_FILENAME !in store
    ensures var resp := CheckDecision(store, form, vercelUrl, hostUrl);
      && resp.status == 200
      && resp.body.fields.Keys == {"status", "version", "message"}
      && resp.body.fields["version"]
         == JStr(if "firmware_version" in form then form["firmware_version"] else "0x00010000")
  {
  }

  /** `/health` reports firmware available exactly when a check would offer it. */
  lemma HealthAgreesWithCheck(store: FileStore, form: map<string, string>, vercelUrl: Option<string>, hostUrl: string)
    ensures Health(store).body.fields["firmware_available"]
         == JBool(CheckDecision(store, form, vercelUrl, hostUrl).body.fields["status"] == JInt(1))
  {
  }

  /** The acknowledgment never depends on the payload and echoes the device. */
  lemma AckEchoesDevice(deviceId: string, p1: map<string, string>, p2: map<string, string>)
    ensures AckResponse(Post, deviceId, p1) == AckResponse(Post, deviceId, p2)
    ensures AckResponse(Post, deviceId, p1).body.fields == map["status" := JStr("ok"), "device_id" := JStr(deviceId)]
  {
  }

  /** OPTIONS on check, download or ack is an empty 204. */
  lemma PreflightOnEveryRoute(store: FileStore, form: map<string, string>, vercelUrl: Option<string>, hostUrl: string,
                              filename: string, rangeHeader: Option<string>, deviceId: string)
    ensures CheckResponse(Options, store, form, vercelUrl, hostUrl) == Preflight()
    ensures DownloadFirmware(Options, store, filename, rangeHeader) == Preflight()
    ensures AckResponse(Options, deviceId, form) == Preflight()
    ensures Preflight().status == 204 && Preflight().body == Empty
  {
  }
}
