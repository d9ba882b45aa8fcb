/**
 * What a Flask view function hands back, as a value: a status code, the
 * headers it sets, and a body that is empty, raw octets, or a JSON object.
 */
module Http {

  newtype byte = x: int | 0 <= x < 256

  /** The request methods the routes accept. */
  datatype Method = Get | Post | Options

  /** The JSON values the responders put into their objects. */
  datatype Json = JStr(text: string) | JInt(number: int) | JBool(flag: bool)

  datatype Body =
    | Empty
    | Octets(bytes: seq<byte>)
    | Object(fields: map<string, Json>)

  datatype Response = Response(status: int, headers: map<string, string>, body: Body)

  const OCTET_STREAM: string := "application/octet-stream"

  /** `return '', 204`: the answer every route gives to an OPTIONS preflight. */
  function Preflight(): Response
  {
    Response(204, map[], Empty)
  }

  /** `return jsonify(fields), status`. */
  function JsonResponse(status: int, fields: map<string, Json>): Response
  {
    Response(status, map[], Object(fields))
  }

  /** The octets of a response body; empty for the other kinds of body. */
  function BodyBytes(r: Response): seq<byte>
  {
    if r.body.Octets? then r.body.bytes else []
  }
}
