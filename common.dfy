/** Values shared by every part of the backend model: optional values, the
    outcome of a request handler, the HTTP errors the handlers raise, and the
    JSON values that the image columns are decoded into. */
module Common {

  datatype Option<+T> = None | Some(value: T)

  /** Why a request was refused with status 400. */
  datatype Reason =
    | UnsupportedImageFormat   // process_image: extension not allowed
    | ImageTooLarge            // validate_image_size: over MAX_IMAGE_SIZE_MB
    | InvalidDateFormat        // strptime of a date field failed
    | UsernameExists           // register: username already taken
    | UnsupportedAvatarType    // upload_avatar: content type not allowed
    | AvatarTooLarge           // upload_avatar: over 5 MiB

  /** The HTTPException a handler raises (or an uncaught ValueError, which
      the server turns into a 500 response). */
  datatype HttpError =
    | BadRequest(reason: Reason)
    | Forbidden
    | NotFound
    | InternalError
  {
    function StatusCode(): int {
      match this
      case BadRequest(_) => 400
      case Forbidden => 403
      case NotFound => 404
      case InternalError => 500
    }
  }

  datatype Result<+T> = Ok(value: T) | Err(error: HttpError)

  /** What json.loads can produce, with numbers restricted to integers. */
  datatype Json =
    | JNull
    | JBool(b: bool)
    | JNumber(n: int)
    | JString(s: string)
    | JArray(items: seq<Json>)
    | JObject(fields: seq<(string, Json)>)

  /** The JSON strings of a list of paths, as json.loads returns a list
      that json.dumps made from those paths. */
  function JStrings(paths: seq<string>): (r: seq<Json>)
    ensures |r| == |paths|
    ensures forall k :: 0 <= k < |paths| ==> r[k] == JString(paths[k])
  {
    if paths == [] then [] else [JString(paths[0])] + JStrings(paths[1..])
  }
}
