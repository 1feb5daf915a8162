/**
 * Shared vocabulary of the video catalog function app: optional values and
 * results, HTTP responses as (status, body) values, the listing record, and
 * the search that LINQ's FirstOrDefault performs.
 */
module Utilities {

  /** A C# reference that may be null: None stands for null. */
  datatype Option<+T> = None | Some(value: T) {
    function GetOr(default: T): T {
      match this
      case Some(v) => v
      case None => default
    }
  }

  /** The value of a computation that may throw: Err carries what was thrown. */
  datatype Result<+T, +E> = Ok(value: T) | Err(error: E)

  /** The HTTP status codes the handlers produce. */
  datatype Status = OK | BadRequest | NotFound | InternalServerError

  /** One entry of the listing's JSON array (VideoFileModel.cs). */
  datatype VideoFileModel = VideoFileModel(fileName: string, fileSize: int)

  /** A response body: plain text, or the JSON array of the listing. */
  datatype Body = PlainText(text: string) | FileList(files: seq<VideoFileModel>)

  datatype Response = Response(status: Status, body: Body)

  /** The messages both handlers answer with when configuration or container is missing. */
  const ConfigurationMissing := "Configuration is not properly set up."
  const ContainerMissing := "Blob container does not exist."

  /** HttpResponseHelper.CreateErrorResponse: the status with the message as plain text. */
  function ErrorResponse(status: Status, message: string): Response {
    Response(status, PlainText(message))
  }

  /**
   * The index of the first element satisfying p, as LINQ's FirstOrDefault
   * with a predicate finds it; None when no element does.
   */
  function FirstIndexWhere<T>(s: seq<T>, p: T -> bool): (r: Option<nat>)
    ensures r.Some? ==> r.value < |s| && p(s[r.value])
    ensures r.Some? ==> forall j :: 0 <= j < r.value ==> !p(s[j])
    ensures r.None? ==> forall j :: 0 <= j < |s| ==> !p(s[j])
  {
    if |s| == 0 then None
    else if p(s[0]) then Some(0)
    else
      match FirstIndexWhere(s[1..], p)
      case None => None
      case Some(i) => Some(i + 1)
  }

  /** Only the elements up to and including the first match decide the search. */
  lemma {:induction false} FirstIndexWhereIgnoresSuffix<T>(s: seq<T>, t: seq<T>, p: T -> bool)
    requires FirstIndexWhere(s, p).Some?
    ensures FirstIndexWhere(s + t, p) == FirstIndexWhere(s, p)
  {
    var i := FirstIndexWhere(s, p).value;
    assert (s + t)[i] == s[i];
    assert forall j :: 0 <= j < i ==> (s + t)[j] == s[j];
    FirstIndexWhereUnique(s + t, p, i);
  }

  /** The first match is the unique index that matches and has no match before it. */
  lemma FirstIndexWhereUnique<T>(s: seq<T>, p: T -> bool, i: nat)
    requires i < |s| && p(s[i])
    requires forall j :: 0 <= j < i ==> !p(s[j])
    ensures FirstIndexWhere(s, p) == Some(i)
  {
  }
}
