/**
 * The part of an HTTP response the handlers decide: the status, the
 * `Content-Type`, the `Location` header and the body. Every other header
 * (set by the framework's response helper) is outside this model.
 */
module Http {
  import opened Wrappers

  const OkStatus: nat := 200
  const SeeOtherStatus: nat := 303
  const TextHtml: string := "text/html"

  datatype Response = Response(status: nat, contentType: Option<string>, location: Option<string>, body: string)

  /** A 200 response carrying an HTML page. */
  function HtmlPage(body: string): (r: Response)
    ensures r.status == OkStatus && r.contentType == Some(TextHtml)
    ensures r.location == None && r.body == body
  {
    Response(OkStatus, Some(TextHtml), None, body)
  }

  /** A bodiless 303 See Other pointing the client at `target`. */
  function SeeOther(target: string): (r: Response)
    ensures r.status == SeeOtherStatus && r.location == Some(target)
    ensures r.contentType == None && r.body == ""
  {
    Response(SeeOtherStatus, None, Some(target), "")
  }
}
