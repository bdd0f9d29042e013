/**
 * The ORCID public registry as seen by the plugin: one GET of a works URL,
 * answered by a transport error or by a body whose JSON decoding is given.
 */
module OrcidApi {
  import opened Wrappers
  import opened Works

  /** What `wp_remote_get` followed by `json_decode` yields. */
  datatype Reply =
    | TransportError                         // the request itself failed
    | Body(document: Option<WorksDocument>)  // `None`: the body did not decode to an object

  datatype Request = Request(url: string, accept: string)

  const ApiBase := "https://pub.orcid.org/v3.0/"

  /** The request of lines 63-68. */
  function WorksRequest(orcid: string): Request {
    Request(ApiBase + orcid + "/works", "application/json")
  }

  /** The remote endpoint; `requests` records every GET made, so that fetches can be counted. */
  class Endpoint {
    var reply: Reply
    ghost var requests: seq<Request>

    constructor (reply: Reply)
      ensures this.reply == reply && requests == []
    {
      this.reply := reply;
      requests := [];
    }

    /** `wp_remote_get`: one request, answered with `reply`. */
    method Get(req: Request) returns (r: Reply)
      modifies this
      ensures r == reply && reply == old(reply)
      ensures requests == old(requests) + [req]
    {
      r := reply;
      requests := requests + [req];
    }
  }
}
