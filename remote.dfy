/** The image host as the downloader sees it through axios: a fixed answer for
    every HEAD and GET URL. */
module Remote {
  import opened Types

  datatype Remote = Remote(head: string -> Reply, get: string -> Reply)

  function ReplyTo(remote: Remote, request: Request): Reply {
    match request
    case Head(url) => remote.head(url)
    case Get(url) => remote.get(url)
  }

  /** axios resolves its promise for a 2xx status (its default validateStatus)
      and rejects for everything else. */
  predicate Accepted(reply: Reply) {
    reply.Response? && 200 <= reply.status < 300
  }

  /** `error.response.status === 404` */
  predicate NotFound(reply: Reply) {
    reply == Response(404)
  }

  /** The promise both request sites build: false when axios resolves, true on
      a 404, and any other rejection aborts the run (including one without a
      response, whose `error.response.status` itself throws). */
  function Verdict(request: Request, reply: Reply): (r: Outcome<bool>)
    ensures r == Ok(false) <==> Accepted(reply)
    ensures r == Ok(true) <==> NotFound(reply)
    ensures r.Fatal? <==> !Accepted(reply) && !NotFound(reply)
    ensures r.Fatal? ==> r.failure == BadReply(request, reply)
  {
    if Accepted(reply) then Ok(false)
    else if NotFound(reply) then Ok(true)
    else Fatal(BadReply(request, reply))
  }

  /** The host, with the requests sent to it so far (ghost: axios keeps no log). */
  class Server {
    const remote: Remote
    ghost var log: seq<Request>

    constructor (remote: Remote)
      ensures this.remote == remote && log == []
    {
      this.remote := remote;
      log := [];
    }

    /** axios.request({ url, method }) */
    method Send(request: Request) returns (reply: Reply)
      modifies this
      ensures reply == ReplyTo(remote, request)
      ensures log == old(log) + [request]
    {
      reply := match request
        case Head(url) => remote.head(url)
        case Get(url) => remote.get(url);
      log := log + [request];
    }
  }
}
