/** Values shared by the whole model: the file store's shape, the requests sent to
    the image host and its replies, and the outcome of an operation that can abort
    the run. */
module Types {

  datatype Option<T> = None | Some(value: T)

  /** A filesystem path as its list of components (path.join's result, unnormalised). */
  type Path = seq<string>

  datatype Node = File | Dir

  /** The local file store: what stat finds at each path. The root [] is implicit. */
  type Entries = map<Path, Node>

  datatype Request = Head(url: string) | Get(url: string)

  /** What the HTTP client gets back: a response with its status code, or nothing
      at all (connection refused, timeout, DNS failure, ...). */
  datatype Reply = Response(status: nat) | NoResponse

  /** Why a run aborts: a reply that is neither a success nor a 404, or a store
      operation refused at a path. */
  datatype Failure = BadReply(request: Request, reply: Reply) | StoreFailure(path: Path)

  /** The result of an operation that either completes or aborts the whole run. */
  datatype Outcome<T> = Ok(value: T) | Fatal(failure: Failure)
}
