/** Values shared by the three actors of the onion-routing overlay: optional
    values, the numbers JavaScript's parseInt can produce, the port layout
    read from the configuration, and what an HTTP handler answers. */
module Common {

  datatype Option<+T> = None | Some(value: T)

  /** A JavaScript number as produced by parseInt: NaN or an integer. */
  datatype Num = NaN | Int(value: int)

  /** The base ports of the configuration. A user listens on
      baseUserPort + userId, an onion router on baseOnionRouterPort + nodeId. */
  datatype Ports = Ports(baseUserPort: nat, baseOnionRouterPort: nat)

  /** An outgoing POST of `{ message }` to `http://localhost:<port>/message`. */
  datatype Post = Post(port: Num, message: string)

  /** The status a handler answers with: 400, 500 or a 2xx JSON body. */
  datatype Reply = BadRequest | ServerError | Ok

  /** What a handler did: its answer, and the POST it issued, if any. */
  datatype Outcome = Outcome(reply: Reply, post: Option<Post>)
}
