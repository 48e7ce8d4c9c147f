/** What a request handler hands back: a JSON object, as its (key, value)
    pairs in order, and the HTTP status code. */
module Http {

  datatype Reply = Reply(body: seq<(string, string)>, code: int)

  /** The reply of every handler whose body raised. */
  const ErrorReply := Reply([("error", "An error occurred")], 500)
}
