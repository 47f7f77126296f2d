/** What one `requests.get` inside a `try` block hands to the code after it.
    The network, the headers and the HTML parser are outside the model: a
    fetch either raised somewhere inside the `try` (any exception of
    `requests` or of the parser), or produced a status code and a parsed
    page, abstracted as a value of type P chosen by each script. */
module Web {

  /** The only status either script treats as success. */
  const StatusOk := 200

  datatype Fetch<P> = Raised | Response(status: int, page: P)
}
