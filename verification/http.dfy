/** The HTTP-shaped outcome of a route handler: a status code, a JSON body
    (or a redirect target) and the table as the handler leaves it. */
module Http {
  import opened Schema

  datatype Body =
    | Row(link: Link)              // one row as JSON
    | Rows(links: seq<Link>)       // an array of rows
    | Error(message: string)       // `{ error: message }`
    | Message(text: string)        // `{ message: text }`
    | Location(url: string)        // `res.redirect(302, url)`
    | Health(version: string)      // `{ ok: true, version }`

  datatype Reply = Reply(status: nat, body: Body, store: Store)

  /** What every handler's `catch` answers with status 500. */
  const InternalErrorMessage := "Internal server error"

  /** Shared by the API lookup and the top-level redirect route. */
  const LinkNotFoundMessage := "Link not found"
}
