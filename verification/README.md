# URL shortener core in Dafny

This project models the core of a small URL-shortening service. Clients register a long URL under a short alphanumeric code. Visiting the code redirects to the URL, and the service counts clicks and records the time of the last one.

The model covers:

- the `links` table, as an immutable map from `code` to row (`Schema`). The map key is the UNIQUE constraint. `WellFormed` states the column bounds: `VARCHAR(8)` for the code and a 32-bit `INTEGER` for the counter.
- the code allocator (`Codes`, `Links.AllocateCode`): the 62-symbol generator, the `^[A-Za-z0-9]{6,8}$` format, and the ten-attempt retry loop.
- the `/api/links` handlers (`Links`): create, list, look up in stats or redirect mode, and delete. Each is a transition that returns a status, a JSON body and the new table (`Http.Reply`).
- the app's top-level routes (`Server`): the health check and the `GET /:code` redirect route, in the order the app registers them.
- the pure helpers of the dashboard page (`Dashboard`): form checks and payload, the create-error texts, `truncateUrl`, and the filter box. `Text` holds the JavaScript string built-ins they use.

Behaviour of the code worth knowing:

- Redirect-mode lookup (`GET /api/links/:code?redirect=true`) answers the row read *before* the click update. It does not answer the row as committed after it. See `LinksProperties.RedirectModeAnswersRowBeforeClick`.
- The table itself only bounds codes to 8 characters. The 6–8 alphanumeric format is enforced by the create handler alone. `LinksProperties.HandlersKeepCodesValid` proves that it is a table invariant: create, both lookup modes, delete and the top-level routes all keep it, and the listing does not change the table.
- The top-level redirect route applies no format check. It only refuses reserved segments: anything containing `.`, starting with `api`, or equal to `healthz`. The health route is registered first and Express matches paths without regard to ASCII case, so `healthz`, `Healthz` and `HEALTHZ` all get the health answer. As a result, valid custom codes such as `api123` can be created but their short URLs answer 404, and those that spell `healthz` in any case answer the health check (`Server.ValidCodesTheRouteRefuses`).
- PostgreSQL `text` and `varchar` cannot hold U+0000. Any query with such a parameter fails, and the handler's catch answers 500. Express percent-decodes path parameters, so `%00` in a path reaches the handlers as U+0000. A url holding it passes the create handler's checks and then fails at the insert.
- `VARCHAR(8)` refuses a longer value unless every character past the eighth is a space. Such a value is cut to eight characters. The create handler only inserts codes of 6 to 8 alphanumerics, so this never happens through it (`Codes.ValidCodeIsStoredAsIs`).
- `total_clicks` is a PostgreSQL `INTEGER`. A click on a counter already at 2^31-1 makes the `UPDATE` fail. The handler's catch then answers 500 and the table is unchanged.

## Model

| member | source | states |
|---|---|---|
| `Schema.CodeColumnValue` | backend/db/pool.js:31 | A value that `VARCHAR(8)` accepts is stored whole when it has at most 8 characters. A longer one is stored as exactly its first 8 characters, and everything cut off is a space. |
| `Schema.Insert` | backend/db/pool.js:29-36 | An insert succeeds exactly when code and url hold no U+0000, the code fits `VARCHAR(8)`, and its stored form is not yet present. It then adds exactly one key, the stored form of the code, whose row has the given url, 0 clicks, NULL `last_clicked_at` and creation time `now`. Every other row is as it was, and the table invariants are kept. |
| `Schema.RecordClick` | backend/routes/links.js:109-112 | The click update fails exactly when the code holds U+0000 or the row's counter is already at the `INTEGER` maximum. Otherwise it raises that row's counter by one and sets its last-click time to `now`. It keeps the row's code, url and creation time, every other row, and the key set. An unknown code changes nothing. |
| `Codes.GenerateCode` | backend/routes/links.js:6-13 | A generated code has one character per random draw. Every character is alphanumeric, and the draw can be read back from the character. |
| `Codes.IndexOf` | backend/routes/links.js:7-10 | Each alphanumeric character sits at a position of the alphabet from which `charAt` gives that same character back. |
| `Codes.GenerateCodeRoundTrip` | backend/routes/links.js:6-13 | Generating is a bijection between draws and alphanumeric strings: decoding a generated code gives back the draw, and generating from the decoded draw of an alphanumeric string gives back the string. |
| `Codes.GeneratedCodeIsValid` | backend/routes/links.js:6-29 | Every code `generateCode()` returns with its default length of 6 passes `isValidCode` and fits the 8-character column. |
| `Codes.TestCodeRegex` | backend/routes/links.js:25-29 | A greedy left-to-right match of `^[A-Za-z0-9]{6,8}$` succeeds exactly when the string is 6 to 8 ASCII letters or digits. |
| `Codes.ValidCodeIsStoredAsIs` | backend/routes/links.js:25-29 | A code that passes `isValidCode` holds no U+0000 and fits `VARCHAR(8)` uncut, so the table stores it exactly as given. |
| `Codes.FirstFreeAttempt` | backend/routes/links.js:55-66 | The retry loop returns the first candidate that is absent from the table, with every earlier one present. When it returns nothing, every candidate up to the attempt limit collides. |
| `Links.AllocateCode` | backend/routes/links.js:41-67 | A truthy custom code is taken exactly when it is valid and free. Otherwise it is refused with 400 (bad format) or 409 (taken). Without one, a generated code is taken exactly when one of the first ten candidates is free. That code is the first free one, is 6 characters long and valid. When all ten collide the answer is 500. An allocated code is always valid and absent from the table. |
| `Links.CreateLink` | backend/routes/links.js:32-80 | Create answers only 201, 400, 409 or 500. Every failure leaves the table unchanged and carries an error. 400 means exactly a missing, empty or unparsable url, or a truthy invalid custom code. 409 means exactly a valid custom code already present. 500 "Failed to generate unique code" means exactly that all ten generated candidates collided. 500 "Internal server error" means exactly that a code was available but the url holds U+0000, so the insert failed. 201 means exactly an accepted url free of U+0000 and an available code. It adds exactly one fresh row under a valid code that was absent and answers that row. That code is the allocator's choice: the custom one when given, otherwise the first free generated candidate, which has 6 characters. A 400 for a bad code and every 409 carry the allocator's status and message. The table invariants are kept. |
| `Links.GetLink` | backend/routes/links.js:96-120 | A code holding U+0000 gives 500 and no change. Otherwise an unknown code gives 404 and no change. Stats mode answers the row and changes nothing. Redirect mode answers the row as read before the update and counts one click at `now` on that row only. A counter at the `INTEGER` maximum gives 500 with no change. The keys and every other row are unchanged, and the table invariants are kept. |
| `Links.DeleteLink` | backend/routes/links.js:123-138 | A code holding U+0000 gives 500 and no change. Otherwise deleting a present code answers 200 and removes exactly that key, so the table shrinks by one. Deleting an absent code answers 404 with the table unchanged. Every remaining row is as it was. |
| `Links.ListLinks` | backend/routes/links.js:83-93 | The listing has as many rows as the table, each a row of the table, no code twice and every row present, ordered by `created_at` descending. It changes nothing. |
| `LinksProperties.HandlersKeepCodesValid` | backend/routes/links.js:41-75 | If every code in the table is 6–8 alphanumerics, that still holds after create, lookup (either mode), delete and a visit to a non-empty top-level path. These are all the routes that can change the table. |
| `LinksProperties.DeleteUndoesCreate` | backend/routes/links.js:69-133 | Deleting the code a successful create returned gives 200 and exactly the table as it was before the create. |
| `LinksProperties.GetAfterDeleteIsNotFound` | backend/routes/links.js:101-133 | Whenever a delete answers 200, looking the same code up afterwards in either mode is 404. |
| `LinksProperties.RedirectModeAnswersRowBeforeClick` | backend/routes/links.js:101-115 | A stats lookup right after a redirect-mode lookup shows one click more than the redirect-mode answer, and the click time. The redirect-mode answer still carries the old last-click time. |
| `LinksProperties.CreateFollowReadDelete` | backend/routes/links.js:32-138 | On an empty table: create without a code gives 201 with a valid 6-character code. One redirect-mode lookup answers 0 clicks. A stats lookup then shows 1 click, the click time and the url. Delete gives 200 and an empty table, and a later lookup is 404. |
| `Server.Redirect` | backend/server.js:26-56 | A reserved segment gives 404 with no change. A segment holding U+0000 gives 500 with no change. An unknown one gives 404 "Link not found". The answer is 302 exactly for a known, non-reserved, U+0000-free code whose counter is below the maximum. That 302 points to the stored url and counts one click at `now` on that row. A known code whose counter is at the maximum gives 500 with no change. 500 happens exactly in these two cases. Every answer but 302 leaves the table unchanged. No other row and no key changes. |
| `Server.Visit` | backend/server.js:21-56 | For a non-empty segment, any ASCII-case spelling of `healthz` gets 200 with the health body and no change, whatever the table holds. Every other segment gets the redirect route's answer. 302 happens exactly for a segment that is not `healthz` in any case, not reserved, free of U+0000, known, and below the counter maximum. |
| `Server.VisitsAreCounted` | backend/server.js:21-48 | N visits of the path `/code` raise the code's counter by exactly N and leave the last visit's time. This holds for a known code that no spelling of `healthz` matches, that the route does not reserve, and that holds no U+0000, as long as the counter stays within the maximum. The url, code, creation time and every other row are unchanged. |
| `Server.FreshLinkVisitedNTimes` | backend/server.js:21-48 | A freshly inserted link whose path reaches the short-URL route, visited N > 0 times, shows exactly N clicks and the last visit's time. |
| `Server.NoFormatCheckOnRedirect` | backend/server.js:28-36 | A known code that fails `isValidCode` (`ab`) still redirects with 302: the route looks segments up as they are. |
| `Server.ValidCodesTheRouteRefuses` | backend/server.js:21-33 | `api123`, `healthz` and `HEALTHZ` pass `isValidCode`. Whatever the table holds, the app answers 404 for `api123` and the health answer for the other two, so none of them can be followed. |
| `Text.TrimStart` | frontend/src/pages/Dashboard.jsx:38 | The result is a suffix of the input that starts with a non-whitespace character, and everything dropped is ECMAScript whitespace. |
| `Text.TrimEnd` | frontend/src/pages/Dashboard.jsx:38 | The result is a prefix of the input that ends with a non-whitespace character, and everything dropped is ECMAScript whitespace. |
| `Text.TrimEmptyIff` | frontend/src/pages/Dashboard.jsx:38-41 | `trim()` gives the empty string exactly when every character is whitespace. |
| `Text.Lower` | frontend/src/pages/Dashboard.jsx:124-125 | Lower-casing keeps the length and leaves no capital letter. Each capital becomes its small letter (32 code points on), and every other character is kept. |
| `Text.LowerFixedIff` | frontend/src/pages/Dashboard.jsx:124-125 | A string is its own lower case exactly when it holds no capital letter. |
| `Text.ContainsIff` | frontend/src/pages/Dashboard.jsx:124-125 | `includes` holds exactly when some window of the haystack equals the needle. |
| `Dashboard.Submit` | frontend/src/pages/Dashboard.jsx:35-68 | A blank url shows "URL is required", an unparsable one "Invalid URL format", and a non-blank code failing the regex the format message. In each case nothing is sent. A request is sent exactly when none of these applies. It carries the url as typed, and carries a code exactly when the typed code is non-blank. That code is the one typed and is valid. |
| `Dashboard.CodeHasNoWhitespace` | frontend/src/pages/Dashboard.jsx:53-67 | A code that passed the regex is unchanged by `trim()`. |
| `Dashboard.SentFormPassesServerChecks` | frontend/src/pages/Dashboard.jsx:35-70 | A request the dashboard sends never gets 400 from the create handler. It can only succeed (201), conflict (409) or fail with 500. A 500 comes from running out of generated codes, or from the insert refusing a url that holds U+0000. |
| `Dashboard.CreateErrorText` | frontend/src/pages/Dashboard.jsx:77-84 | 409 shows "Code already exists". 400 shows the server's message when it is non-empty, else "Invalid input". Any other failure shows "Failed to create link". The text is never empty. |
| `Dashboard.FailedCreateMessages` | frontend/src/pages/Dashboard.jsx:77-84 | For each refusal of the create handler, the dashboard shows: on 400 the server's own message, which is its url or code message, on 409 the conflict text, on 500 the generic text. |
| `Dashboard.TruncateUrl` | frontend/src/pages/Dashboard.jsx:105-107 | A url of at most `maxLength` characters is shown whole. A longer one becomes exactly `maxLength + 3` characters ending in `...`. The result always starts like the url and is never longer than `maxLength + 3`. |
| `Dashboard.TruncateUrlUnchangedIff` | frontend/src/pages/Dashboard.jsx:105-107 | A url is shown unchanged exactly when it fits, or when it is exactly three characters too long and already ends in `...`. A url one or two characters too long is shown longer than it is. |
| `Dashboard.FilterLinks` | frontend/src/pages/Dashboard.jsx:122-126 | The filtered list is a subsequence of the input in which every element matches. A link is in it exactly when it is in the input and its lower-cased code or url contains the lower-cased filter text. A matching link occurs as often as in the input and a non-matching one not at all. |
| `Dashboard.EmptyFilterKeepsAll` | frontend/src/pages/Dashboard.jsx:122-126 | An empty filter keeps the whole list, in order. |
| `Dashboard.FilterIgnoresCase` | frontend/src/pages/Dashboard.jsx:122-126 | Lower-casing the filter text first does not change the result. |
| `Dashboard.FilterByCodeKeepsLink` | frontend/src/pages/Dashboard.jsx:122-126 | Typing a link's own code, in any letter case, keeps that link. |

## Left out

- `isValidUrl` and the dashboard's `new URL(...)` check: URL parsing follows the WHATWG URL Standard and is not modelled. It is the parameter `urlParses`. The model assumes browser and server parse alike.
- `Math.random` in `generateCode`: each candidate is a supplied draw of six alphabet positions. `Links.EnoughCandidates` asks for at least ten of them, one per possible attempt.
- `CURRENT_TIMESTAMP`: the current time is the parameter `now`, and timestamps are natural numbers.
- The `id SERIAL` column: rows are identified by their unique `code`.
- Connection pool settings, SSL, timeouts and the pool error handler that exits the process: these are I/O configuration.
- Database failures that do not depend on the data (lost connection, timeouts, an unreachable server): they would reach the handlers' catch-all 500 and are not modelled. Failures that do depend on the data are modelled: the UNIQUE and `VARCHAR(8)` constraints, U+0000 in a parameter, and the counter overflow.
- Races between the existence check and the insert, and between concurrent click updates: the model is sequential.
- Request fields that are not strings (a numeric `code`, an array-valued `redirect` query): fields are modelled as optional strings.
- Text.Lower: lower-cases ASCII letters only. `toLowerCase` also maps non-ASCII letters using Unicode tables, which are not modelled.
- Strings are sequences of Unicode scalar values. JavaScript strings can also hold lone UTF-16 surrogates, which node-postgres replaces with U+FFFD when it sends them, so such a url would be stored and answered changed. Request fields holding lone surrogates are outside the model.
- Dashboard.TruncateUrl: lengths count Unicode scalar values. JavaScript counts UTF-16 code units, so the two differ for characters outside the Basic Multilingual Plane.
- Links.ListLinks: rows created at the same instant come out in an unspecified order, as with SQL's `ORDER BY` on ties. The contract does not fix their relative order.
- The dashboard's sort comparator: it never answers 0 for equal keys, so the result of `Array.prototype.sort` is implementation-defined.
- `fetchLinks`, `handleDelete`, `formatDate` and `getShortUrl` on the dashboard, along with React state, `setTimeout` and `window.confirm`: these are rendering and side effects.
- The frontend redirect page, copy button, spinner, router and axios wrapper: these are navigation and browser I/O.
- CORS, JSON body parsing, static file serving and the catch-all route that sends the React app: Express plumbing. A segment naming a file of the built frontend is answered by the static middleware before any route and is not modelled. Neither is `GET /`: `/:code` never matches an empty segment, so `Server.Visit` takes only non-empty ones.
- Percent-decoding of path parameters: `Server.Visit` takes the segment as decoded. The health route matches the raw path, so a percent-encoded spelling of `healthz` reaches the redirect route instead, where only the all-lower-case form is reserved. Trailing slashes and multi-segment paths are not modelled.
- The ad-hoc scripts that exercise a live database and server.
