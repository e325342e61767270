# xp.dev publishing site — a verified model of its core logic

The site is a small Express application. People register and sign in. They publish text
posts, which live at `/<username>/<slug>`. Each post shows how long ago it was published.
Nearly all of `index.js` is framework wiring. This project models the three pieces of real
logic in it:

- **The relative-time formatter** (`intervals` and `timeSince`). A table of units, largest
  first, is searched for the first unit shorter than the elapsed whole seconds. The count
  is the elapsed seconds divided by that unit, rounded down. It is printed with the unit's
  label, plus an `s` when the count is not one. The table is one shared, mutable object.
  A plural month count overwrites the month label `mês` with `mese` for the rest of the
  process. Because of that, a later one-month result reads `1 mese atrás`. The model is the
  class `RelativeTime.Formatter`, whose field is the table. The pure functions `Choose`,
  `Relabel` and `Describe` give the result and the new table. Only two tables can ever
  exist: `InitialIntervals` and `RenamedIntervals`.
- **The slug codec**. A title becomes `title.trim().split(" ").join("-")`. A slug becomes a
  display title with `split("-").join(" ")`. Both are built from models of the JavaScript
  primitives: `trim` with ECMAScript's whitespace set, `split` on one character, and `join`.
  Each is proved equal to a plain character replacement.
- **The request handlers**: GET `/publicar`, GET `/:username`, GET `/:username/:post`, and
  POST `/login`, `/cadastro` and `/publicar`. They are methods of the class `Routes.Site`,
  which holds the two stores as sequences in insertion order. The session is the class
  `Routes.Session`, with the fields `user` (an email) and `name` (a username). `findOne` is
  the first match, `find` is every match in order, and the `forEach` that fills
  `session.name` leaves the last match.

Things outside the model are parameters:

- the clock, as integer milliseconds (`nowMs`, and `Post.date`);
- the password check from `./user`, as a function argument `check`;
- the store rejecting a lookup or a save, as booleans: `lookupFails` in POST `/login`,
  `readFails` (or `userReadFails` and `postsReadFails`) in the handlers that await a read,
  and `saveFails` in the two handlers that save.

Behaviour worth noting:

- "Just now" is returned when at most one whole second has elapsed, not "less than one":
  the test is a strict `1 < seconds`.
- The month plural is not a per-call exception. It changes the shared table for good. The
  formatter is the field `fmt` of `Site`, so every page reads and changes the same table.
- Encoding splits on the space character only. A tab or a double space inside a title
  survives, and `"a  b"` becomes `"a--b"`.
- A signed-in user who posts to `/login` is redirected with nothing changed. It is not an
  error.
- `session.user` is tested for JavaScript truthiness in GET `/publicar` and POST `/login`,
  so an empty string counts as signed out. POST `/publicar` compares with `==` instead.
- `Post.date` is declared as a string in `post.js`. Here it is the publication instant in
  milliseconds. The stored text keeps whole seconds only, so the post page measures from
  the publication second rounded down. Its "just now" boundary can therefore fall up to
  999 ms earlier than the model's.

The label field of a unit is called `name` in `Interval`, because `label` is a reserved
word in Dafny.

## Model

| member | source | states |
|---|---|---|
| `Seqs.First` | index.js:52 | `find`/`findOne`: the index returned matches and no earlier element does; None exactly when nothing matches |
| `Seqs.Last` | index.js:149-151 | the element a `forEach` overwriting one variable leaves behind: a match with no match after it; None exactly when nothing matches |
| `Seqs.Filter` | index.js:109 | `find({...})`: every element returned matches and is in the store, and every matching element of the store is returned |
| `Seqs.FilterCounts` | index.js:109 | `find` returns each matching record as many times as the store holds it, and nothing else |
| `Seqs.FilterConcat` | index.js:109 | the matches of two stretches of the store come out in store order: those of the first, then those of the second |
| `Seqs.FirstAppend` | index.js:120 | appending to a store never changes an existing first match; with none, the appended element is found if it matches |
| `Seqs.FilterLast` | index.js:148-151 | the last of the matching records is the record at the last match, and there is one exactly when some record matches |
| `Strings.Trim` | index.js:190 | `trim`: the result is a contiguous part of the input, everything removed before and after it is ECMAScript whitespace, and it neither starts nor ends with whitespace |
| `Strings.TrimmedIsFixed` | index.js:190 | trimming a string with no whitespace at either end leaves it unchanged |
| `Strings.Join` | index.js:190 | `join` with no parts is empty, and otherwise starts with the first part |
| `Strings.Split` | index.js:190 | `split` on one character: at least one piece, and no piece contains the separator |
| `Strings.JoinSplitIsReplace` | index.js:190 | `split(c).join(d)` equals replacing every `c` by `d` and changing nothing else |
| `Strings.SplitJoinIsIdentity` | index.js:190 | joining separator-free pieces with the separator and splitting again returns the same pieces |
| `Strings.NatToString` | index.js:60 | the count in the template is a non-empty string of decimal digits with no leading zero |
| `Strings.DecimalRoundTrip` | index.js:60 | reading the printed digits back gives the count that was printed |
| `Slug.Encode` | index.js:190 | a slug is the trimmed title with each space replaced by a hyphen, has the same length, and contains no space |
| `Slug.Decode` | index.js:128 | the post page's title is the slug with each hyphen replaced by a space, and contains no hyphen |
| `Slug.SlugsCollide` | index.js:190 | two titles share a slug if and only if their trimmed forms have the same length and differ only where one has a space and the other a hyphen |
| `Slug.HyphenatedTitleCollides` | index.js:190 | a trimmed title and the same title with its spaces written as hyphens get the same slug |
| `Slug.SpaceAndHyphenShareSlug` | index.js:190 | `"a b"` and `"a-b"` are both stored under `"a-b"`, and that address is titled `a b` (line 128) |
| `Slug.DecodeEncode` | index.js:190 | decoding a slug (line 128) gives back the trimmed title if and only if the trimmed title contains no hyphen |
| `Slug.EncodeIdempotent` | index.js:190 | encoding a slug again changes nothing |
| `RelativeTime.ElapsedSeconds` | index.js:51 | the whole seconds elapsed are the millisecond difference divided by 1000 and rounded down, including negative values for future dates |
| `RelativeTime.Choose` | index.js:52-58 | the chosen unit is the first one in table order shorter than the elapsed time, and "just now" happens exactly when no unit is shorter; the count is at least 1 and is the elapsed time divided by the unit, rounded down |
| `RelativeTime.Relabel` | index.js:59 | a call changes no unit length and no label other than `mês`, and a changed label becomes `mese` |
| `RelativeTime.PluralForm` | index.js:59-60 | with a count other than one, the label left by the call plus `s` is the unit's listed plural, on either reachable table |
| `RelativeTime.Render` | index.js:60 | the text starts with the count, a space and the label, and ends with ` atrás` |
| `RelativeTime.Describe` | index.js:51-60 | the text is `Recentemente` exactly when no unit is shorter than the elapsed time |
| `RelativeTime.Formatter.constructor` | index.js:41-48 | the table starts as year, month, day, hour, minute, second with their lengths in seconds |
| `RelativeTime.Formatter.TimeSince` | index.js:50-61 | returns `Describe` of the table it found, and leaves the table as `Relabel` says; the table stays one of the two reachable tables |
| `RelativeTime.ReachableShape` | index.js:41-48 | every reachable table has the six unit lengths, and its labels are the initial ones except that the month's may be `mese` |
| `RelativeTime.ChosenAt` | index.js:52 | the first unit shorter than the elapsed time is the one chosen |
| `RelativeTime.RelabelKeepsReachable` | index.js:59 | a call leaves a reachable table, and changes it if and only if the table is the initial one and a month count other than one was chosen |
| `RelativeTime.RenamedIsFinal` | index.js:59 | once the month label is `mese`, no call changes the table again |
| `RelativeTime.ChoiceIgnoresLabels` | index.js:52 | the unit and count chosen depend on the unit lengths only, so renaming a label never changes them |
| `RelativeTime.JustNowIffAtMostOneSecond` | index.js:51-56 | the result is `Recentemente` if and only if at most one whole second elapsed, so 1 second and future dates read "just now" |
| `RelativeTime.JustNowWithinTwoSeconds` | index.js:51-56 | in milliseconds: `Recentemente` if and only if less than 2000 ms elapsed, which includes every future date |
| `RelativeTime.DescribeUnits` | index.js:58-60 | a count other than one always prints the unit's plural (`anos`, `meses`, `dias`, `horas`, `minutos`, `segundos`); a count of one prints the current label with no `s`; the text is count, space, word, ` atrás` |
| `RelativeTime.PluralMonths` | index.js:58-60 | from two months up to a year, the month unit is chosen, the table becomes the renamed one, and the text is the number of months followed by ` meses atrás` |
| `RelativeTime.OneMonth` | index.js:58-60 | between one and two months the count is 1, the table is unchanged, and the text is `1 mês atrás` on the initial table and `1 mese atrás` on the renamed one |
| `RelativeTime.SingleMonthAfterPluralMonths` | index.js:59-60 | after a plural month result, a later one-month result reads `1 mese atrás`, where the initial table gives `1 mês atrás` |
| `RelativeTime.SixtySecondsInSeconds` | index.js:52-60 | exactly 60 seconds is not longer than a minute, so it reads `60 segundos atrás` |
| `RelativeTime.NinetySecondsIsOneMinute` | index.js:52-60 | 90 seconds reads `1 minuto atrás` |
| `RelativeTime.TwoRenderings` | index.js:41-61 | through one formatter, 60 days ago reads `2 meses atrás` and a later 31 days ago reads `1 mese atrás` |
| `Routes.AuthorisedSessionIsBacked` | index.js:192-196 | publishing is allowed only with a signed-in session whose email belongs to an account with the requested username |
| `Routes.Session.constructor` | index.js:35-39 | a new session has no user and no name |
| `Routes.Site.constructor` | index.js:41-48 | the site starts with empty stores and one formatter holding the initial table |
| `Routes.Site.ShowPublishForm` | index.js:80-86 | signed out (absent or empty email) redirects to `/`; signed in with a successful lookup of an email some account has shows the form for the first such account; a rejected lookup or an unknown email sends nothing |
| `Routes.Site.ShowUser` | index.js:100-113 | a rejected account lookup sends nothing; 404 if and only if the lookup succeeds and no account has the username; a rejected post query then sends nothing; otherwise the page lists exactly the posts stored under that username, in store order |
| `Routes.Site.ShowPost` | index.js:115-130 | a rejected lookup sends nothing; otherwise 404 if and only if the user or a post at that address is missing; both leave the shared table untouched; otherwise the first post at the address is shown, with the decoded slug as title and the formatter's text and table update for its date |
| `Routes.Site.RememberName` | index.js:148-151 | after the loop the session name is the username of the last account with the email, or unchanged if there is none; the session user is untouched |
| `Routes.Site.Login` | index.js:134-160 | signed in: redirect with no change; lookup error, unknown email, check error and wrong password each give their message with no change; success sets the user to the email and the name to the last account with it |
| `Routes.Site.Register` | index.js:162-185 | a password shorter than 6 (exactly 6 passes) or a failed save gives its message and changes neither store nor session; otherwise the account is appended and the session holds its email and username; a backed session stays backed |
| `Routes.Site.Publish` | index.js:187-213 | a rejected account lookup sends nothing; exactly one post (username, slug of the title, content, now) is appended if and only if the lookup succeeds, the username's account exists, its email is the session's, and the save succeeds; 404 if and only if the lookup succeeds and the account is missing or is not the session's; accounts never change |
| `Routes.StoredAccountIsLast` | index.js:175-178 | a just-stored account is the last one with its email, so registration puts its username in the session |
| `Routes.PublishedPostIsFound` | index.js:120 | a post published under a slug is found at that address, unless an earlier post by the same user has the slug, and then the earlier one is shown |
| `Routes.FirstOfCollidingPostsWins` | index.js:190-200 | publishing `"a b"` and then `"a-b"` stores both under `a-b`, and that address shows the first one, titled `a b` |
| `Routes.CannotPublishAsAnother` | index.js:192-196 | naming an existing account whose email is not the session's never authorises a post |

## Left out

- Database connection, schema registration and the empty pre-save hook in `post.js`
  (index.js:12-18): behaviour of the database library. Only the four field names of a post
  are kept.
- Express setup, body parsing, static files, template rendering and `app.listen`: transport
  and I/O. Responses carry only the data a handler decides on. The page title and the
  signed-in name passed to every template are not modelled.
- GET `/`, GET `/login` and GET `/cadastro`: they only render a page (the last two redirect
  to `/` when signed in). They make no decision beyond what `ShowPublishForm` and `Login`
  already model.
- Logout (`/deslogar`) and the per-process session secret: session-store behaviour.
- Password hashing and `isCorrectPassword`: the user module is not part of this model. The
  check is the function argument `check`.
- The clock and dates: `Date.now()` and `new Date()` are the integer `nowMs`. Formatting a
  date into the string-typed `date` field, and parsing it back, are not modelled. This drops
  the milliseconds of a post's date, which the model keeps.
- The second `User.find` in login and registration (index.js:148, 175) is assumed to
  succeed. Its rejection is not handled by the code and would leave the request without a
  response. The awaited reads of the other handlers are modelled: a rejected read gives
  `NoResponse` and changes nothing.
- `NoResponse` models only the unanswered request. Express does not catch a rejection in
  an async handler. Depending on the Node.js version, an unhandled rejection may end the
  whole process, which resets the shared table and drops every session. Process restarts
  are not modelled.
- Request bodies missing a field, which make the JavaScript throw (`title.trim()`,
  `password.length`): every field is a string here.
- `Routes.Site.Register`: compares the length in characters; JavaScript counts UTF-16 code
  units, which differ for characters outside the Basic Multilingual Plane.
- Route order: Express tries `/login`, `/cadastro`, `/publicar` and `/deslogar` before
  `/:username`, so a user with one of those names has no reachable page. Path decoding is
  also not modelled.
- `timeSince` as called from templates for the feed and user pages: those calls are in
  templates that are not part of this model.
- Asynchronous callbacks and concurrent requests: each handler runs to completion on its
  own.
