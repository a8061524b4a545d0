# dockerhub-to-rss request handler, modelled in Dafny

dockerhub-to-rss is a small HTTP server. On each request it reads the
configured repositories. For each one it asks the Docker Hub registry API for
the repository's tags. It keeps the tags whose name matches the repository's
regular expression and turns each kept tag into a record. Then it waits for
all repositories, flattens and sorts the records newest first, and writes
them as an Atom feed. A failure inside the promise chain (server.js:31-91)
turns the answer into a 500 with an empty body.

The model follows `server.js` in five modules:

- `Promises`: settled promises (`Fulfilled(value)` or `Rejected`) and
  `Promise.all` over them.
- `Tags`:
  - the slug rewriting of a bare name into `library/<name>`;
  - the registry and tag-page addresses;
  - the filter/project callback, as a method with its loop and its reference
    function `Projected`.
- `Merge`:
  - the flatten loop (method `Flatten`, reference `Concat`);
  - `Array.prototype.sort` with the date comparator. This is an in-place
    insertion sort on an array (`SortByDate`), proved against the stable sort
    `StableSortByDate`. That sort is shown to be sorted newest first, a
    permutation, stable, and the only list with those properties.
- `Atom`:
  - the render loop (`RenderEntries`, reference `Rendered`);
  - the entry block template;
  - the feed document around the blocks.
- `Handler`:
  - the per-request loop that starts one pipeline per repository;
  - the join;
  - the whole response as a value (`Respond`), with the method
    `HandleRequest` proved equal to it.

Dates are modelled as in JavaScript: `Time(ms)` or `Invalid`, the value
`new Date(s)` takes for text it cannot parse. `toISOString` throws a
RangeError on an Invalid Date. That exception happens inside the `then`
callback, so it rejects the chain and the answer is 500. The model keeps that
path: `Rendered` is `Rejected` exactly when some record is undated.

## Notes on the code

- The generation time in the feed header is escaped. The configured address
  and port are written into the self link and the id as they are
  (server.js:81, server.js:83). `Atom.FeedDocument` does the same.
- `new RegExp` runs in the synchronous loop of the handler (server.js:28).
  When a pattern is invalid it throws there. Earlier passes of the loop may
  already have pushed their promises, but `Promise.all(...)` (server.js:54)
  and its `.catch` (server.js:87) do not exist yet. So the exception escapes
  the handler and no 500 is written. This path is left out (see below).
- What `escape` does is defined in `utils.js`, which is not part of this
  model.

## Model

| member | source | states |
|---|---|---|
| Promises.All | server.js:54 | `Promise.all` is fulfilled exactly when every promise is, with their values in input order; a single rejection rejects it |
| Tags.Slug | server.js:30 | the slug always has a namespace; it is the key itself exactly when the key contains `/`, and otherwise `library/` followed by the key |
| Tags.BareNameIsLibrary | server.js:30-33 | a bare name and the same name under `library/` have the same slug and fetch the same registry address |
| Tags.SlugIdempotent | server.js:30 | rewriting a slug again leaves it unchanged |
| Tags.Project | server.js:42-47 | the record for a kept tag: repo is the key, the title is the key, a space and the tag name, the date is the tag's date, and the link is the tags page of the key's slug |
| Tags.MatchIndices | server.js:38-40 | the positions of the kept tags ascend, are in range, and are exactly the tags whose name passes the filter |
| Tags.ProjectedSelectsMatches | server.js:37-50 | the callback returns one record per kept tag, in upstream order; each record has repo = key, title = key, a space and the tag name, the tag's date, and the link `https://hub.docker.com/r/<slug>/tags/` |
| Tags.FilterProject | server.js:35-51 | the push loop returns exactly the reference list of records |
| Tags.OfficialImageExample | server.js:30-51 | for `nginx` with a filter that keeps `1.2.3` and drops `2.0`, the only record is `nginx 1.2.3` linking to `https://hub.docker.com/r/library/nginx/tags/` |
| Tags.OfficialImageRecord | server.js:42-47 | the record built for tag `1.2.3` of `nginx`, field by field |
| Merge.ConcatLength | server.js:56-58 | the flattened list has as many records as all the lists together |
| Merge.ConcatAppend | server.js:56-58 | flattening two runs of lists flattens each and joins them in order |
| Merge.Flatten | server.js:56-58 | the `push(...result)` loop yields the lists joined end to end, in order |
| Merge.StableSortByDate | server.js:59 | reference definition of `entries.sort((a, b) => b.date - a.date)`: each record in turn is inserted after every earlier record at least as new, so the result is a stable newest-first sort (its properties are the lemmas below) |
| Merge.InsertPermutes | server.js:59 | inserting a record into the sorted prefix adds exactly that record |
| Merge.InsertSorted | server.js:59 | inserting a record keeps the prefix newest first |
| Merge.InsertWithKey | server.js:59 | an inserted record lands after every earlier record with the same date |
| Merge.StableSortSorted | server.js:59 | the sorted records are newest first |
| Merge.StableSortPermutes | server.js:59 | the sort neither loses nor adds records |
| Merge.StableSortKeepsTies | server.js:59 | records with equal dates keep their flattened order (stability) |
| Merge.SortedUnique | server.js:59 | two newest-first lists with the same records per date, in the same order, are equal |
| Merge.StableSortIsTheOnlyOne | server.js:59 | any stable newest-first ordering of the records is the reference sort's result |
| Merge.InsertLast | server.js:59 | one insertion step on the array moves the next record into the sorted prefix and leaves the rest alone |
| Merge.SortByDate | server.js:59 | sorting the array in place leaves it equal to the stable newest-first sort of its old contents |
| Atom.View | server.js:64-72 | in a block, `published` and `updated` are the same escaped timestamp, `id` and `title` the same escaped title, the author the escaped key, the link the escaped URL |
| Atom.EntryXml | server.js:64-72 | the `<entry>` markup of one record: the start tag, the quoted author name, `published`, `updated`, the alternate link, `id` and `title`, each between the fixed text of the template, then the end tag |
| Atom.EntryXmlFrame | server.js:64-72 | a block starts with the entry start tag followed by the author name, and ends with the entry end tag |
| Atom.FeedDocument | server.js:78-86 | the response body: the XML declaration, the feed start tag, the title, the self link and id built from the address and port, the alternate link, the escaped generation time, the entry blocks and the closing `</feed>` |
| Atom.FeedDocumentFrame | server.js:78-86 | the document starts with the declaration and feed header, and the entry blocks come last, right before `</feed>` |
| Atom.Rendered | server.js:61-73 | rendering succeeds exactly when every record has a valid date; no records render as the empty text |
| Atom.BlocksAppend | server.js:61-73 | rendering two runs of records renders each and joins the texts |
| Atom.OneBlockPerEntry | server.js:61-73 | the rendered text is one block per record, in order, each built from its record alone |
| Atom.RenderEntries | server.js:61-73 | the `html +=` loop yields the reference rendering, or a rejection on the first undated record |
| Handler.Outcomes | server.js:25-52 | one promise per configured repository, in configuration order, each the fetch followed by the callback |
| Handler.StartRequests | server.js:25-52 | the request loop collects exactly those promises |
| Handler.Aggregated | server.js:54-58 | the join followed by the flatten: it succeeds exactly when every repository's fetch succeeded, and then holds the lists joined in configuration order |
| Handler.SortAndRender | server.js:56-73 | the `then` callback renders the stable newest-first sort of the flattened records |
| Handler.Respond | server.js:54-91 | the answer is either 200 or the empty 500 |
| Handler.HandleRequest | server.js:23-92 | the handler's answer is the reference answer |
| Handler.AnyFailureIsServerError | server.js:87-91 | a failed fetch for any one repository makes the answer 500 with no headers and an empty body; there is no partial feed |
| Handler.ProjectedDated | server.js:42-47 | a repository's records all have valid dates exactly when every tag its filter keeps has a parseable `last_updated` |
| Handler.DatedAppend | server.js:56-58 | two runs of records are all dated exactly when each run is |
| Handler.ConcatDated | server.js:56-58 | the flattened records are all dated exactly when every list's records are |
| Handler.SortKeepsDated | server.js:59 | sorting does not change whether all records are dated |
| Handler.ServedIffFetchedAndDated | server.js:54-91 | the answer is 200 exactly when every fetch succeeded and every kept tag has a valid date; otherwise it is 500 |
| Handler.ListsCountMatches | server.js:37-58 | the callbacks' lists hold as many records as the filters keep tags |
| Handler.EntryCount | server.js:37-62 | the rendered list has one record per kept tag over all repositories |
| Handler.EmptyConfigEmptyFeed | server.js:61-86 | with no repositories the answer is 200 with the Atom content type and a feed with no entries |
| Handler.SingleRepository | server.js:54-58 | with one repository the records are exactly that repository's records |

## Left out

- Reading `config.json`, the HTTP listener, `writeHead` and `end`: these are
  I/O. The response is the `Response` value. The configuration arrives as a
  sequence of repositories, in the order `Object.keys` gives. That order
  (integer-like keys first) is not modelled.
- The registry fetch (`request` with `JSON.parse`): its outcome per
  repository is a parameter, `Rejected` or the parsed tag list.
  - A network error, an HTTP error, a JSON error and a missing `results`
    field all count as `Rejected`.
- Regular expressions: each filter is the predicate `RegExp.prototype.test`
  computes. An invalid pattern makes `new RegExp` throw synchronously inside
  the request handler. That is an uncaught exception, not a 500, and is not
  modelled.
- Date parsing, `toISOString` and the clock: `new Date(s)` is represented by
  the `Date` it yields. `toISOString` is a parameter `iso` on valid dates and
  a rejection on Invalid Dates. The generation time is a parameter `now`.
- `escape` comes from another module. It is an uninterpreted parameter, and
  nothing is assumed about what it escapes.
- `ip` and `port` are the configuration's values as text. They are written
  into the feed header unescaped, as the code does.
- `Promise.all` concurrency and which rejection is reported are not
  modelled. Only whether the join fails matters: any failure gives the same
  empty 500.
- `console.error` is not modelled.
- `Array.prototype.sort` is modelled by an insertion sort.
  `Merge.StableSortIsTheOnlyOne` shows that any stable newest-first sort
  gives the same result, so the choice of algorithm is not observable.
- Merge.SortByDate: invalid dates sort as time 0. In JavaScript the
  comparator then yields `NaN` and the resulting order is unspecified. Such a
  list always fails to render, so the order is never observable.
