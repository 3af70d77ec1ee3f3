# Book catalog and reader: a verified model

The repository is a small reading application. A GraphQL server answers two
root queries over an in-memory list of books: `books` (all of them) and
`book(id)` (one by id). Each book has pages, and each page has its raw
`content` and a list of `tokens`. A token gives the character range
`position: [start, end]` (both ends inclusive) of a word, plus its `value`.
The React `Book` component shows one page at a time. It cuts the page
content around the token ranges so that each word is its own element, and
it keeps a `currentPage` index that the Previous and Next buttons move.

The model has three modules:

- `Schema` (`Schema.dfy`): the `Token`, `Page` and `Book` records and the
  two resolvers. The dataset is a `seq<Book>` parameter. `FindBook` is the
  first-match `find`, and it returns `Option<Book>` (from `Wrappers.dfy`).
- `BookView` (`BookView.dfy`), the renderer part:
  - `JsSubstring` is JavaScript's `substring`, with its clamping of indices
    and its swapping of reversed arguments.
  - `RenderContent` is the loop that threads the cursor `lastIndex`.
  - It is proved equal to the cursor-free specification `Render`.
  - The lemmas about `Render` give the shape of the output and the text it
    reconstructs.
- `BookView`, the pagination part: the `Pager` class holds `currentPage`
  and has the two button handlers. A ghost history of the buttons pressed
  ties its state to the pure step functions `NextPage`, `PrevPage` and
  `Run`. The range and reachability lemmas are stated on those functions.

Two behaviours of `renderContent` are easy to misread, and the model keeps
both:

- `renderContent` produces one gap+word pair per token and nothing more.
  Text after the last token is never shown, and a page without tokens
  renders as nothing, not as its whole content.
- `RenderedText` and `ShowsWholeContent` state exactly what does get shown:
  the content up to the last token's end.
- `TrailingTextExample` works through the example "The cat sat" with the
  single token "cat". The output is "The cat", so " sat" is dropped.
- The code does not check its tokens, so the model adds no error path for
  malformed ones. Out-of-range or overlapping positions go through
  `JsSubstring` exactly as they do in the browser.

## Model

| member | source | states |
|---|---|---|
| `Schema.FindBook` | graphql-book-server/schema.js:37-39 | a returned book is in the dataset and has the requested id; the result is absent exactly when no book has that id; a returned book sits at an index with no matching book before it |
| `Schema.FindBookFirst` | graphql-book-server/schema.js:38 | when book `k` is the first with a given id, the lookup returns exactly book `k` |
| `Schema.LookupOfUniqueId` | graphql-book-server/schema.js:38 | with unique ids, looking up any book's id returns that book |
| `Schema.FindBookStopsAtFirst` | graphql-book-server/schema.js:38 | books after a match never change a successful lookup: the scan stops at the first match |
| `Schema.AllBooks` | graphql-book-server/schema.js:43-45 | the `books` resolver returns the dataset itself, same elements, same order |
| `BookView.JsSubstring` | graphql-book-server/src/components/Book.js:25-26 | `substring` never yields more characters than the string has |
| `BookView.JsSubstringCases` | graphql-book-server/src/components/Book.js:25-26 | on in-range indices `substring` is the slice between them, with reversed arguments swapped; an end past the string stands for the string's end, and a negative end with an in-range start gives the text before the start |
| `BookView.Render` | graphql-book-server/src/components/Book.js:24-37 | one fragment per token; no tokens give no fragments |
| `BookView.RenderContent` | graphql-book-server/src/components/Book.js:22-38 | the loop that threads `lastIndex` yields exactly the cursor-free `Render`, one fragment per token |
| `BookView.RenderShape` | graphql-book-server/src/components/Book.js:23-27 | fragment `i` is bound to token `i` and its word is `substring(start, end+1)`; the first gap starts at offset 0, and the gap before token `i+1` runs from token `i`'s `end+1` to token `i+1`'s start |
| `BookView.WellFormedIffNeighbours` | graphql-book-server/src/components/Book.js:24-27 | for in-bounds tokens, the pairwise no-overlap condition used by the lemmas holds exactly when each token starts after the previous one ends |
| `BookView.WellFormedFragments` | graphql-book-server/src/components/Book.js:25-27 | for in-bounds, ordered, non-overlapping tokens, each gap and word is a plain slice of the content; the word has `end-start+1` characters, is bound to its own token, and equals `token.value` when the value matches the content |
| `BookView.TextOfPrefix` | graphql-book-server/src/components/Book.js:23-37 | for well-formed tokens, the first `k` fragments show exactly the content up to the cursor after token `k-1` |
| `BookView.RenderedText` | graphql-book-server/src/components/Book.js:23-37 | for well-formed tokens, all gaps and words together give the content prefix up to the last token's end; no tokens give empty text |
| `BookView.ShowsWholeContent` | graphql-book-server/src/components/Book.js:24-37 | for well-formed tokens, the rendered text is the whole content if and only if the final cursor is at the end of the content, so any text after the last token is lost |
| `BookView.TrailingTextExample` | graphql-book-server/src/components/Book.js:24-37 | "The cat sat" with token [4,6] renders as the single fragment ("The ", "cat"), showing "The cat" |
| `BookView.NextPage` | graphql-book-server/src/components/Book.js:7-8 | the index after Next: one more exactly when it is below `pageCount-1`, unchanged otherwise |
| `BookView.PrevPage` | graphql-book-server/src/components/Book.js:13-14 | the index after Previous: one less exactly when it is above 0, unchanged otherwise |
| `BookView.RunInRange` | graphql-book-server/src/components/Book.js:4-16 | any sequence of Previous/Next presses from an in-range index (such as the initial 0) keeps `0 <= currentPage`, and below the page count when the book has pages |
| `BookView.NextRepeated` | graphql-book-server/src/components/Book.js:6-10 | `n` presses of Next advance `n` pages but stop at the last page |
| `BookView.NextRepeatedWithoutFurtherPages` | graphql-book-server/src/components/Book.js:6-10 | in a book with zero pages or one page, any number of Next presses leaves the index at 0 |
| `BookView.PrevRepeated` | graphql-book-server/src/components/Book.js:12-16 | `n` presses of Previous go back `n` pages but stop at page 0 |
| `BookView.WalkThroughBook` | graphql-book-server/src/components/Book.js:4-16 | from page 0, `pageCount-1` presses of Next reach the last page and one more is a no-op; from the last page, `pageCount-1` presses of Previous reach page 0 and one more is a no-op |
| `BookView.Pager.constructor` | graphql-book-server/src/components/Book.js:4 | `currentPage` starts at 0 with an empty history |
| `BookView.Pager.HandleNextPage` | graphql-book-server/src/components/Book.js:6-10 | `currentPage` grows by exactly one when it is below `pages.length - 1` and is unchanged otherwise; the invariant (in range, equal to the run of the history) is kept |
| `BookView.Pager.HandlePrevPage` | graphql-book-server/src/components/Book.js:12-16 | `currentPage` drops by exactly one when it is above 0 and is unchanged otherwise; the invariant is kept |

## Records and specification functions

These definitions carry no contract of their own; the members above state
their properties.

| definition | source | meaning |
|---|---|---|
| `Schema.Token` | graphql-book-server/schema.js:4-10 | `position[0]` and `position[1]` as `start` and `end`, plus `value` |
| `Schema.Page` | graphql-book-server/schema.js:12-19 | `number`, `content` and the ordered `tokens` |
| `Schema.Book` | graphql-book-server/schema.js:21-29 | `id`, `title`, `author` and the ordered `pages` |
| `BookView.Fragment` | graphql-book-server/src/components/Book.js:29-36 | one element of the `map`: the gap text, the word text and the token bound to the click handler |
| `BookView.Cursor` | graphql-book-server/src/components/Book.js:23-27 | the value of `lastIndex` before token `i` |
| `BookView.FragmentAt` | graphql-book-server/src/components/Book.js:25-26 | the fragment for token `i`, computed from `Cursor` |
| `BookView.Text` | graphql-book-server/src/components/Book.js:31-33 | the text a fragment sequence shows, each gap followed by its word |
| `BookView.WellFormed` | graphql-book-server/src/components/Book.js:25-27 | tokens in bounds, with `start <= end`, ordered and not overlapping |
| `BookView.Press` | graphql-book-server/src/components/Book.js:6-16 | one press of Previous or Next |
| `BookView.Run` | graphql-book-server/src/components/Book.js:4-16 | the index after a sequence of presses |

## Left out

- `graphql-book-server/src/App.js` is not part of this model. It fetches data with Apollo `useQuery`, has loading and error branches, and renders JSX. All of that is asynchronous I/O and UI, and the file does not parse as written.
- The GraphQL library wiring (`GraphQLObjectType`, `GraphQLSchema`) consists of foreign library calls. Only the record shapes and the resolver bodies are modelled.
- The contents of the `./data` dataset are not part of this model. Every resolver takes the dataset as an arbitrary `seq<Book>`. Neither resolver changes the dataset, since both are functions over values.
- GraphQL nullability is not modelled. Every field may be `null`, and a missing `id` argument compares as `undefined`. Ids are plain strings compared by value, as `===` compares strings.
- A token `position` list is modelled only by its first two entries, the only ones the code reads. Lists with fewer than two entries, where JavaScript reads `undefined`, are not modelled.
- JavaScript numbers are modelled as unbounded integers. Fractional positions and `NaN` are not modelled.
- Characters are Dafny `char`s. JavaScript `substring` counts UTF-16 code units, so text outside the Basic Multilingual Plane is not modelled.
- React rendering details are left out: the `React.Fragment` keys, inline styles, the `disabled` attribute on the Previous button, and the part of `Book.js` after line 46, which is not part of this model. A `Fragment` here holds only the gap text, the word text and the token bound to the click handler.
- `handleWordClick`'s `alert` is a UI side effect. The handler is also attached with a lowercase `onclick`, which React does not wire up. Whether a click ever fires is not modelled.
- `setCurrentPage` schedules a React state update. The model applies each handler's update before the next handler runs, as happens when each button press causes its own render.
- `renderContent` neither emits text after the last token nor rejects malformed tokens, and the model does the same.
