# Book sharing in Symphony, modelled in Dafny

Symphony is a community forum. Its `BookProcessor` serves two JSON
endpoints:

- `/book/info` (`getBook`) looks a book up by ISBN in an external catalog
  and returns it.
- `/book/share` (`shareBook`) looks the book up the same way. It then
  composes a forum article offering the paper book for free and submits it
  on behalf of the signed-in user. It answers with the book and the new
  article's URL.

Both handlers follow one early-return chain:

1. The ISBN field is read and trimmed.
2. A blank ISBN is rejected.
3. A lookup miss is rejected.
4. In `shareBook`, a failure to create the article is rejected.

Every failure renders the same envelope, `status = false` with the message
key `bookQueryFailedLabel`.

The model has five modules:

- `Wrappers`: the `Option` type. A Java `null` becomes `None`.
- `Text`: the Java string operations the handlers rely on.
  - `String.trim` removes characters up to U+0020.
  - `StringUtils.isBlank` is built on `Character.isWhitespace`.
  - Specification helpers that the handlers do not call: `IndexOf` on one
    character, and `Split` and `Join` of a comma-separated list. They state
    what the tag string holds (the source only concatenates `书单,` and the
    book's tags). `Composer.ParseBullets`, a bullet-list reader, states what
    the bullet lists hold in the same way.
- `Books`: the book record the catalog returns, and the article-creation
  request.
- `Composer`: the article title, tags and Markdown body.
  - The body has a specification, `Content`: the list of parts present for a
    book (`Parts`) and the text of each part.
  - The method `ComposeContent` appends the pieces one by one, as the source
    does with its `StringBuilder`, and is proved to produce `Content`.
  - The author and translator loops are the method `BuildBullets`.
  - The "其他" list is the method `AppendOtherList`.
- `Layout`: what the body looks like.
  - Which parts appear, and in which order.
  - The translator block and the series bullet are the only optional
    pieces, and where they are inserted.
  - How the body opens and closes.
- `Processor`: the two handlers, as functions.
  - Inputs: the parsed request and the external services, given as function
    parameters.
  - Output: the rendered envelope, plus the service calls made: the ISBN
    passed to the lookup, if it was called, and the request passed to
    article creation, if it was called. These let the model state that a
    lookup was never made or that nothing was submitted.

## Model

| member | source | states |
|---|---|---|
| Text.Trim | src/main/java/org/b3log/symphony/api/BookProcessor.java:111 | No contract of its own; its facts are in `TrimShape`, `TrimStartShape`, `TrimEndShape`, `TrimIdempotent`, `TrimKeepsBlank` and `TrimPadded` |
| Text.IsWhitespace | src/main/java/org/b3log/symphony/api/BookProcessor.java:113 | Java 8 `Character.isWhitespace`: the space separators except the no-break spaces U+00A0, U+2007 and U+202F, the line and paragraph separators, and U+0009 to U+000D and U+001C to U+001F. A predicate; used by `IsBlank` |
| Text.IsBlank | src/main/java/org/b3log/symphony/api/BookProcessor.java:113 | `StringUtils.isBlank`: every character is whitespace, so the empty string is blank. A predicate; its consequences are in `TrimKeepsBlank`, `RequestedIsbnNormalized` and `NoBreakSpaceReachesLookup` |
| Text.TrimShape | src/main/java/org/b3log/symphony/api/BookProcessor.java:110-111 | The trimmed ISBN is the slice of the field between its first and last character above U+0020; everything cut off is at most U+0020 |
| Text.TrimStartShape | src/main/java/org/b3log/symphony/api/BookProcessor.java:111 | The front trim keeps a suffix of the field that does not start with a character up to U+0020, and drops only such characters |
| Text.TrimEndShape | src/main/java/org/b3log/symphony/api/BookProcessor.java:111 | The back trim keeps a prefix that does not end with a character up to U+0020, and drops only such characters |
| Text.TrimIdempotent | src/main/java/org/b3log/symphony/api/BookProcessor.java:111 | Trimming the trimmed ISBN again changes nothing |
| Text.TrimKeepsBlank | src/main/java/org/b3log/symphony/api/BookProcessor.java:111-113 | A whitespace-only field is still blank after trimming; a field of characters up to U+0020 trims to the empty string |
| Text.TrimPadded | src/main/java/org/b3log/symphony/api/BookProcessor.java:110-111 | Padding a string whose first and last characters are above U+0020 with characters up to U+0020 on either side trims back to that string |
| Text.JoinSplit | src/main/java/org/b3log/symphony/api/BookProcessor.java:134 | Splitting a comma-joined tag string loses nothing: joining the pieces gives the input back |
| Text.SplitAfterHead | src/main/java/org/b3log/symphony/api/BookProcessor.java:134 | Prefixing a comma-free tag and a comma adds exactly that tag in front of the split tag list |
| Composer.ArticleTitle | src/main/java/org/b3log/symphony/api/BookProcessor.java:133 | The article title is `:books: 《`, the book title, then `》纸质实体书免费送啦！`, and the book title can be read back from it |
| Composer.ArticleTitleInjective | src/main/java/org/b3log/symphony/api/BookProcessor.java:133 | Only one book title yields a given article title |
| Composer.ArticleTags | src/main/java/org/b3log/symphony/api/BookProcessor.java:134 | The article's tag list is `书单` followed by the book's own tags, unchanged and in order |
| Composer.ReplaceChar | src/main/java/org/b3log/symphony/api/BookProcessor.java:138 | `String.replace` of a character: the same length, each occurrence replaced, every other character kept |
| Composer.AltText | src/main/java/org/b3log/symphony/api/BookProcessor.java:138-139 | The sanitized title has the title's length, contains no `[` or `]`, has a space where each bracket was, and keeps every other character in place |
| Composer.CoverLine | src/main/java/org/b3log/symphony/api/BookProcessor.java:138-139 | The cover image line: `![`, the alt text, the unmodified title, `](`, the image URL, `)` and a blank line. No contract of its own; the alt text is stated by `AltText` and the line's place in the body by `ContentOpensWithAuthors` |
| Composer.BulletsAppend | src/main/java/org/b3log/symphony/api/BookProcessor.java:141-147 | The bullet list of two lists of names is the first list's bullets followed by the second's |
| Composer.ParseBulletsRoundTrip | src/main/java/org/b3log/symphony/api/BookProcessor.java:141-147 | The author (or translator) bullets hold exactly the names, one bullet each, in input order, when no name contains a line break |
| Composer.BuildBullets | src/main/java/org/b3log/symphony/api/BookProcessor.java:142-145 | The index loop appending `* `, a name and a line break per entry produces the bullet list of the names |
| Composer.OtherItems | src/main/java/org/b3log/symphony/api/BookProcessor.java:163-175 | The "其他" list has 9 items when the series is not blank and 8 otherwise; the publisher comes first; the series is second exactly when it is not blank; the last seven are the fixed items, subtitle through ISBN |
| Composer.Parts | src/main/java/org/b3log/symphony/api/BookProcessor.java:136-203 | The body's parts come in the fixed order, none twice, and every part is present except the translator part, which is present exactly when there are translators |
| Composer.RenderedParts | src/main/java/org/b3log/symphony/api/BookProcessor.java:136-203 | The body is the text of heading, cover, authors, author introduction, translators if any, summary, catalog, "其他" list and footer, in that order |
| Composer.ComposeContent | src/main/java/org/b3log/symphony/api/BookProcessor.java:136-203 | Appending the pieces to one buffer, as the source does, yields exactly the specified body `Content` |
| Composer.AppendBullet | src/main/java/org/b3log/symphony/api/BookProcessor.java:164-175 | Appending one `* label value` line to a buffer that ends in a bullet list extends that list by the item |
| Composer.AppendFixedBullets | src/main/java/org/b3log/symphony/api/BookProcessor.java:169-175 | The seven chained appends from subtitle to ISBN extend the bullet list by exactly the fixed items, in order |
| Composer.AppendOtherList | src/main/java/org/b3log/symphony/api/BookProcessor.java:163-175 | The appends of the "其他" block add exactly its heading, the bullets of `OtherItems` and a final blank line |
| Layout.RankedUnique | src/main/java/org/b3log/symphony/api/BookProcessor.java:136-203 | Two part lists in the fixed order with the same members are equal |
| Layout.PartsDetermined | src/main/java/org/b3log/symphony/api/BookProcessor.java:136-203 | Any part list in the fixed order that contains all parts, and the translator part exactly when there are translators, is the body's part list |
| Layout.ContentShape | src/main/java/org/b3log/symphony/api/BookProcessor.java:137-203 | The body is the four opening parts, the translator block if there are translators, then the closing parts and the final blank line |
| Layout.ContentOpensWithAuthors | src/main/java/org/b3log/symphony/api/BookProcessor.java:137-147 | The body opens with the title heading, the cover line, then `### 作者`, one bullet per author and a blank line, even when there are no authors |
| Layout.TranslatorBlockInserted | src/main/java/org/b3log/symphony/api/BookProcessor.java:150-157 | With translators, the body is the body without them plus `### 译者` and one bullet per translator, inserted right after the author introduction |
| Layout.NoTranslatorBlock | src/main/java/org/b3log/symphony/api/BookProcessor.java:150-157 | Without translators the author introduction is followed directly by the summary part |
| Layout.OtherListShape | src/main/java/org/b3log/symphony/api/BookProcessor.java:163-175 | The "其他" block is its heading, the publisher bullet, the series bullet when the series is not blank, then the fixed bullets and a blank line |
| Layout.ContentAroundSeries | src/main/java/org/b3log/symphony/api/BookProcessor.java:163-175 | The body splits into the text up to the publisher bullet, the series bullet when the series is not blank, and the rest; the text before the series bullet's place ends with the publisher bullet |
| Layout.SeriesOnlyInOtherList | src/main/java/org/b3log/symphony/api/BookProcessor.java:165-167 | The series changes nothing in the body outside its own bullet |
| Layout.SeriesBulletInserted | src/main/java/org/b3log/symphony/api/BookProcessor.java:165-167 | A non-blank series inserts exactly its bullet `丛　书：` and the series right after the publisher bullet, and changes nothing else |
| Layout.SubtitleFollowsPublisherWithoutSeries | src/main/java/org/b3log/symphony/api/BookProcessor.java:163-169 | With a blank series the list has eight bullets and the subtitle bullet follows the publisher bullet directly |
| Layout.ContentClosesWithNotice | src/main/java/org/b3log/symphony/api/BookProcessor.java:175-203 | The body ends with the "其他" block, the `----` rule, the notice and one more blank line |
| Processor.Failed | src/main/java/org/b3log/symphony/api/BookProcessor.java:113-117 | A failure has status false and the message `bookQueryFailedLabel`, with no book and no URL |
| Processor.OptString | src/main/java/org/b3log/symphony/api/BookProcessor.java:110 | `optString`: the field's value, or the empty string when the field is missing. No contract of its own; used by `RequestedIsbn` and `BlankIsbnRejected` |
| Processor.RequestedIsbn | src/main/java/org/b3log/symphony/api/BookProcessor.java:110-118 | The ISBN check both handlers open with. No contract of its own; its facts are in `RequestedIsbnNormalized`, `BlankIsbnRejected` and `IsbnPaddingIgnored` |
| Processor.RequestedIsbnNormalized | src/main/java/org/b3log/symphony/api/BookProcessor.java:110-118 | The ISBN is rejected exactly when the trimmed field is blank; an accepted ISBN is the trimmed field, is not empty or blank, and is unchanged by another trim |
| Processor.BlankIsbnRejected | src/main/java/org/b3log/symphony/api/BookProcessor.java:110-118 | A missing, empty or whitespace-only ISBN field is rejected |
| Processor.IsbnPaddingIgnored | src/main/java/org/b3log/symphony/api/BookProcessor.java:110-111 | Characters up to U+0020 around the ISBN do not change the ISBN looked up |
| Processor.ArticleUrl | src/main/java/org/b3log/symphony/api/BookProcessor.java:220 | The article URL is the serve path, `/article/`, then the article id, and the id can be read back from it |
| Processor.ArticleUrlInjective | src/main/java/org/b3log/symphony/api/BookProcessor.java:220 | Different article ids give different URLs |
| Processor.ArticleRequestFor | src/main/java/org/b3log/symphony/api/BookProcessor.java:132-212 | The article-creation request for a found book. No contract of its own; its fields are stated by `ArticleRequestFields` |
| Processor.ArticleRequestFields | src/main/java/org/b3log/symphony/api/BookProcessor.java:132-212 | The submitted article's title gives back the book title; its tags are `书单` then the book's own tags; its body is the composed body; editor type 0, the user as author, the book article type, the request's user agent and anonymous view allowed |
| Processor.ShareBook | src/main/java/org/b3log/symphony/api/BookProcessor.java:99-228 | An unparsable body or a blank ISBN fails with no service call; every failure is the same envelope; a success carries no message, a book and a URL |
| Processor.ShareBookCalls | src/main/java/org/b3log/symphony/api/BookProcessor.java:110-215 | `shareBook` calls the lookup exactly when the ISBN is accepted, with that ISBN; it creates an article exactly when the lookup finds the book, and submits the article composed from that book |
| Processor.ShareBookOutcome | src/main/java/org/b3log/symphony/api/BookProcessor.java:214-228 | `shareBook` succeeds exactly when the article was created, and then returns the looked-up book and the URL of the new article |
| Processor.GetBook | src/main/java/org/b3log/symphony/api/BookProcessor.java:244-267 | `getBook` calls the lookup exactly when the ISBN is accepted and never creates an article; it succeeds exactly when the lookup finds the book and returns that book; every failure is the same envelope |
| Processor.LookupKeysNormalized | src/main/java/org/b3log/symphony/api/BookProcessor.java:110-124 | Every ISBN either handler passes to the lookup is trimmed and not blank |
| Processor.ShareExtendsGet | src/main/java/org/b3log/symphony/api/BookProcessor.java:245-261 | `shareBook` makes the same lookup as `getBook`; whenever `getBook` fails, `shareBook` fails the same way and submits nothing; on success it returns the book `getBook` returns |
| Processor.SubmitFailureHidden | src/main/java/org/b3log/symphony/api/BookProcessor.java:223-228 | A failed submission gives the generic failure, whatever the exception's reason |
| Processor.NoBreakSpaceReachesLookup | src/main/java/org/b3log/symphony/api/BookProcessor.java:245-255 | An ISBN field holding only a no-break space is neither trimmed away nor blank, so it reaches the lookup |
| Processor.UnknownIsbnFails | src/main/java/org/b3log/symphony/api/BookProcessor.java:124-130 | An ISBN the catalog does not know fails both handlers after the single lookup, and nothing is submitted |

## Left out

- HTTP and JSON plumbing is not modelled:
  - request parsing: `shareBook`'s body is `None` when it cannot be parsed;
  - servlet objects;
  - `renderJSON`;
  - the `User-Agent` header, which is a parameter.
- Each request body field is already a string. The ISBN field's key is taken to be `isbn`, because the value of `Common.ISBN` is not part of this model.
- Localisation is not modelled. The failure message is its key, `bookQueryFailedLabel`.
- Logging, the stopwatch and login-check advice, and dependency injection are not modelled.
- The serve path is a parameter.
- The footer prose (BookProcessor.java lines 177-201) is a parameter, `notice`. Every property holds for any notice. The model states where the notice sits, not its wording.
- The catalog lookup and article creation are parameters.
  - The lookup is a function of the ISBN.
  - Article creation is a function of the request that either returns an id or throws.
  - Their internals, retries, and the fact that the same request can give different ids on different calls are not modelled.
- `Processor.GetBook` takes an already parsed body. In the source, a parse failure in `getBook` escapes as an exception rather than producing the failure envelope.
- The lookup is not modelled as throwing. The source has no handler for that, and the exception would escape either handler.
- Null dereferences are not modelled. The source dereferences the author and translator arrays and the user object without checks; the model assumes they are present.
- Java strings are UTF-16. The model's characters are Unicode scalar values, so supplementary characters count as one character, not two.
- `IsWhitespace` follows Java 8's `Character.isWhitespace`, which includes U+180E. Later JDKs drop U+180E.
- Article type and anonymous-view policy are single-value enumerations. Their numeric constants are not part of this model.
- `Layout.NoTranslatorBlock` states the body without translators structurally. It does not claim that `### 译者` never occurs, because that text can appear inside other fields.

## Behaviour worth noting


- The cover image's alt text is the title with `[` and `]` each replaced by a space, followed by the unmodified title. So the brackets still reach the alt text through the appended title.
- An ISBN field made only of whitespace is rejected, not just an empty one. The check is `StringUtils.isBlank`, whose whitespace set differs from the characters `String.trim` removes. For example, U+3000 survives the trim but still counts as blank. U+00A0 survives the trim and is not blank, so it reaches the lookup.
