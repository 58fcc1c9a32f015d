/**
 * The two request handlers of the book processor, `shareBook` and `getBook`,
 * as functions from the parsed request and the answers of the external
 * services to the JSON envelope they render. The lookup and article services
 * are parameters; the handled request also records the ISBN passed to the
 * lookup and the request passed to article creation, if each was called, so
 * that "the lookup is never called" and "no article is submitted" can be
 * stated.
 */
module Processor {
  import opened Wrappers
  import opened Text
  import opened Books
  import opened Composer

  /** The message key of every failure response. */
  const FailedLabel: string := "bookQueryFailedLabel"

  /** The request field holding the ISBN (`Common.ISBN`). */
  const IsbnKey: string := "isbn"

  /**
   * The rendered JSON: the status flag, the message of a failure, and the
   * book and article URL of a success.
   */
  datatype Envelope = Envelope(status: bool, msg: Option<string>, book: Option<BookRecord>, url: Option<string>)

  /** `renderJSON(false)` followed by the message `bookQueryFailedLabel`. */
  function Failed(): (e: Envelope)
    ensures !e.status && e.msg == Some(FailedLabel)
    ensures e.book.None? && e.url.None?
  {
    Envelope(false, Some(FailedLabel), None, None)
  }

  /** What `addArticle` does with a request: returns the new id, or throws. */
  datatype Submission = Created(articleId: string) | Thrown(reason: string)

  /** The external services: the ISBN lookup (null when unknown) and article creation. */
  datatype Services = Services(lookup: string -> Option<BookRecord>, submit: ArticleRequest -> Submission)

  /**
   * The response to one request and the service calls made to produce it:
   * the ISBN passed to the lookup, if the lookup was called, and the request
   * passed to article creation, if that was called. Each is called at most
   * once, and article creation only with a request built from the lookup's
   * answer, hence after it.
   */
  datatype Handled = Handled(response: Envelope, lookedUp: Option<string>, submitted: Option<ArticleRequest>)

  /** The signed-in user, as the login check leaves it on the request. */
  datatype User = User(id: string, email: string)

  /** `JSONObject.optString`: the field's value, or the empty string when it is missing. */
  function OptString(obj: map<string, string>, key: string): string
  {
    if key in obj then obj[key] else ""
  }

  /**
   * The ISBN check both handlers open with: the field is read and trimmed,
   * and rejected when blank.
   */
  function RequestedIsbn(body: map<string, string>): Option<string>
  {
    var isbn := Trim(OptString(body, IsbnKey));
    if IsBlank(isbn) then None else Some(isbn)
  }

  /**
   * The ISBN is rejected exactly when the trimmed field is blank; an
   * accepted ISBN is the trimmed field, is not blank, and is left unchanged
   * by a second trim.
   */
  lemma RequestedIsbnNormalized(body: map<string, string>)
    ensures RequestedIsbn(body).None? <==> IsBlank(Trim(OptString(body, IsbnKey)))
    ensures RequestedIsbn(body).Some? ==>
              var isbn := RequestedIsbn(body).value;
              isbn == Trim(OptString(body, IsbnKey)) && isbn != [] && !IsBlank(isbn) && Trim(isbn) == isbn
  {
    TrimIdempotent(OptString(body, IsbnKey));
  }

  /** An ISBN field that is missing, empty or whitespace only is rejected. */
  lemma BlankIsbnRejected(body: map<string, string>)
    requires IsBlank(OptString(body, IsbnKey))
    ensures RequestedIsbn(body).None?
  {
    TrimKeepsBlank(OptString(body, IsbnKey));
  }

  /**
   * Padding the ISBN with characters up to U+0020 on either side does not
   * change which ISBN is looked up.
   */
  lemma IsbnPaddingIgnored(body: map<string, string>, front: string, isbn: string, back: string)
    requires forall i | 0 <= i < |front| :: IsTrimmable(front[i])
    requires forall i | 0 <= i < |back| :: IsTrimmable(back[i])
    requires Trim(isbn) == isbn
    ensures RequestedIsbn(body[IsbnKey := front + isbn + back]) == RequestedIsbn(body[IsbnKey := isbn])
  {
    TrimShape(isbn);
    TrimPadded(front, isbn, back);
  }

  /** The URL of the created article: the serve path, `/article/`, then the id. */
  function ArticleUrl(servePath: string, articleId: string): (r: string)
    ensures |r| == |servePath| + 9 + |articleId|
    ensures r[..|servePath|] == servePath && r[|servePath|..|servePath| + 9] == "/article/"
    ensures r[|servePath| + 9..] == articleId
  {
    servePath + "/article/" + articleId
  }

  /** Different articles get different URLs under one serve path. */
  lemma ArticleUrlInjective(servePath: string, id1: string, id2: string)
    requires ArticleUrl(servePath, id1) == ArticleUrl(servePath, id2)
    ensures id1 == id2
  {
    var n := |servePath| + 9;
    assert id1 == ArticleUrl(servePath, id1)[n..];
  }

  /**
   * The article-creation request for a found book: the generated title and
   * tags, the composed body, the Markdown editor, the signed-in user as
   * author, the book article type, the request's user agent, and anonymous
   * view allowed.
   */
  function ArticleRequestFor(b: BookRecord, user: User, userAgent: Option<string>, notice: string): ArticleRequest
  {
    ArticleRequest(ArticleTitle(b.title), ArticleTags(b.tags), Content(b, notice), 0,
                   user.email, user.id, BookArticle, userAgent, AllowAnonymousView)
  }

  /**
   * The fields of the submitted article: the book title can be read back from
   * its title, its tags are `书单` then the book's own tags, its body is the
   * composed body, and the remaining fields are fixed or come from the
   * request.
   */
  lemma ArticleRequestFields(b: BookRecord, user: User, userAgent: Option<string>, notice: string)
    ensures var r := ArticleRequestFor(b, user, userAgent, notice);
            && BookTitleOf(r.title) == Some(b.title)
            && Split(r.tags, ',') == [BookListTag] + Split(b.tags, ',')
            && r.content == Content(b, notice)
            && r.editorType == 0 && r.articleType == BookArticle && r.anonymousView == AllowAnonymousView
            && r.authorEmail == user.email && r.authorId == user.id && r.userAgent == userAgent
  {
  }

  /**
   * `shareBook`. The body is `None` when it cannot be parsed. A rejected
   * request makes no service call; every failure is the same envelope,
   * whatever went wrong; a success carries the book and the article URL.
   * Which calls are made and what decides success are stated by
   * `ShareBookCalls` and `ShareBookOutcome`.
   */
  function ShareBook(body: Option<map<string, string>>, user: User, userAgent: Option<string>,
                     servePath: string, notice: string, svc: Services): (h: Handled)
    ensures (body.None? || RequestedIsbn(body.value).None?) ==> h == Handled(Failed(), None, None)
    ensures !h.response.status ==> h.response == Failed()
    ensures h.response.status ==> h.response.msg.None? && h.response.book.Some? && h.response.url.Some?
  {
    match body
    case None => Handled(Failed(), None, None)
    case Some(obj) =>
      match RequestedIsbn(obj)
      case None => Handled(Failed(), None, None)
      case Some(isbn) =>
        match svc.lookup(isbn)
        case None => Handled(Failed(), Some(isbn), None)
        case Some(book) =>
          var request := ArticleRequestFor(book, user, userAgent, notice);
          match svc.submit(request)
          case Thrown(_) => Handled(Failed(), Some(isbn), Some(request))
          case Created(id) =>
            Handled(Envelope(true, None, Some(book), Some(ArticleUrl(servePath, id))), Some(isbn), Some(request))
  }

  /**
   * The service calls `shareBook` makes: the lookup exactly when the ISBN is
   * accepted, and with that ISBN; article creation exactly when the lookup
   * finds the book, with the article composed from that book.
   */
  lemma ShareBookCalls(body: Option<map<string, string>>, user: User, userAgent: Option<string>,
                       servePath: string, notice: string, svc: Services)
    ensures var h := ShareBook(body, user, userAgent, servePath, notice, svc);
            && h.lookedUp == (if body.Some? then RequestedIsbn(body.value) else None)
            && (h.submitted.Some? <==> h.lookedUp.Some? && svc.lookup(h.lookedUp.value).Some?)
            && (h.submitted.Some? ==>
                  h.submitted.value == ArticleRequestFor(svc.lookup(h.lookedUp.value).value, user, userAgent, notice))
  {
    if body.Some? && RequestedIsbn(body.value).Some? {
      var isbn := RequestedIsbn(body.value).value;
      match svc.lookup(isbn)
      case None =>
      case Some(book) =>
        var request := ArticleRequestFor(book, user, userAgent, notice);
        match svc.submit(request)
        case Thrown(_) =>
        case Created(id) =>
    }
  }

  /**
   * What decides the outcome of `shareBook`: it succeeds exactly when an
   * article was submitted and created, and then returns the looked-up book
   * and the URL built from the new article's id.
   */
  lemma ShareBookOutcome(body: Option<map<string, string>>, user: User, userAgent: Option<string>,
                         servePath: string, notice: string, svc: Services)
    ensures var h := ShareBook(body, user, userAgent, servePath, notice, svc);
            && (h.response.status <==> h.submitted.Some? && svc.submit(h.submitted.value).Created?)
            && (h.response.status ==>
                  && h.lookedUp.Some?
                  && h.response.book == svc.lookup(h.lookedUp.value)
                  && h.response.url == Some(ArticleUrl(servePath, svc.submit(h.submitted.value).articleId)))
  {
    if body.Some? && RequestedIsbn(body.value).Some? {
      var isbn := RequestedIsbn(body.value).value;
      match svc.lookup(isbn)
      case None =>
      case Some(book) =>
        var request := ArticleRequestFor(book, user, userAgent, notice);
        match svc.submit(request)
        case Thrown(_) =>
        case Created(id) =>
    }
  }

  /**
   * `getBook`. The handler calls the lookup exactly when the ISBN is accepted,
   * never creates an article, and returns the book the lookup finds; every
   * failure is the same envelope.
   */
  function GetBook(body: map<string, string>, svc: Services): (h: Handled)
    ensures h.lookedUp == RequestedIsbn(body) && h.submitted.None?
    ensures h.response.status <==> h.lookedUp.Some? && svc.lookup(h.lookedUp.value).Some?
    ensures !h.response.status ==> h.response == Failed()
    ensures h.response.status ==> h.response == Envelope(true, None, svc.lookup(h.lookedUp.value), None)
  {
    match RequestedIsbn(body)
    case None => Handled(Failed(), None, None)
    case Some(isbn) =>
      match svc.lookup(isbn)
      case None => Handled(Failed(), Some(isbn), None)
      case Some(book) => Handled(Envelope(true, None, Some(book), None), Some(isbn), None)
  }

  /** Every ISBN either handler hands to the lookup is trimmed and not blank. */
  lemma LookupKeysNormalized(body: map<string, string>, user: User, userAgent: Option<string>,
                             servePath: string, notice: string, svc: Services)
    ensures var s := ShareBook(Some(body), user, userAgent, servePath, notice, svc);
            var g := GetBook(body, svc);
            forall isbn | isbn in [s.lookedUp, g.lookedUp] && isbn.Some? ::
              isbn.value != [] && !IsBlank(isbn.value) && Trim(isbn.value) == isbn.value
  {
    ShareBookCalls(Some(body), user, userAgent, servePath, notice, svc);
    RequestedIsbnNormalized(body);
  }

  /**
   * `shareBook` begins exactly as `getBook` does: it makes the same lookup,
   * fails in the same way and submits nothing whenever `getBook` fails, and
   * when it succeeds returns the book `getBook` returns.
   */
  lemma ShareExtendsGet(body: map<string, string>, user: User, userAgent: Option<string>,
                        servePath: string, notice: string, svc: Services)
    ensures var g := GetBook(body, svc);
            var s := ShareBook(Some(body), user, userAgent, servePath, notice, svc);
            && s.lookedUp == g.lookedUp
            && (!g.response.status ==> s.response == g.response && s.submitted.None?)
            && (s.response.status ==> g.response.status && g.response.book == s.response.book)
  {
    ShareBookCalls(Some(body), user, userAgent, servePath, notice, svc);
    ShareBookOutcome(Some(body), user, userAgent, servePath, notice, svc);
  }

  /**
   * A failed submission is reported like every other failure: no URL, no
   * book, and nothing of the exception's reason.
   */
  lemma SubmitFailureHidden(body: Option<map<string, string>>, user: User, userAgent: Option<string>,
                            servePath: string, notice: string, svc: Services, reason1: string, reason2: string)
    ensures var s1 := svc.(submit := (r: ArticleRequest) => Thrown(reason1));
            var s2 := svc.(submit := (r: ArticleRequest) => Thrown(reason2));
            var h1 := ShareBook(body, user, userAgent, servePath, notice, s1);
            var h2 := ShareBook(body, user, userAgent, servePath, notice, s2);
            h1 == h2 && h1.response == Failed()
  {
  }

  /**
   * An ISBN the catalog does not know fails both handlers with the generic
   * envelope after the single lookup; nothing is submitted.
   */
  lemma UnknownIsbnFails(body: map<string, string>, isbn: string, user: User, userAgent: Option<string>,
                         servePath: string, notice: string, svc: Services)
    requires RequestedIsbn(body) == Some(isbn) && svc.lookup(isbn).None?
    ensures ShareBook(Some(body), user, userAgent, servePath, notice, svc) == Handled(Failed(), Some(isbn), None)
    ensures GetBook(body, svc) == Handled(Failed(), Some(isbn), None)
  {
  }

  /**
   * A no-break space is neither cut by the trim nor blank, so an ISBN field
   * holding only U+00A0 reaches the lookup.
   */
  lemma NoBreakSpaceReachesLookup(svc: Services)
    ensures var body := map[IsbnKey := "\U{00A0}"];
            RequestedIsbn(body) == Some("\U{00A0}") && GetBook(body, svc).lookedUp == Some("\U{00A0}")
  {
    var isbn := "\U{00A0}";
    assert TrimStart(isbn) == isbn && TrimEnd(isbn) == isbn;
    assert !IsWhitespace(isbn[0]);
  }
}
