/**
 * The records that cross the book processor's boundary: the book returned by
 * the catalog lookup, and the article-creation request handed to the article
 * service.
 */
module Books {
  import opened Wrappers

  /**
   * A book as the lookup service returns it. Every scalar field is read with
   * `optString`, so a field missing from the JSON object is the empty string;
   * the author and translator arrays are read element by element with
   * `optString` as well.
   */
  datatype BookRecord = BookRecord(
    title: string,
    subtitle: string,
    originalTitle: string,
    series: string,
    publisher: string,
    publishDate: string,
    pages: string,
    price: string,
    binding: string,
    isbn13: string,
    imgUrl: string,
    summary: string,
    catalog: string,
    author: seq<string>,
    translator: seq<string>,
    authorIntro: string,
    tags: string)

  /** The article type the share flow always sets (`Article.ARTICLE_TYPE_C_BOOK`). */
  datatype ArticleType = BookArticle

  /** The anonymous-view policy the share flow always sets (`ARTICLE_ANONYMOUS_VIEW_C_ALLOW`). */
  datatype AnonymousView = AllowAnonymousView

  /**
   * The fields the share flow puts into the article-creation request. The
   * user agent is the request's `User-Agent` header, `None` when it is absent.
   */
  datatype ArticleRequest = ArticleRequest(
    title: string,
    tags: string,
    content: string,
    editorType: int,
    authorEmail: string,
    authorId: string,
    articleType: ArticleType,
    userAgent: Option<string>,
    anonymousView: AnonymousView)
}
