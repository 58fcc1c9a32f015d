/**
 * The share flow's article composer: a book record becomes an article title,
 * a tag string and a Markdown body (BookProcessor.shareBook, lines 132-203).
 *
 * The body is specified by `Content`, built from the ordered list of parts
 * `Parts` and the text of each part `PartText`; the method `ComposeContent`
 * appends the pieces step by step as the source does and is proved to produce
 * `Content`. The static notice about the sharing programme that closes the
 * article is the parameter `notice`.
 */
module Composer {
  import opened Wrappers
  import opened Text
  import opened Books

  const TitlePrefix: string := ":books: 《"
  const TitleSuffix: string := "》纸质实体书免费送啦！"
  const BookListTag: string := "书单"

  /** The article title for a shared book. */
  function ArticleTitle(bookTitle: string): (r: string)
    ensures BookTitleOf(r) == Some(bookTitle)
  {
    var r := TitlePrefix + bookTitle + TitleSuffix;
    assert r[..|TitlePrefix|] == TitlePrefix;
    assert r[|r| - |TitleSuffix|..] == TitleSuffix;
    r
  }

  /** The book title inside an article title of the share flow's shape, if it has that shape. */
  function BookTitleOf(articleTitle: string): Option<string>
  {
    var n := |articleTitle|;
    if n >= |TitlePrefix| + |TitleSuffix|
       && articleTitle[..|TitlePrefix|] == TitlePrefix
       && articleTitle[n - |TitleSuffix|..] == TitleSuffix
    then Some(articleTitle[|TitlePrefix|..n - |TitleSuffix|])
    else None
  }

  /** Only the title of `bookTitle` decodes to `bookTitle`: distinct books get distinct titles. */
  lemma ArticleTitleInjective(articleTitle: string, bookTitle: string)
    requires BookTitleOf(articleTitle) == Some(bookTitle)
    ensures articleTitle == ArticleTitle(bookTitle)
  {
    var n := |articleTitle|;
    assert articleTitle == articleTitle[..|TitlePrefix|]
                           + articleTitle[|TitlePrefix|..n - |TitleSuffix|]
                           + articleTitle[n - |TitleSuffix|..];
  }

  /** The article tags: the book-list tag first, then the book's own tags unchanged. */
  function ArticleTags(bookTags: string): (r: string)
    ensures Split(r, ',') == [BookListTag] + Split(bookTags, ',')
  {
    SplitAfterHead(BookListTag, ',', bookTags);
    BookListTag + "," + bookTags
  }

  /** `String.replace` of one character by another, everywhere. */
  function ReplaceChar(s: string, from: char, to: char): (r: string)
    ensures |r| == |s|
    ensures forall i | 0 <= i < |s| :: r[i] == if s[i] == from then to else s[i]
  {
    if s == [] then [] else [if s[0] == from then to else s[0]] + ReplaceChar(s[1..], from, to)
  }

  /**
   * The cover image's alt text is built from the title with `[` and then `]`
   * replaced by a space: no bracket survives, and every other character stays
   * where it was.
   */
  function AltText(title: string): (r: string)
    ensures |r| == |title|
    ensures '[' !in r && ']' !in r
    ensures forall i | 0 <= i < |title| && title[i] != '[' && title[i] != ']' :: r[i] == title[i]
    ensures forall i | 0 <= i < |title| && (title[i] == '[' || title[i] == ']') :: r[i] == ' '
  {
    ReplaceChar(ReplaceChar(title, '[', ' '), ']', ' ')
  }

  /** The cover image line: the sanitized title followed by the raw title as alt text. */
  function CoverLine(b: BookRecord): string
  {
    "![" + AltText(b.title) + b.title + "](" + b.imgUrl + ")\n\n"
  }

  /** One Markdown bullet. */
  function Bullet(item: string): string
  {
    "* " + item + "\n"
  }

  /** One bullet per item, in order. */
  function Bullets(items: seq<string>): string
  {
    if items == [] then "" else Bullet(items[0]) + Bullets(items[1..])
  }

  lemma {:induction false} BulletsAppend(xs: seq<string>, ys: seq<string>)
    ensures Bullets(xs + ys) == Bullets(xs) + Bullets(ys)
    decreases |xs|
  {
    if xs != [] {
      assert (xs + ys)[0] == xs[0];
      assert (xs + ys)[1..] == xs[1..] + ys;
      BulletsAppend(xs[1..], ys);
      calc {
        Bullets(xs + ys);
        Bullet(xs[0]) + Bullets(xs[1..] + ys);
        Bullet(xs[0]) + (Bullets(xs[1..]) + Bullets(ys));
        (Bullet(xs[0]) + Bullets(xs[1..])) + Bullets(ys);
        Bullets(xs) + Bullets(ys);
      }
    } else {
      assert xs + ys == ys;
    }
  }

  /** Appending one item appends its bullet. */
  lemma BulletsSnoc(xs: seq<string>, x: string)
    ensures Bullets(xs + [x]) == Bullets(xs) + Bullet(x)
  {
    BulletsAppend(xs, [x]);
    assert Bullets([x]) == Bullet(x) + Bullets([]);
  }

  /**
   * Reads a bullet list back: each line `* item` gives one item. The source
   * has no such parser; this one only states what a bullet list holds.
   */
  function ParseBullets(s: string): Option<seq<string>>
    decreases |s|
  {
    if s == [] then Some([])
    else if |s| < 2 || s[..2] != "* " then None
    else match IndexOf(s[2..], '\n')
      case None => None
      case Some(k) =>
        match ParseBullets(s[2 + k + 1..])
        case None => None
        case Some(rest) => Some([s[2..2 + k]] + rest)
  }

  /** Reading one bullet back, when its item has no line break. */
  lemma ParseBulletsCons(x: string, rest: string)
    requires '\n' !in x
    ensures ParseBullets(Bullet(x) + rest)
            == match ParseBullets(rest)
               case None => None
               case Some(items) => Some([x] + items)
  {
    var s := Bullet(x) + rest;
    var t := x + "\n" + rest;
    assert s == "* " + t;
    assert s[..2] == "* " && s[2..] == t;
    assert t[|x|] == '\n';
    assert forall i | 0 <= i < |x| :: t[i] == x[i];
    assert IndexOf(t, '\n') == Some(|x|);
    assert s[2..2 + |x|] == x;
    assert s[2 + |x| + 1..] == rest;
  }

  /**
   * A bullet list holds exactly its items, one bullet each, in input order,
   * as long as no item spans a line break.
   */
  lemma {:induction false} ParseBulletsRoundTrip(items: seq<string>)
    requires forall i | 0 <= i < |items| :: '\n' !in items[i]
    ensures ParseBullets(Bullets(items)) == Some(items)
    decreases |items|
  {
    if items != [] {
      ParseBulletsCons(items[0], Bullets(items[1..]));
      ParseBulletsRoundTrip(items[1..]);
      assert [items[0]] + items[1..] == items;
    }
  }

  method BuildBullets(items: seq<string>) returns (s: string)
    ensures s == Bullets(items)
  {
    s := "";
    var i := 0;
    while i < |items|
      invariant 0 <= i <= |items|
      invariant s == Bullets(items[..i])
    {
      BulletsSnoc(items[..i], items[i]);
      assert items[..i + 1] == items[..i] + [items[i]];
      s := s + "* " + items[i] + "\n";
      i := i + 1;
    }
    assert items[..i] == items;
  }

  const PublisherLabel: string := "出版社："
  const SeriesLabel: string := "丛\U{3000}书："
  const SubtitleLabel: string := "副标题："
  const OriginalTitleLabel: string := "原作名："
  const PublishDateLabel: string := "出版年："
  const PagesLabel: string := "总页数："
  const PriceLabel: string := "定\U{3000}价："
  const BindingLabel: string := "装\U{3000}帧："
  const IsbnLabel: string := "ISBN："

  /** The seven bullets of the "其他" list that are always present, in order. */
  function FixedOtherItems(b: BookRecord): seq<string>
  {
    [ SubtitleLabel + b.subtitle,
      OriginalTitleLabel + b.originalTitle,
      PublishDateLabel + b.publishDate,
      PagesLabel + b.pages,
      PriceLabel + b.price,
      BindingLabel + b.binding,
      IsbnLabel + b.isbn13 ]
  }

  /**
   * The items of the "其他" list: the publisher always first, the series right
   * after it exactly when the series is not blank, then the seven fixed items.
   */
  function OtherItems(b: BookRecord): (r: seq<string>)
    ensures |r| == if IsBlank(b.series) then 8 else 9
    ensures r[0] == PublisherLabel + b.publisher
    ensures r[1] == SeriesLabel + b.series <==> !IsBlank(b.series)
    ensures r[|r| - 7..] == FixedOtherItems(b)
  {
    var series := if IsBlank(b.series) then [] else [SeriesLabel + b.series];
    var r := [PublisherLabel + b.publisher] + series + FixedOtherItems(b);
    assert IsBlank(b.series) ==> r[1][0] != (SeriesLabel + b.series)[0];
    r
  }

  /** The "其他" block: its heading, then its bullets, then a blank line. */
  function OtherList(b: BookRecord): string
  {
    "### 其他\n\n" + Bullets(OtherItems(b)) + "\n"
  }

  /** The parts of the article body. */
  datatype Part = Heading | Cover | Authors | AuthorIntro | Translators | Summary | Catalog | Other | Footer

  /** The position of each part in the fixed order of the body. */
  function Rank(p: Part): nat
  {
    match p
    case Heading => 0
    case Cover => 1
    case Authors => 2
    case AuthorIntro => 3
    case Translators => 4
    case Summary => 5
    case Catalog => 6
    case Other => 7
    case Footer => 8
  }

  /** The parts appear in strictly increasing rank: fixed order, none twice. */
  predicate Ranked(ps: seq<Part>)
  {
    forall i, j | 0 <= i < j < |ps| :: Rank(ps[i]) < Rank(ps[j])
  }

  /**
   * The parts a book's article has: all of them, except that the translator
   * part is present only when the translator list is not empty.
   */
  function Parts(b: BookRecord): (ps: seq<Part>)
    ensures Ranked(ps)
    ensures forall p :: p in ps <==> (p == Translators ==> b.translator != [])
  {
    var ps := [Heading] + [Cover] + [Authors] + [AuthorIntro];
    var ps := if b.translator != [] then ps + [Translators] else ps;
    var ps := ps + [Summary] + [Catalog] + [Other] + [Footer];
    assert ps == if b.translator != []
                 then [Heading, Cover, Authors, AuthorIntro, Translators, Summary, Catalog, Other, Footer]
                 else [Heading, Cover, Authors, AuthorIntro, Summary, Catalog, Other, Footer];
    assert forall p :: p in ps <==> (p == Translators ==> b.translator != []) by {
      forall p ensures p in ps <==> (p == Translators ==> b.translator != []) {
        var k := if b.translator == [] && Rank(p) > 4 then Rank(p) - 1 else Rank(p);
        if p != Translators || b.translator != [] {
          assert ps[k] == p;
        }
      }
    }
    ps
  }

  /** The text of one part. */
  function PartText(b: BookRecord, notice: string, p: Part): string
  {
    match p
    case Heading => "## " + b.title + "\n\n"
    case Cover => CoverLine(b)
    case Authors => "### 作者\n\n" + Bullets(b.author) + "\n\n"
    case AuthorIntro => b.authorIntro + "\n\n"
    case Translators => "### 译者\n\n" + Bullets(b.translator) + "\n\n"
    case Summary => "### 内容简介\n\n" + b.summary + "\n\n"
    case Catalog => "### 目录\n\n" + b.catalog + "\n\n"
    case Other => OtherList(b)
    case Footer => "----\n\n" + notice
  }

  /** The texts of the given parts, one after another. */
  function Render(b: BookRecord, notice: string, ps: seq<Part>): string
  {
    if ps == [] then "" else Render(b, notice, ps[..|ps| - 1]) + PartText(b, notice, ps[|ps| - 1])
  }

  /** Appending one part appends its text. */
  lemma RenderSnoc(b: BookRecord, notice: string, ps: seq<Part>, p: Part)
    ensures Render(b, notice, ps + [p]) == Render(b, notice, ps) + PartText(b, notice, p)
  {
    assert (ps + [p])[..|ps|] == ps;
  }

  /** The Markdown body of the article: its parts, then one more blank line. */
  function Content(b: BookRecord, notice: string): string
  {
    Render(b, notice, Parts(b)) + "\n\n"
  }

  /** The four parts every article starts with. */
  lemma RenderedHead(b: BookRecord, notice: string)
    ensures Render(b, notice, [Heading] + [Cover] + [Authors] + [AuthorIntro])
            == PartText(b, notice, Heading) + PartText(b, notice, Cover)
               + PartText(b, notice, Authors) + PartText(b, notice, AuthorIntro)
  {
    var t1 := PartText(b, notice, Heading);
    RenderSnoc(b, notice, [], Heading);
    assert [] + [Heading] == [Heading];
    assert Render(b, notice, [Heading]) == t1;
    var t2 := t1 + PartText(b, notice, Cover);
    RenderSnoc(b, notice, [Heading], Cover);
    assert Render(b, notice, [Heading] + [Cover]) == t2;
    var t3 := t2 + PartText(b, notice, Authors);
    RenderSnoc(b, notice, [Heading] + [Cover], Authors);
    assert Render(b, notice, [Heading] + [Cover] + [Authors]) == t3;
    RenderSnoc(b, notice, [Heading] + [Cover] + [Authors], AuthorIntro);
  }

  /** The body spelled out part by part, in the order the source appends them. */
  lemma RenderedParts(b: BookRecord, notice: string)
    ensures var head := PartText(b, notice, Heading) + PartText(b, notice, Cover)
                        + PartText(b, notice, Authors) + PartText(b, notice, AuthorIntro);
            Render(b, notice, Parts(b))
            == (if b.translator != [] then head + PartText(b, notice, Translators) else head)
               + PartText(b, notice, Summary) + PartText(b, notice, Catalog)
               + PartText(b, notice, Other) + PartText(b, notice, Footer)
  {
    var ps := [Heading] + [Cover] + [Authors] + [AuthorIntro];
    var head := PartText(b, notice, Heading) + PartText(b, notice, Cover)
                + PartText(b, notice, Authors) + PartText(b, notice, AuthorIntro);
    RenderedHead(b, notice);
    var qs := if b.translator != [] then ps + [Translators] else ps;
    var t := if b.translator != [] then head + PartText(b, notice, Translators) else head;
    if b.translator != [] {
      RenderSnoc(b, notice, ps, Translators);
    }
    assert Render(b, notice, qs) == t;
    RenderSnoc(b, notice, qs, Summary);
    t := t + PartText(b, notice, Summary);
    RenderSnoc(b, notice, qs + [Summary], Catalog);
    t := t + PartText(b, notice, Catalog);
    RenderSnoc(b, notice, qs + [Summary] + [Catalog], Other);
    t := t + PartText(b, notice, Other);
    RenderSnoc(b, notice, qs + [Summary] + [Catalog] + [Other], Footer);
    assert Parts(b) == qs + [Summary] + [Catalog] + [Other] + [Footer];
  }

  /**
   * Builds the article body by appending to one buffer, piece by piece, in the
   * order of the source; the result is `Content`.
   */
  method ComposeContent(b: BookRecord, notice: string) returns (content: string)
    ensures content == Content(b, notice)
  {
    // `done` is the specification's text of the parts appended so far.
    content := "";
    content := content + ("## " + b.title + "\n\n");
    ghost var done := PartText(b, notice, Heading);
    assert content == done;
    content := content + ("![" + ReplaceChar(ReplaceChar(b.title, '[', ' '), ']', ' ')
                          + b.title + "](" + b.imgUrl + ")\n\n");
    done := done + PartText(b, notice, Cover);
    assert content == done;

    var authorBullets := BuildBullets(b.author);
    content := content + ("### 作者\n\n" + authorBullets + "\n\n");
    done := done + PartText(b, notice, Authors);
    assert content == done;
    content := content + (b.authorIntro + "\n\n");
    done := done + PartText(b, notice, AuthorIntro);
    assert content == done;

    if |b.translator| > 0 {
      var translatorBullets := BuildBullets(b.translator);
      content := content + ("### 译者\n\n" + translatorBullets + "\n\n");
      done := done + PartText(b, notice, Translators);
      assert content == done;
    }

    content := content + ("### 内容简介\n\n" + b.summary + "\n\n");
    done := done + PartText(b, notice, Summary);
    assert content == done;
    content := content + ("### 目录\n\n" + b.catalog + "\n\n");
    done := done + PartText(b, notice, Catalog);
    assert content == done;
    content := AppendOtherList(content, b);
    done := done + PartText(b, notice, Other);
    assert content == done;
    content := content + "----\n\n" + notice;
    done := done + PartText(b, notice, Footer);
    assert content == done;
    RenderedParts(b, notice);
    content := content + "\n\n";
  }

  /**
   * Appends one bullet line `* ` + tag + value to a buffer that ends in a
   * bullet list; the list gains that item.
   */
  method AppendBullet(r: string, ghost head: string, ghost items: seq<string>, tag: string, value: string)
    returns (r': string)
    requires r == head + Bullets(items)
    ensures r' == head + Bullets(items + [tag + value])
  {
    BulletsSnoc(items, tag + value);
    r' := r + ("* " + tag + value + "\n");
    assert "* " + tag + value + "\n" == Bullet(tag + value);
  }

  /** Appends the seven bullets of the "其他" list that are always present. */
  method AppendFixedBullets(r: string, ghost head: string, ghost items: seq<string>, b: BookRecord)
    returns (r': string)
    requires r == head + Bullets(items)
    ensures r' == head + Bullets(items + FixedOtherItems(b))
  {
    ghost var done := items;
    r' := AppendBullet(r, head, done, SubtitleLabel, b.subtitle);
    done := done + [SubtitleLabel + b.subtitle];
    r' := AppendBullet(r', head, done, OriginalTitleLabel, b.originalTitle);
    done := done + [OriginalTitleLabel + b.originalTitle];
    r' := AppendBullet(r', head, done, PublishDateLabel, b.publishDate);
    done := done + [PublishDateLabel + b.publishDate];
    r' := AppendBullet(r', head, done, PagesLabel, b.pages);
    done := done + [PagesLabel + b.pages];
    r' := AppendBullet(r', head, done, PriceLabel, b.price);
    done := done + [PriceLabel + b.price];
    r' := AppendBullet(r', head, done, BindingLabel, b.binding);
    done := done + [BindingLabel + b.binding];
    r' := AppendBullet(r', head, done, IsbnLabel, b.isbn13);
    done := done + [IsbnLabel + b.isbn13];
    assert done == items + FixedOtherItems(b);
  }

  /**
   * Appends the "其他" list (lines 163-175): the publisher, the series when it
   * is not blank, then the seven fixed bullets, the last followed by a blank
   * line.
   */
  method AppendOtherList(content: string, b: BookRecord) returns (r: string)
    ensures r == content + OtherList(b)
  {
    r := content + "### 其他\n\n";
    ghost var head := r;
    assert r == head + Bullets([]);
    r := AppendBullet(r, head, [], PublisherLabel, b.publisher);
    ghost var items := [PublisherLabel + b.publisher];
    assert [] + items == items;
    if !IsBlank(b.series) {
      r := AppendBullet(r, head, items, SeriesLabel, b.series);
      items := items + [SeriesLabel + b.series];
    }
    r := AppendFixedBullets(r, head, items, b);
    assert items + FixedOtherItems(b) == OtherItems(b);
    r := r + "\n";
  }
}
