/**
 * What the composed article body looks like, stated against the composer's
 * specification: which parts appear and in which order, where the translator
 * block and the series bullet go when they are present, and where the notice
 * closes the body.
 */
module Layout {
  import opened Text
  import opened Books
  import opened Composer

  lemma RankInjective(p: Part, q: Part)
    requires Rank(p) == Rank(q)
    ensures p == q
  {
  }

  /** Two rank-ordered lists of parts with the same members are the same list. */
  lemma {:induction false} RankedUnique(xs: seq<Part>, ys: seq<Part>)
    requires Ranked(xs) && Ranked(ys)
    requires forall p :: p in xs <==> p in ys
    ensures xs == ys
    decreases |xs|
  {
    if xs != [] {
      assert xs[0] in ys;
    }
    if ys != [] {
      assert ys[0] in xs;
    }
    if xs != [] {
      var i :| 0 <= i < |ys| && ys[i] == xs[0];
      var j :| 0 <= j < |xs| && xs[j] == ys[0];
      assert Rank(xs[0]) <= Rank(xs[j]);
      assert Rank(ys[0]) <= Rank(ys[i]);
      RankInjective(xs[0], ys[0]);
      forall p ensures p in xs[1..] <==> p in ys[1..] {
        assert p in xs[1..] <==> p in xs && p != xs[0];
        assert p in ys[1..] <==> p in ys && p != ys[0];
      }
      RankedUnique(xs[1..], ys[1..]);
      assert xs == [xs[0]] + xs[1..] && ys == [ys[0]] + ys[1..];
    }
  }

  /**
   * The article's parts are fully determined by two rules: they come in the
   * fixed order, and every part is present except the translator part, which
   * is present exactly when the book has translators.
   */
  lemma PartsDetermined(b: BookRecord, ps: seq<Part>)
    requires Ranked(ps)
    requires forall p :: p in ps <==> (p == Translators ==> b.translator != [])
    ensures ps == Parts(b)
  {
    RankedUnique(ps, Parts(b));
  }

  /** `big` is `small` with `piece` inserted at position `k`. */
  predicate InsertedAt(big: string, small: string, k: nat, piece: string)
  {
    k <= |small| && big == small[..k] + piece + small[k..]
  }

  lemma InsertedBetween(front: string, piece: string, back: string)
    ensures InsertedAt(front + piece + back, front + back, |front|, piece)
  {
    assert (front + back)[..|front|] == front;
    assert (front + back)[|front|..] == back;
  }

  lemma Assoc(x: string, y: string, z: string)
    ensures x + (y + z) == x + y + z
  {
  }

  /** The text of the four parts every body opens with. */
  function Opening(b: BookRecord, notice: string): string
  {
    PartText(b, notice, Heading) + PartText(b, notice, Cover)
    + PartText(b, notice, Authors) + PartText(b, notice, AuthorIntro)
  }

  /** The opening, followed by the translator block when there is one. */
  function OpeningAndTranslators(b: BookRecord, notice: string): string
  {
    if b.translator != [] then Opening(b, notice) + PartText(b, notice, Translators) else Opening(b, notice)
  }

  /** The text of the parts from the summary on, and the final blank line. */
  function Closing(b: BookRecord, notice: string): string
  {
    PartText(b, notice, Summary) + PartText(b, notice, Catalog)
    + PartText(b, notice, Other) + PartText(b, notice, Footer) + "\n\n"
  }

  /** The body is the opening, the translator block if any, and the closing. */
  lemma ContentShape(b: BookRecord, notice: string)
    ensures Content(b, notice) == OpeningAndTranslators(b, notice) + Closing(b, notice)
  {
    RenderedParts(b, notice);
    var x := OpeningAndTranslators(b, notice);
    var s, c, o, f := PartText(b, notice, Summary), PartText(b, notice, Catalog),
                      PartText(b, notice, Other), PartText(b, notice, Footer);
    assert Content(b, notice) == x + s + c + o + f + "\n\n";
    Assoc(x, s, c);
    Assoc(x, s + c, o);
    Assoc(x, s + c + o, f);
    Assoc(x, s + c + o + f, "\n\n");
  }

  /**
   * The author section is always there: the body opens with the title
   * heading, the cover line, then the author heading with one bullet per
   * author, even when there are none.
   */
  lemma ContentOpensWithAuthors(b: BookRecord, notice: string)
    ensures var lead := "## " + b.title + "\n\n" + CoverLine(b)
                        + ("### 作者\n\n" + Bullets(b.author) + "\n\n");
            |lead| <= |Content(b, notice)| && Content(b, notice)[..|lead|] == lead
  {
    ContentShape(b, notice);
    var lead := "## " + b.title + "\n\n" + CoverLine(b) + ("### 作者\n\n" + Bullets(b.author) + "\n\n");
    var intro := PartText(b, notice, AuthorIntro);
    var r := if b.translator != [] then intro + PartText(b, notice, Translators) else intro;
    if b.translator != [] {
      Assoc(lead, intro, PartText(b, notice, Translators));
    }
    assert OpeningAndTranslators(b, notice) == lead + r;
    Assoc(lead, r, Closing(b, notice));
    assert Content(b, notice) == lead + (r + Closing(b, notice));
  }

  /**
   * Giving a book translators inserts exactly the translator block, right
   * after the author introduction, and changes nothing else in the body.
   */
  lemma TranslatorBlockInserted(b: BookRecord, notice: string)
    requires b.translator != []
    ensures InsertedAt(Content(b, notice), Content(b.(translator := []), notice),
                       |Opening(b, notice)|,
                       "### 译者\n\n" + Bullets(b.translator) + "\n\n")
  {
    var b0 := b.(translator := []);
    ContentShape(b, notice);
    ContentShape(b0, notice);
    assert Opening(b0, notice) == Opening(b, notice);
    assert Closing(b0, notice) == Closing(b, notice);
    InsertedBetween(Opening(b, notice), PartText(b, notice, Translators), Closing(b, notice));
  }

  /** Without translators the body is the opening followed directly by the closing. */
  lemma NoTranslatorBlock(b: BookRecord, notice: string)
    requires b.translator == []
    ensures Content(b, notice) == Opening(b, notice) + Closing(b, notice)
  {
    ContentShape(b, notice);
  }

  /** The "其他" list split after the publisher bullet. */
  lemma OtherListShape(b: BookRecord)
    ensures OtherList(b)
            == "### 其他\n\n" + Bullet(PublisherLabel + b.publisher)
               + ((if IsBlank(b.series) then "" else Bullet(SeriesLabel + b.series))
                  + (Bullets(FixedOtherItems(b)) + "\n"))
  {
    var pub := [PublisherLabel + b.publisher];
    var series := if IsBlank(b.series) then [] else [SeriesLabel + b.series];
    var fixed := FixedOtherItems(b);
    assert OtherItems(b) == pub + (series + fixed);
    BulletsAppend(pub, series + fixed);
    BulletsAppend(series, fixed);
    var h, p := "### 其他\n\n", Bullet(PublisherLabel + b.publisher);
    var sr, fx := Bullets(series), Bullets(fixed);
    assert Bullets(pub) == p + Bullets([]);
    assert sr == if IsBlank(b.series) then "" else Bullet(SeriesLabel + b.series) + Bullets([]);
    assert OtherList(b) == h + (p + (sr + fx)) + "\n";
    Assoc(h, p, sr + fx);
    Assoc(h + p, sr + fx, "\n");
    Assoc(sr, fx, "\n");
  }

  /** The body up to and including the publisher bullet. */
  function UpToPublisher(b: BookRecord, notice: string): string
  {
    OpeningAndTranslators(b, notice) + PartText(b, notice, Summary) + PartText(b, notice, Catalog)
    + "### 其他\n\n" + Bullet(PublisherLabel + b.publisher)
  }

  /** The body after the place of the series bullet. */
  function AfterSeries(b: BookRecord, notice: string): string
  {
    (Bullets(FixedOtherItems(b)) + "\n") + (PartText(b, notice, Footer) + "\n\n")
  }

  /**
   * The body split around the place of the series bullet; the text before
   * that place ends with the publisher bullet.
   */
  lemma ContentAroundSeries(b: BookRecord, notice: string)
    ensures Content(b, notice)
            == UpToPublisher(b, notice)
               + (if IsBlank(b.series) then "" else Bullet(SeriesLabel + b.series))
               + AfterSeries(b, notice)
    ensures var up, pub := UpToPublisher(b, notice), Bullet(PublisherLabel + b.publisher);
            |pub| <= |up| && up[|up| - |pub|..] == pub
  {
    ContentShape(b, notice);
    OtherListShape(b);
    var x := OpeningAndTranslators(b, notice);
    var sm, ca, f := PartText(b, notice, Summary), PartText(b, notice, Catalog), PartText(b, notice, Footer);
    var h, p := "### 其他\n\n", Bullet(PublisherLabel + b.publisher);
    var sr := if IsBlank(b.series) then "" else Bullet(SeriesLabel + b.series);
    var fx := Bullets(FixedOtherItems(b)) + "\n";
    var nn := "\n\n";
    var w := sm + ca;
    var u := w + h + p;
    var v := u + sr;
    var after := fx + (f + nn);
    assert OtherList(b) == h + p + (sr + fx);
    Assoc(w, h + p, sr + fx);
    Assoc(w, h, p);
    Assoc(u, sr, fx);
    assert w + OtherList(b) == v + fx;
    Assoc(v, fx, f);
    Assoc(v, fx + f, nn);
    Assoc(fx, f, nn);
    assert Closing(b, notice) == v + after;
    Assoc(x, v, after);
    Assoc(x, u, sr);
    Assoc(x, w + h, p);
    Assoc(x, w, h);
    Assoc(x, sm, ca);
    assert x + u == UpToPublisher(b, notice);
  }

  /** The series does not show anywhere but in its own bullet. */
  lemma SeriesOnlyInOtherList(b: BookRecord, b0: BookRecord, notice: string)
    requires b0 == b.(series := b0.series)
    ensures UpToPublisher(b0, notice) == UpToPublisher(b, notice)
    ensures AfterSeries(b0, notice) == AfterSeries(b, notice)
  {
    assert OpeningAndTranslators(b0, notice) == OpeningAndTranslators(b, notice);
    assert FixedOtherItems(b0) == FixedOtherItems(b);
  }

  /**
   * A non-blank series adds exactly one bullet, `丛\U{3000}书：` and the
   * series, immediately after the publisher bullet, and changes nothing else
   * in the body.
   */
  lemma SeriesBulletInserted(b: BookRecord, notice: string)
    requires !IsBlank(b.series)
    ensures var b0 := b.(series := "");
            InsertedAt(Content(b, notice), Content(b0, notice),
                       |UpToPublisher(b0, notice)|, Bullet(SeriesLabel + b.series))
  {
    var b0 := b.(series := "");
    var up, piece, after := UpToPublisher(b, notice), Bullet(SeriesLabel + b.series), AfterSeries(b, notice);
    ContentAroundSeries(b, notice);
    assert Content(b, notice) == up + piece + after;
    ContentAroundSeries(b0, notice);
    assert IsBlank(b0.series);
    SeriesOnlyInOtherList(b, b0, notice);
    assert Content(b0, notice) == up + "" + after;
    assert up + "" == up;
    InsertedBetween(up, piece, after);
  }

  /**
   * With a blank series the "其他" list has eight bullets, and the subtitle
   * bullet follows the publisher bullet directly.
   */
  lemma SubtitleFollowsPublisherWithoutSeries(b: BookRecord)
    requires IsBlank(b.series)
    ensures var items := OtherItems(b);
            |items| == 8 && items[0] == PublisherLabel + b.publisher && items[1] == SubtitleLabel + b.subtitle
  {
    var items := OtherItems(b);
    assert items[1] == items[|items| - 7..][0];
  }

  /**
   * The body closes with the "其他" list, then the rule and the notice, then
   * one more blank line.
   */
  lemma ContentClosesWithNotice(b: BookRecord, notice: string)
    ensures var tail := OtherList(b) + "----\n\n" + notice + "\n\n";
            |tail| <= |Content(b, notice)|
            && Content(b, notice)[|Content(b, notice)| - |tail|..] == tail
  {
    ContentShape(b, notice);
    var x := OpeningAndTranslators(b, notice);
    var w := PartText(b, notice, Summary) + PartText(b, notice, Catalog);
    var o, f, nn := OtherList(b), PartText(b, notice, Footer), "\n\n";
    var tail := OtherList(b) + "----\n\n" + notice + "\n\n";
    Assoc(o, "----\n\n", notice);
    assert tail == o + f + nn;
    Assoc(w, o, f);
    Assoc(w, o + f, nn);
    assert Closing(b, notice) == w + tail;
    Assoc(x, w, tail);
    assert Content(b, notice) == (x + w) + tail;
  }
}
