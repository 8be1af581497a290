/**
  Image lookup on a card's detail page (`get_card_image_url`).

  The parsed page is given as the four things the cascade looks at: the `src`
  of the first `<img>` inside the first `div.card`, the `content` of the first
  `og:image` meta tag, the `content` of the first `itemprop=image` meta tag,
  and the `src` of every `<img>` in document order.  A source qualifies when
  it contains `den-cards.pokellector.com` as a substring; an `<img>` source
  must also end, after its last `.`, in png, jpg, jpeg or webp in any case.
  The first qualifying source in that priority order is returned.
 */
module ImageLocator {
  import opened Wrappers
  import opened Text

  const ImageHost := "den-cards.pokellector.com"

  /** The allow-list the text after the last `.` is compared with, lower-cased. */
  const ImageExtensions: set<string> := {"png", "jpg", "jpeg", "webp"}

  /** `src.split('.')[-1].lower() in ('png', 'jpg', 'jpeg', 'webp')`. */
  predicate HasImageExtension(src: string) {
    Lower(AfterLast(src, '.')) in ImageExtensions
  }

  /**
    The extension test ignores ASCII case: two sources whose texts after the
    last `.` differ only in case get the same verdict.
   */
  lemma HasImageExtensionIgnoresCase(a: string, b: string)
    requires EqualIgnoringCase(AfterLast(a, '.'), AfterLast(b, '.'))
    ensures HasImageExtension(a) == HasImageExtension(b)
  {
    LowerEqualIffEqualIgnoringCase(AfterLast(a, '.'), AfterLast(b, '.'));
  }

  /** Every allow-listed name is already in lower case. */
  lemma AllowListIsLowerCase(e: string)
    requires e in ImageExtensions
    ensures Lower(e) == e
  {
    if e == "png" {
      LowerOfLowerCase("png");
    } else if e == "jpg" {
      LowerOfLowerCase("jpg");
    } else if e == "jpeg" {
      LowerOfLowerCase("jpeg");
    } else {
      LowerOfLowerCase("webp");
    }
  }

  /** The lower-cased text is allow-listed exactly when the text equals an allow-listed name up to case. */
  lemma LowerInAllowList(x: string)
    ensures Lower(x) in ImageExtensions <==> exists e :: e in ImageExtensions && EqualIgnoringCase(x, e)
  {
    if Lower(x) in ImageExtensions {
      var e := Lower(x);
      AllowListIsLowerCase(e);
      LowerEqualIffEqualIgnoringCase(x, e);
    }
    if e :| e in ImageExtensions && EqualIgnoringCase(x, e) {
      AllowListIsLowerCase(e);
      LowerEqualIffEqualIgnoringCase(x, e);
    }
  }

  /**
    A source `stem.ext` passes the extension test exactly when `ext` is one of
    png, jpg, jpeg and webp, written in any mixture of cases.
   */
  lemma ExtensionInAnyCase(stem: string, ext: string)
    requires '.' !in ext
    ensures HasImageExtension(stem + "." + ext) <==>
      exists e :: e in ImageExtensions && EqualIgnoringCase(ext, e)
  {
    AfterLastOfSeparatedTail(stem, '.', ext);
    LowerInAllowList(ext);
  }

  /** One spelling of an allow-listed name, in whatever case, is accepted after any stem. */
  lemma SpellingAccepted(stem: string, ext: string, e: string)
    requires '.' !in ext && e in ImageExtensions && EqualIgnoringCase(ext, e)
    ensures HasImageExtension(stem + "." + ext)
  {
    ExtensionInAnyCase(stem, ext);
  }

  /** `.PNG`, `.Png` and `.png` are all accepted. */
  lemma PngInAnyCase(stem: string)
    ensures HasImageExtension(stem + "." + "PNG")
    ensures HasImageExtension(stem + "." + "Png")
    ensures HasImageExtension(stem + "." + "png")
  {
    SpellingAccepted(stem, "PNG", "png");
    SpellingAccepted(stem, "Png", "png");
    SpellingAccepted(stem, "png", "png");
  }

  /** `.gif` is not an allowed extension. */
  lemma GifRejected(stem: string)
    ensures !HasImageExtension(stem + "." + "gif")
  {
    AfterLastOfSeparatedTail(stem, '.', "gif");
    LowerOfLowerCase("gif");
  }

  /** The test on an `<img>` source. */
  predicate ImgQualifies(src: string) {
    Contains(src, ImageHost) && HasImageExtension(src)
  }

  /** The test on a meta tag's content, which must also be non-empty. */
  predicate MetaQualifies(content: string) {
    content != "" && Contains(content, ImageHost)
  }

  /**
    What the cascade reads from a parsed detail page.  `cardImgSrc` is `None`
    when there is no `div.card` or no `<img>` inside it, and `Some("")` when
    that `<img>` has no `src`; `ogImage` and `itemImage` are `None` when the
    meta tag or its `content` attribute is missing; `imgSrcs` holds `""` for an
    `<img>` without `src`.
   */
  datatype DetailPage = DetailPage(
    cardImgSrc: Option<string>,
    ogImage: Option<string>,
    itemImage: Option<string>,
    imgSrcs: seq<string>)

  /** Index of the first qualifying `<img>` source at or after `from`, or `|srcs|`. */
  function FirstImgFrom(srcs: seq<string>, from: nat): (r: nat)
    requires from <= |srcs|
    ensures from <= r <= |srcs|
    ensures r < |srcs| ==> ImgQualifies(srcs[r])
    ensures forall j :: from <= j < r ==> !ImgQualifies(srcs[j])
    decreases |srcs| - from
  {
    if from == |srcs| then |srcs|
    else if ImgQualifies(srcs[from]) then from
    else FirstImgFrom(srcs, from + 1)
  }

  /** The early-return cascade of `get_card_image_url` on a fetched page. */
  function LocateImage(page: DetailPage): Option<string> {
    if page.cardImgSrc.Some? && page.cardImgSrc.value != "" && ImgQualifies(page.cardImgSrc.value) then
      page.cardImgSrc
    else if page.ogImage.Some? && page.ogImage.value != "" && Contains(page.ogImage.value, ImageHost) then
      page.ogImage
    else if page.itemImage.Some? && page.itemImage.value != "" && Contains(page.itemImage.value, ImageHost) then
      page.itemImage
    else
      var k := FirstImgFrom(page.imgSrcs, 0);
      if k < |page.imgSrcs| then Some(page.imgSrcs[k]) else None
  }

  /** `get_card_image_url`: a failed request (`None`) gives no image. */
  function CardImageUrl(fetched: Option<DetailPage>): Option<string> {
    match fetched
    case None => None
    case Some(page) => LocateImage(page)
  }

  // ---------------------------------------------------------------------------
  // Reference: one flat priority list
  // ---------------------------------------------------------------------------

  /** Which part of the page a candidate source comes from. */
  datatype Branch = CardDiv | OgMeta | ItempropMeta | AnyImg

  datatype Offer = Offer(branch: Branch, src: string)

  /** The test each branch applies: meta tags skip the extension check. */
  predicate Qualifies(o: Offer) {
    match o.branch
    case OgMeta => MetaQualifies(o.src)
    case ItempropMeta => MetaQualifies(o.src)
    case _ => ImgQualifies(o.src)
  }

  function OfferOf(b: Branch, v: Option<string>): seq<Offer> {
    if v.Some? then [Offer(b, v.value)] else []
  }

  /** Every candidate source of the page, highest priority first. */
  function PriorityList(page: DetailPage): seq<Offer> {
    OfferOf(CardDiv, page.cardImgSrc) + OfferOf(OgMeta, page.ogImage) + OfferOf(ItempropMeta, page.itemImage)
    + seq(|page.imgSrcs|, i requires 0 <= i < |page.imgSrcs| => Offer(AnyImg, page.imgSrcs[i]))
  }

  /** Index of the first qualifying offer at or after `from`, or `|offers|`. */
  function FirstQualifyingFrom(offers: seq<Offer>, from: nat): (r: nat)
    requires from <= |offers|
    ensures from <= r <= |offers|
    ensures r < |offers| ==> Qualifies(offers[r])
    ensures forall j :: from <= j < r ==> !Qualifies(offers[j])
    decreases |offers| - from
  {
    if from == |offers| then |offers|
    else if Qualifies(offers[from]) then from
    else FirstQualifyingFrom(offers, from + 1)
  }

  /** The offer `get_card_image_url` returns, by the reference definition. */
  function WinningOffer(page: DetailPage): Option<Offer> {
    var offers := PriorityList(page);
    var k := FirstQualifyingFrom(offers, 0);
    if k < |offers| then Some(offers[k]) else None
  }

  lemma FirstQualifyingIs(offers: seq<Offer>, e: nat)
    requires e <= |offers| && (e < |offers| ==> Qualifies(offers[e]))
    requires forall j :: 0 <= j < e ==> !Qualifies(offers[j])
    ensures FirstQualifyingFrom(offers, 0) == e
  {
  }

  /** Where each candidate sits in the priority list. */
  lemma PriorityListLayout(page: DetailPage, c: nat, o: nat, m: nat)
    requires c == |OfferOf(CardDiv, page.cardImgSrc)|
    requires o == |OfferOf(OgMeta, page.ogImage)|
    requires m == |OfferOf(ItempropMeta, page.itemImage)|
    ensures |PriorityList(page)| == c + o + m + |page.imgSrcs|
    ensures c == 1 ==> PriorityList(page)[0] == Offer(CardDiv, page.cardImgSrc.value)
    ensures o == 1 ==> PriorityList(page)[c] == Offer(OgMeta, page.ogImage.value)
    ensures m == 1 ==> PriorityList(page)[c + o] == Offer(ItempropMeta, page.itemImage.value)
    ensures forall j :: 0 <= j < |page.imgSrcs| ==>
      PriorityList(page)[c + o + m + j] == Offer(AnyImg, page.imgSrcs[j])
  {
  }

  /** When the first three branches fail, none of the page's first three offers qualifies. */
  lemma HeadOffersFail(page: DetailPage, j: nat)
    requires !(page.cardImgSrc.Some? && page.cardImgSrc.value != "" && ImgQualifies(page.cardImgSrc.value))
    requires !(page.ogImage.Some? && page.ogImage.value != "" && Contains(page.ogImage.value, ImageHost))
    requires !(page.itemImage.Some? && page.itemImage.value != "" && Contains(page.itemImage.value, ImageHost))
    requires j < |OfferOf(CardDiv, page.cardImgSrc)| + |OfferOf(OgMeta, page.ogImage)| + |OfferOf(ItempropMeta, page.itemImage)|
    ensures j < |PriorityList(page)| && !Qualifies(PriorityList(page)[j])
  {
    var c, o, m := |OfferOf(CardDiv, page.cardImgSrc)|, |OfferOf(OgMeta, page.ogImage)|, |OfferOf(ItempropMeta, page.itemImage)|;
    PriorityListLayout(page, c, o, m);
    var offers := PriorityList(page);
    if j < c {
      assert offers[j] == Offer(CardDiv, page.cardImgSrc.value);
      assert !Contains("", ImageHost);
    } else if j < c + o {
      assert offers[j] == Offer(OgMeta, page.ogImage.value);
    } else {
      assert offers[j] == Offer(ItempropMeta, page.itemImage.value);
    }
  }

  /** The last branch of the cascade: the first qualifying `<img>` of the page. */
  lemma FallbackIsFirstQualifying(page: DetailPage)
    requires !(page.cardImgSrc.Some? && page.cardImgSrc.value != "" && ImgQualifies(page.cardImgSrc.value))
    requires !(page.ogImage.Some? && page.ogImage.value != "" && Contains(page.ogImage.value, ImageHost))
    requires !(page.itemImage.Some? && page.itemImage.value != "" && Contains(page.itemImage.value, ImageHost))
    ensures var c, o, m := |OfferOf(CardDiv, page.cardImgSrc)|, |OfferOf(OgMeta, page.ogImage)|, |OfferOf(ItempropMeta, page.itemImage)|;
      FirstQualifyingFrom(PriorityList(page), 0) == c + o + m + FirstImgFrom(page.imgSrcs, 0)
  {
    var offers := PriorityList(page);
    var c, o, m := |OfferOf(CardDiv, page.cardImgSrc)|, |OfferOf(OgMeta, page.ogImage)|, |OfferOf(ItempropMeta, page.itemImage)|;
    PriorityListLayout(page, c, o, m);
    var k := FirstImgFrom(page.imgSrcs, 0);
    forall j | 0 <= j < c + o + m + k ensures !Qualifies(offers[j]) {
      if j < c + o + m {
        HeadOffersFail(page, j);
      } else {
        assert offers[j] == Offer(AnyImg, page.imgSrcs[j - (c + o + m)]);
      }
    }
    FirstQualifyingIs(offers, c + o + m + k);
  }

  /**
    The cascade returns the source of the first qualifying offer of the
    priority list.
   */
  lemma LocateImageIsFirstQualifying(page: DetailPage)
    ensures LocateImage(page) == if WinningOffer(page).Some? then Some(WinningOffer(page).value.src) else None
  {
    var offers := PriorityList(page);
    var c, o, m := |OfferOf(CardDiv, page.cardImgSrc)|, |OfferOf(OgMeta, page.ogImage)|, |OfferOf(ItempropMeta, page.itemImage)|;
    PriorityListLayout(page, c, o, m);
    if page.cardImgSrc.Some? && page.cardImgSrc.value != "" && ImgQualifies(page.cardImgSrc.value) {
      FirstQualifyingIs(offers, 0);
    } else if page.ogImage.Some? && page.ogImage.value != "" && Contains(page.ogImage.value, ImageHost) {
      FirstQualifyingIs(offers, c);
    } else if page.itemImage.Some? && page.itemImage.value != "" && Contains(page.itemImage.value, ImageHost) {
      assert c == 1 ==> !Qualifies(offers[0]);
      FirstQualifyingIs(offers, c + o);
    } else {
      FallbackIsFirstQualifying(page);
    }
  }

  /**
    A located image always contains `den-cards.pokellector.com`; one found in
    the card section or among all `<img>` tags also has an allow-listed
    extension; and there is none exactly when no candidate qualifies.
   */
  lemma LocatedImageQualifies(page: DetailPage)
    ensures LocateImage(page).Some? ==> Contains(LocateImage(page).value, ImageHost)
    ensures WinningOffer(page).Some? && WinningOffer(page).value.branch in {CardDiv, AnyImg} ==>
      HasImageExtension(LocateImage(page).value)
    ensures LocateImage(page).None? <==>
      forall j :: 0 <= j < |PriorityList(page)| ==> !Qualifies(PriorityList(page)[j])
  {
    LocateImageIsFirstQualifying(page);
  }
}
