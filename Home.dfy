/** The application state of the shop app (`ShopApp` in Home.py), with the
    widget tree abstracted away.

    The app holds the catalog and the news feed, rebuilds their card views
    when a fetch succeeds, checks once per run whether a newer version is
    published, and keeps a single detail-dialog slot. Each card carries a
    latch that lets its tap open the detail dialog only once until that
    card's dialog is closed.

    HTTP responses are inputs (`Response`), Kivy's hit test is a boolean, and
    what the app does to the outside world (dialogs opened or dismissed, URLs
    handed to the browser, errors printed) is appended to the log `ShopApp.log`. */
module Home {
  import opened Wrappers
  import Versions
  import Layout

  /** The version this build of the app reports. */
  const CURRENT_VERSION: string := "1.1"

  /** The version assumed when the version file has no "version" key. */
  const DEFAULT_LATEST: string := "1.0"

  /** A catalog entry: "name" is read with `[]` (required), the rest with `.get`. */
  datatype Product = Product(
    name: string,
    price: Option<string>,
    image: Option<string>,
    description: Option<string>,
    link: Option<string>)

  /** A news entry: "title" is required, the rest optional. */
  datatype News = News(title: string, image: Option<string>, content: Option<string>)

  /** The fields of version.json that the update check reads. */
  datatype VersionInfo = VersionInfo(version: Option<string>, downloadUrl: Option<string>)

  /** The outcome of `requests.get(url)` followed, on status 200, by `res.json()`:
      a status and the decoded body (`None` when `res.json()` raises), or a
      network error raised by `requests.get` itself. */
  datatype Response<T> = Response(status: int, body: Option<T>) | NetworkError

  /** The fetch delivered a new list (or version record). */
  predicate Delivers<T>(res: Response<T>) {
    res.Response? && res.status == 200 && res.body.Some?
  }

  /** The fetch raised inside the `try` block: the handler prints the error. */
  predicate Raises<T>(res: Response<T>) {
    res.NetworkError? || (res.status == 200 && res.body.None?)
  }

  /** The in-memory list after a fetch: replaced wholesale on success, kept
      otherwise; in particular a fetch that raised, or any status other than
      200, keeps the list. */
  function Loaded<T>(current: seq<T>, res: Response<seq<T>>): (r: seq<T>)
    ensures Raises(res) || (res.Response? && res.status != 200) ==> r == current
  {
    if Delivers(res) then res.body.value else current
  }

  /** A list is never partially updated: after a fetch it is either the old
      list or exactly the delivered one, and the same response again changes nothing. */
  lemma LoadedAllOrNothing<T>(current: seq<T>, res: Response<seq<T>>)
    ensures Loaded(current, res) == current || (Delivers(res) && Loaded(current, res) == res.body.value)
    ensures Loaded(Loaded(current, res), res) == Loaded(current, res)
  {
  }

  /** A detail dialog, with the card whose tap opened it (the card its close button resets). */
  datatype Detail =
    | ProductDetail(product: Product, productCard: ProductItem)
    | NewsDetail(news: News, newsCard: NewsItem)

  /** Any card, as `close_dialog(item)` accepts either kind. */
  datatype CardRef = ProductCard(productItem: ProductItem) | NewsCard(newsItem: NewsItem) {
    function Obj(): object {
      match this
      case ProductCard(c) => c
      case NewsCard(c) => c
    }

    predicate Latched()
      reads Obj()
    {
      match this
      case ProductCard(c) => c.touchHandled
      case NewsCard(c) => c.touchHandled
    }
  }

  /** The update dialog: the offered version and its download link. */
  datatype UpdatePrompt = UpdatePrompt(version: string, downloadUrl: string)

  /** Which `try` block printed an error. */
  datatype Origin = UpdateCheck | ProductsLoad | NewsLoad

  datatype Effect =
    | DetailOpened(openedDetail: Detail)
    | DetailDismissed(dismissedDetail: Detail)
    | PromptScheduled(scheduledPrompt: UpdatePrompt)
    | PromptDismissed(dismissedPrompt: UpdatePrompt)
    | BrowserOpened(url: string)
    | ErrorLogged(origin: Origin)

  /** What `check_for_updates` decides. */
  datatype CheckResult = NoUpdate | Offer(prompt: UpdatePrompt) | CheckFailed

  /** The decision of `check_for_updates`, in an app reporting version `current`,
      on a response: offer an update only on status 200 when `current` compares
      below the published version; a raised exception (network, JSON, `int()`)
      ends in the error handler. */
  function CheckOutcome(current: string, res: Response<VersionInfo>): (r: CheckResult)
    ensures !Delivers(res) ==> r == (if Raises(res) then CheckFailed else NoUpdate)
  {
    match res
    case NetworkError => CheckFailed
    case Response(status, body) =>
      if status != 200 then NoUpdate
      else match body
        case None => CheckFailed
        case Some(info) => Decide(current, info.version.GetOr(DEFAULT_LATEST), info.downloadUrl.GetOr(""))
  }

  /** The decision once "version" (or its default) and "download_url" (or "")
      are read: an offer is made for the version read, with the link read, and
      only when the comparison returned -1. */
  function Decide(current: string, latest: string, url: string): (r: CheckResult)
    ensures r.Offer? ==> r.prompt == UpdatePrompt(latest, url) && Versions.VersionOrder(current, latest) == Some(-1)
  {
    OrderOf(Versions.VersionOrder(current, latest), latest, url)
  }

  /** The decision on the comparison's result. */
  function OrderOf(order: Option<int>, latest: string, url: string): (r: CheckResult)
    requires order.Some? ==> -1 <= order.value <= 1
    ensures r.Offer? ==> r.prompt == UpdatePrompt(latest, url) && order == Some(-1)
  {
    match order
    case None => CheckFailed
    case Some(c) => if c < 0 then Offer(UpdatePrompt(latest, url)) else NoUpdate
  }

  /** The update dialog slot after a check. */
  function PromptAfter(previous: Option<UpdatePrompt>, outcome: CheckResult): Option<UpdatePrompt> {
    if outcome.Offer? then Some(outcome.prompt) else previous
  }

  /** What a check adds to the log. */
  function CheckEffects(outcome: CheckResult): seq<Effect> {
    match outcome
    case NoUpdate => []
    case Offer(p) => [PromptScheduled(p)]
    case CheckFailed => [ErrorLogged(UpdateCheck)]
  }

  /** What a list fetch adds to the log. */
  function LoadEffects<T>(res: Response<T>, origin: Origin): seq<Effect> {
    if Raises(res) then [ErrorLogged(origin)] else []
  }

  /** Dismissing whatever occupies the detail slot. */
  function Dismissal(slot: Option<Detail>): seq<Effect> {
    if slot.Some? then [DetailDismissed(slot.value)] else []
  }

  /** No object occurs twice: every position has its own card, and so its own latch. */
  ghost predicate Distinct<T>(xs: seq<T>) {
    forall i, j :: 0 <= i < j < |xs| ==> xs[i] != xs[j]
  }

  /** The products that the rows of cards show. */
  function RowProducts(rows: seq<seq<ProductItem>>): (shown: seq<seq<Product>>)
    ensures |shown| == |rows|
    ensures forall k :: 0 <= k < |rows| ==> |shown[k]| == |rows[k]|
    ensures forall k, j :: 0 <= k < |rows| && 0 <= j < |rows[k]| ==> shown[k][j] == rows[k][j].product
  {
    seq(|rows|, k requires 0 <= k < |rows| =>
      seq(|rows[k]|, j requires 0 <= j < |rows[k]| => rows[k][j].product))
  }

  /** The products that a flat list of cards shows. */
  function CardProducts(cards: seq<ProductItem>): (shown: seq<Product>)
    ensures |shown| == |cards|
    ensures forall i :: 0 <= i < |cards| ==> shown[i] == cards[i].product
  {
    seq(|cards|, i requires 0 <= i < |cards| => cards[i].product)
  }

  /** Laying cards out in rows and then reading their products is laying
      their products out in rows. */
  lemma RowProductsOfRows(cards: seq<ProductItem>)
    ensures RowProducts(Layout.Rows(cards)) == Layout.Rows(CardProducts(cards))
  {
    var shown := CardProducts(cards);
    Layout.RowsShape(cards);
    Layout.RowsShape(shown);
    var l, r := RowProducts(Layout.Rows(cards)), Layout.Rows(shown);
    forall k | 0 <= k < |l|
      ensures l[k] == r[k]
    {
      var hi := Layout.Min(2 * k + 2, |cards|);
      assert Layout.Rows(cards)[k] == cards[2 * k .. hi];
      assert r[k] == shown[2 * k .. hi];
      forall j | 0 <= j < |l[k]|
        ensures l[k][j] == r[k][j]
      {
        assert l[k][j] == cards[2 * k + j].product;
      }
    }
  }

  /** The news that the cards show. */
  function CardNews(cards: seq<NewsItem>): (shown: seq<News>)
    ensures |shown| == |cards|
    ensures forall i :: 0 <= i < |cards| ==> shown[i] == cards[i].news
  {
    seq(|cards|, i requires 0 <= i < |cards| => cards[i].news)
  }

  lemma CurrentVersionParts()
    ensures Versions.ParseVersion(CURRENT_VERSION) == Some([1, 1])
  {
    Versions.RenderedSpellings();
    Versions.ParseRendered([1, 1], CURRENT_VERSION);
  }

  lemma DefaultVersionParts()
    ensures Versions.ParseVersion(DEFAULT_LATEST) == Some([1, 0])
  {
    Versions.RenderedSpellings();
    Versions.ParseRendered([1, 0], DEFAULT_LATEST);
  }

  /** A response without a "version" key never offers an update to an app at
      version 1.1 (as CURRENT_VERSION is): the default "1.0" is older. */
  lemma MissingVersionOffersNothing(current: string, url: Option<string>)
    requires Versions.ParseVersion(current) == Some([1, 1])
    ensures CheckOutcome(current, Response(200, Some(VersionInfo(None, url)))) == NoUpdate
  {
    DefaultVersionParts();
    Versions.VersionOrderOfParsed(current, DEFAULT_LATEST, [1, 1], [1, 0]);
    assert Versions.CompareParts([1, 1], [1, 0]) == 1;
  }

  /** The same for this app: with CURRENT_VERSION "1.1", a version file without
      a "version" key requests no update dialog. */
  lemma MissingVersionNeverPrompts(url: Option<string>)
    ensures CheckOutcome(CURRENT_VERSION, Response(200, Some(VersionInfo(None, url)))) == NoUpdate
  {
    CurrentVersionParts();
    MissingVersionOffersNothing(CURRENT_VERSION, url);
  }

  /** Only a 200 response can offer an update or fail the check; any other status does nothing. */
  lemma NonOkStatusDoesNothing(current: string, status: int, body: Option<VersionInfo>)
    requires status != 200
    ensures CheckOutcome(current, Response(status, body)) == NoUpdate
  {
  }

  /** An offer carries the published version (or the default) and its link,
      and that version compares above the current one. */
  lemma OfferOnlyForNewerVersion(current: string, res: Response<VersionInfo>)
    requires CheckOutcome(current, res).Offer?
    ensures Delivers(res)
    ensures CheckOutcome(current, res).prompt ==
      UpdatePrompt(res.body.value.version.GetOr(DEFAULT_LATEST), res.body.value.downloadUrl.GetOr(""))
    ensures Versions.VersionOrder(current, CheckOutcome(current, res).prompt.version) == Some(-1)
  {
    assert res.Response? && res.status == 200 && res.body.Some?;
    var info := res.body.value;
  }

  /** Against version 1.1 (CURRENT_VERSION), a published version is offered, with the
      link read, exactly when its first segment exceeds 1, or it is 1 and a second
      segment exceeds 1; any other parsed version leads to no update and no error.
      "1", "1.1" and "1.1.5" are never offered (the comparison stops at the
      shorter version); a segment `int()` refuses fails the check. */
  lemma {:induction false} OfferExactlyWhenNewer(current: string, version: string, url: Option<string>)
    requires Versions.ParseVersion(current) == Some([1, 1])
    ensures var outcome := CheckOutcome(current, Response(200, Some(VersionInfo(Some(version), url))));
      match Versions.ParseVersion(version)
      case None => outcome == CheckFailed
      case Some(p) =>
        outcome == (if p[0] > 1 || (p[0] == 1 && |p| >= 2 && p[1] > 1)
                    then Offer(UpdatePrompt(version, url.GetOr(""))) else NoUpdate)
  {
    var parsed := Versions.ParseVersion(version);
    if parsed.Some? {
      var p := parsed.value;
      assert Versions.VersionOrder(current, version) == Some(Versions.CompareParts([1, 1], p));
      NewerThanOneOne(p);
    }
  }

  /** The same for this app, whose CURRENT_VERSION is "1.1". */
  lemma PromptExactlyWhenNewer(version: string, url: Option<string>)
    ensures var outcome := CheckOutcome(CURRENT_VERSION, Response(200, Some(VersionInfo(Some(version), url))));
      match Versions.ParseVersion(version)
      case None => outcome == CheckFailed
      case Some(p) =>
        outcome == (if p[0] > 1 || (p[0] == 1 && |p| >= 2 && p[1] > 1)
                    then Offer(UpdatePrompt(version, url.GetOr(""))) else NoUpdate)
  {
    CurrentVersionParts();
    OfferExactlyWhenNewer(CURRENT_VERSION, version, url);
  }

  /** The segment lists that compare above [1, 1]. */
  lemma NewerThanOneOne(p: seq<int>)
    requires |p| >= 1
    ensures Versions.CompareParts([1, 1], p) == -1 <==> (p[0] > 1 || (p[0] == 1 && |p| >= 2 && p[1] > 1))
  {
    assert [1, 1][1..] == [1];
    if p[0] == 1 {
      var q := p[1..];
      assert Versions.CompareParts([1, 1], p) == Versions.CompareParts([1], q);
      if |p| >= 2 {
        assert q[0] == p[1];
        assert Versions.CompareParts([1], q) == (if 1 < q[0] then -1 else if 1 > q[0] then 1 else 0);
      }
    }
  }

  /** The update check reads no version that `int()` refuses: a malformed
      "version" fails the check quietly and offers nothing. */
  lemma MalformedVersionFailsCheck(current: string, version: string, url: Option<string>)
    requires Versions.ParseVersion(version) == None
    ensures CheckOutcome(current, Response(200, Some(VersionInfo(Some(version), url)))) == CheckFailed
  {
  }

  class ProductItem {
    const product: Product
    /** The app whose `show_product_detail` is this card's callback. */
    const owner: ShopApp
    var touchHandled: bool

    constructor (product: Product, owner: ShopApp)
      ensures this.product == product && this.owner == owner && !touchHandled
    {
      this.product := product;
      this.owner := owner;
      touchHandled := false;
    }

    /** `ProductItem.on_touch_up`: a touch inside the card opens the detail
        dialog, once, and sets the latch that only `close_dialog` resets. */
    method OnTouchUp(collides: bool) returns (handled: bool)
      modifies this, owner
      ensures handled == (collides && !old(touchHandled))
      ensures touchHandled == (old(touchHandled) || collides)
      ensures handled ==> owner.ShowsDetail(ProductDetail(product, this))
      ensures !handled ==> owner.KeepsAll()
    {
      if collides && !touchHandled {
        touchHandled := true;
        owner.ShowProductDetail(product, this);
        return true;
      }
      return false;
    }
  }

  class NewsItem {
    const news: News
    /** The app whose `show_news_detail` is this card's callback. */
    const owner: ShopApp
    var touchHandled: bool

    constructor (news: News, owner: ShopApp)
      ensures this.news == news && this.owner == owner && !touchHandled
    {
      this.news := news;
      this.owner := owner;
      touchHandled := false;
    }

    /** `NewsItem.on_touch_up`: as for products. */
    method OnTouchUp(collides: bool) returns (handled: bool)
      modifies this, owner
      ensures handled == (collides && !old(touchHandled))
      ensures touchHandled == (old(touchHandled) || collides)
      ensures handled ==> owner.ShowsDetail(NewsDetail(news, this))
      ensures !handled ==> owner.KeepsAll()
    {
      if collides && !touchHandled {
        touchHandled := true;
        owner.ShowNewsDetail(news, this);
        return true;
      }
      return false;
    }
  }

  class ShopApp {
    var updateChecked: bool
    var products: seq<Product>
    var news: seq<News>
    /** The single detail-dialog slot (`self.dialog`). */
    var dialog: Option<Detail>
    var updateDialog: Option<UpdatePrompt>
    /** The catalog view: rows of product cards. */
    var productRows: seq<seq<ProductItem>>
    /** The news view: one card per news entry. */
    var newsCards: seq<NewsItem>
    var log: seq<Effect>

    /** Everything but the detail slot and the log is as before. */
    twostate predicate KeepsContent()
      reads this
    {
      && updateChecked == old(updateChecked)
      && products == old(products) && news == old(news)
      && productRows == old(productRows) && newsCards == old(newsCards)
      && updateDialog == old(updateDialog)
    }

    twostate predicate KeepsAll()
      reads this
    {
      KeepsContent() && dialog == old(dialog) && log == old(log)
    }

    /** The detail slot holds `d`, after the previous dialog (if any) was dismissed. */
    twostate predicate ShowsDetail(d: Detail)
      reads this
    {
      && KeepsContent()
      && dialog == Some(d)
      && log == old(log) + Dismissal(old(dialog)) + [DetailOpened(d)]
    }

    /** `ShopApp.__init__`. */
    constructor ()
      ensures !updateChecked && products == [] && news == [] && dialog == None && updateDialog == None
      ensures productRows == [] && newsCards == [] && log == []
    {
      updateChecked := false;
      products, news := [], [];
      dialog, updateDialog := None, None;
      productRows, newsCards := [], [];
      log := [];
    }

    /** `build`: empty lists and slots, fresh (empty) views, then both lists are fetched. */
    method Build(productsRes: Response<seq<Product>>, newsRes: Response<seq<News>>)
      modifies this
      ensures updateChecked == old(updateChecked)
      ensures dialog == None && updateDialog == None
      ensures products == Loaded([], productsRes) && news == Loaded([], newsRes)
      ensures RowProducts(productRows) == Layout.Rows(products)
      ensures forall row, card | row in productRows && card in row ::
        fresh(card) && !card.touchHandled && card.owner == this
      ensures Distinct(Layout.Flatten(productRows))
      ensures CardNews(newsCards) == news
      ensures forall card | card in newsCards :: fresh(card) && !card.touchHandled && card.owner == this
      ensures Distinct(newsCards)
      ensures log == old(log) + LoadEffects(productsRes, ProductsLoad) + LoadEffects(newsRes, NewsLoad)
    {
      products, news := [], [];
      dialog, updateDialog := None, None;
      productRows, newsCards := [], [];
      LoadProducts(productsRes);
      LoadNews(newsRes);
    }

    /** `on_start`: the update check runs on the first call only. */
    method OnStart(res: Response<VersionInfo>)
      modifies this
      ensures updateChecked
      ensures products == old(products) && news == old(news) && dialog == old(dialog)
      ensures productRows == old(productRows) && newsCards == old(newsCards)
      ensures old(updateChecked) ==> updateDialog == old(updateDialog) && log == old(log)
      ensures !old(updateChecked) ==>
        updateDialog == PromptAfter(old(updateDialog), CheckOutcome(CURRENT_VERSION, res)) &&
        log == old(log) + CheckEffects(CheckOutcome(CURRENT_VERSION, res))
    {
      if !updateChecked {
        CheckForUpdates(res);
        updateChecked := true;
      }
    }

    /** `check_for_updates`: on status 200, read "version" (default "1.0") and
        "download_url" (default ""), and request the update dialog when the
        current version compares below; every exception is printed and swallowed. */
    method CheckForUpdates(res: Response<VersionInfo>)
      modifies this
      ensures updateDialog == PromptAfter(old(updateDialog), CheckOutcome(CURRENT_VERSION, res))
      ensures log == old(log) + CheckEffects(CheckOutcome(CURRENT_VERSION, res))
      ensures updateChecked == old(updateChecked) && dialog == old(dialog)
      ensures products == old(products) && news == old(news)
      ensures productRows == old(productRows) && newsCards == old(newsCards)
    {
      match res
      case NetworkError =>
        log := log + [ErrorLogged(UpdateCheck)];
      case Response(status, body) =>
        if status == 200 {
          match body
          case None =>
            log := log + [ErrorLogged(UpdateCheck)];
          case Some(info) =>
            var latest := info.version.GetOr(DEFAULT_LATEST);
            var url := info.downloadUrl.GetOr("");
            var order := Versions.CompareVersions(CURRENT_VERSION, latest);
            match order
            case None =>
              log := log + [ErrorLogged(UpdateCheck)];
            case Some(c) =>
              if c < 0 {
                ShowUpdateDialog(latest, url);
              }
        }
    }

    /** `show_update_dialog`: the dialog replaces the slot and its opening is scheduled. */
    method ShowUpdateDialog(version: string, url: string)
      modifies this
      ensures updateDialog == Some(UpdatePrompt(version, url))
      ensures log == old(log) + [PromptScheduled(UpdatePrompt(version, url))]
      ensures KeepsAllButPrompt() && dialog == old(dialog)
    {
      updateDialog := Some(UpdatePrompt(version, url));
      log := log + [PromptScheduled(UpdatePrompt(version, url))];
    }

    /** Everything but the update slot and the log is as before. */
    twostate predicate KeepsAllButPrompt()
      reads this
    {
      && updateChecked == old(updateChecked)
      && products == old(products) && news == old(news)
      && productRows == old(productRows) && newsCards == old(newsCards)
    }

    /** `download_update`: hand a non-empty URL to the browser, then dismiss the
        update dialog if there is one (the slot itself is not cleared). */
    method DownloadUpdate(url: string)
      modifies this
      ensures log == old(log) + (if url != "" then [BrowserOpened(url)] else [])
        + (if updateDialog.Some? then [PromptDismissed(updateDialog.value)] else [])
      ensures KeepsContent() && dialog == old(dialog)
    {
      if url != "" {
        log := log + [BrowserOpened(url)];
      }
      if updateDialog.Some? {
        log := log + [PromptDismissed(updateDialog.value)];
      }
    }

    /** `load_products`: on a delivered list, replace the catalog and rebuild
        its view; on another status, keep both; an exception is printed. */
    method LoadProducts(res: Response<seq<Product>>)
      modifies this
      ensures products == Loaded(old(products), res)
      ensures Delivers(res) ==> RowProducts(productRows) == Layout.Rows(products)
      ensures Delivers(res) ==> forall row, card | row in productRows && card in row ::
        fresh(card) && !card.touchHandled && card.owner == this
      ensures Delivers(res) ==> Distinct(Layout.Flatten(productRows))
      ensures !Delivers(res) ==> productRows == old(productRows)
      ensures log == old(log) + LoadEffects(res, ProductsLoad)
      ensures updateChecked == old(updateChecked) && news == old(news) && newsCards == old(newsCards)
      ensures dialog == old(dialog) && updateDialog == old(updateDialog)
    {
      match res
      case NetworkError =>
        log := log + [ErrorLogged(ProductsLoad)];
      case Response(status, body) =>
        if status == 200 {
          match body
          case None =>
            log := log + [ErrorLogged(ProductsLoad)];
          case Some(list) =>
            products := list;
            UpdateProducts();
        }
    }

    /** `update_products`: clear the view, then lay the products out in order,
        opening a new row at every even index; every card is new and unlatched. */
    method UpdateProducts()
      modifies this
      ensures RowProducts(productRows) == Layout.Rows(products)
      ensures forall row, card | row in productRows && card in row ::
        fresh(card) && !card.touchHandled && card.owner == this
      ensures Distinct(Layout.Flatten(productRows))
      ensures KeepsAllButCatalog() && dialog == old(dialog) && log == old(log)
    {
      productRows := [];
      ghost var cards: seq<ProductItem> := [];
      var i := 0;
      while i < |products|
        invariant 0 <= i <= |products| && |cards| == i
        invariant CardProducts(cards) == products[..i]
        invariant productRows == Layout.Rows(cards)
        invariant forall card | card in cards :: fresh(card) && !card.touchHandled && card.owner == this
        invariant Distinct(cards)
        invariant updateChecked == old(updateChecked) && products == old(products) && news == old(news)
        invariant newsCards == old(newsCards) && updateDialog == old(updateDialog)
        invariant dialog == old(dialog) && log == old(log)
      {
        var item := new ProductItem(products[i], this);
        Layout.RowsSnoc(cards, item);
        if i % 2 == 0 {
          productRows := productRows + [[item]];
        } else {
          var last := |productRows| - 1;
          productRows := productRows[..last] + [productRows[last] + [item]];
        }
        assert CardProducts(cards + [item]) == products[..i + 1];
        assert item !in cards;
        cards := cards + [item];
        i := i + 1;
      }
      assert products[..i] == products;
      RowProductsOfRows(cards);
      Layout.RowsMembers(cards);
      Layout.RowsFlatten(cards);
    }

    /** Everything but the catalog view is as before. */
    twostate predicate KeepsAllButCatalog()
      reads this
    {
      && updateChecked == old(updateChecked)
      && products == old(products) && news == old(news)
      && newsCards == old(newsCards) && updateDialog == old(updateDialog)
    }

    /** `load_news`: as `load_products`, for the news feed. */
    method LoadNews(res: Response<seq<News>>)
      modifies this
      ensures news == Loaded(old(news), res)
      ensures Delivers(res) ==> CardNews(newsCards) == news
      ensures Delivers(res) ==> forall card | card in newsCards ::
        fresh(card) && !card.touchHandled && card.owner == this
      ensures Delivers(res) ==> Distinct(newsCards)
      ensures !Delivers(res) ==> newsCards == old(newsCards)
      ensures log == old(log) + LoadEffects(res, NewsLoad)
      ensures updateChecked == old(updateChecked) && products == old(products)
      ensures productRows == old(productRows)
      ensures dialog == old(dialog) && updateDialog == old(updateDialog)
    {
      match res
      case NetworkError =>
        log := log + [ErrorLogged(NewsLoad)];
      case Response(status, body) =>
        if status == 200 {
          match body
          case None =>
            log := log + [ErrorLogged(NewsLoad)];
          case Some(list) =>
            news := list;
            UpdateNews();
        }
    }

    /** `update_news`: clear the view, then one new card per entry, in order. */
    method UpdateNews()
      modifies this
      ensures CardNews(newsCards) == news
      ensures forall card | card in newsCards :: fresh(card) && !card.touchHandled && card.owner == this
      ensures Distinct(newsCards)
      ensures updateChecked == old(updateChecked) && products == old(products) && news == old(news)
      ensures productRows == old(productRows) && updateDialog == old(updateDialog)
      ensures dialog == old(dialog) && log == old(log)
    {
      newsCards := [];
      var i := 0;
      while i < |news|
        invariant 0 <= i <= |news|
        invariant CardNews(newsCards) == news[..i]
        invariant forall card | card in newsCards :: fresh(card) && !card.touchHandled && card.owner == this
        invariant Distinct(newsCards)
        invariant updateChecked == old(updateChecked) && products == old(products) && news == old(news)
        invariant productRows == old(productRows) && updateDialog == old(updateDialog)
        invariant dialog == old(dialog) && log == old(log)
      {
        var item := new NewsItem(news[i], this);
        newsCards := newsCards + [item];
        i := i + 1;
      }
    }

    /** `show_product_detail`: dismiss and clear any open detail dialog, then open this one. */
    method ShowProductDetail(product: Product, card: ProductItem)
      modifies this
      ensures ShowsDetail(ProductDetail(product, card))
    {
      if dialog.Some? {
        log := log + [DetailDismissed(dialog.value)];
        dialog := None;
      }
      dialog := Some(ProductDetail(product, card));
      log := log + [DetailOpened(ProductDetail(product, card))];
    }

    /** `show_news_detail`: as for products. */
    method ShowNewsDetail(news: News, card: NewsItem)
      modifies this
      ensures ShowsDetail(NewsDetail(news, card))
    {
      if dialog.Some? {
        log := log + [DetailDismissed(dialog.value)];
        dialog := None;
      }
      dialog := Some(NewsDetail(news, card));
      log := log + [DetailOpened(NewsDetail(news, card))];
    }

    /** `close_dialog(item)`: dismiss and clear the detail slot, and reset the
        latch of the card given, whichever dialog was open. */
    method CloseDialog(item: CardRef)
      modifies this, item.Obj()
      ensures dialog == None
      ensures log == old(log) + Dismissal(old(dialog))
      ensures !item.Latched()
      ensures KeepsContent()
    {
      if dialog.Some? {
        log := log + [DetailDismissed(dialog.value)];
        dialog := None;
      }
      match item
      case ProductCard(c) => c.touchHandled := false;
      case NewsCard(c) => c.touchHandled := false;
    }
  }

  /** A catalog listing the same product twice gets two cards with latches of their
      own: tapping the first leaves the second unlatched, and the second then opens too. */
  method RepeatedProductGetsTwoCards(p: Product)
    returns (a: ProductItem, b: ProductItem, first: bool, second: bool)
    ensures a != b && first && second
  {
    var app := new ShopApp();
    app.LoadProducts(Response(200, Some([p, p])));
    assert Layout.Rows([p, p]) == [[p, p]];
    assert |app.productRows| == 1 && |app.productRows[0]| == 2;
    var row := app.productRows[0];
    a, b := row[0], row[1];
    assert row in app.productRows && a in row && b in row;
    assert app.productRows[1..] == [];
    assert Layout.Flatten(app.productRows) == row;
    first := a.OnTouchUp(true);
    second := b.OnTouchUp(true);
  }

  /** Tapping a second card while the first card's dialog is open dismisses that
      dialog without resetting the first card's latch: the first card stays
      latched and ignores its next tap, while closing the second card's dialog
      lets the second card open it again. */
  method SecondCardLeavesFirstLatched(p: Product, q: Product)
    returns (a: ProductItem, b: ProductItem, first: bool, second: bool, retry: bool, stuck: bool,
             reopened: bool, log: seq<Effect>)
    ensures first && second && !retry && stuck && reopened
    ensures log == [DetailOpened(ProductDetail(p, a)), DetailDismissed(ProductDetail(p, a)),
                    DetailOpened(ProductDetail(q, b)), DetailDismissed(ProductDetail(q, b)),
                    DetailOpened(ProductDetail(q, b))]
  {
    var app := new ShopApp();
    a := new ProductItem(p, app);
    b := new ProductItem(q, app);
    first := a.OnTouchUp(true);
    second := b.OnTouchUp(true);
    retry := a.OnTouchUp(true);
    stuck := a.touchHandled && app.dialog == Some(ProductDetail(q, b));
    app.CloseDialog(ProductCard(b));
    reopened := b.OnTouchUp(true);
    log := app.log;
  }
}
