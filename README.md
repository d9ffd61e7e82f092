# Shop app core: version check, catalog loading, detail dialogs

This project models the non-visual core of `Home.py`, a KivyMD shop app. The app
shows a product catalog and a news feed fetched as JSON from a GitHub repository,
checks once per run whether a newer app version is published, and opens one
detail dialog at a time when a product or news card is tapped.

The model has four modules:

- `Wrappers`: `Option`, standing for `dict.get` with a default and for
  conversions that raise.
- `Versions`: `ShopApp.compare_versions`.
  - Python's `str.split('.')` is `Split`.
  - Python's `int()` on a string is `ParseInt`. It strips the blanks at both
    ends, accepts an optional sign, and lets ASCII digits be separated by single
    underscores.
  - The blanks `int()` strips are `IsIntSpace`: `\t` to `\r`, the space, and
    the non-ASCII characters that `str.isspace` accepts. The ASCII separators
    U+001C to U+001F pass `str.isspace` but are not stripped, so "2\x1c" is
    refused (`SeparatorPaddingRejected`).
  - The `zip` loop is `CompareParts` (a function) and `CompareZipped` (the loop
    as a method).
  - `VersionOrder` is the whole comparator. It is `None` where the source raises
    `ValueError`.
- `Layout`: the two-per-row grouping of `update_products`, over any item type.
- `Home`: the app state.
  - `ShopApp` is a class. Its fields are the update flag, the product and news
    lists, the detail-dialog slot, the update-dialog slot, the card views and a
    log of outside effects.
  - The log records dialogs opened and dismissed, URLs handed to the browser,
    and the errors printed by the `except` handlers of `check_for_updates`,
    `load_products` and `load_news`. The handler around the changelog fetch in
    `show_update_dialog` is not part of the log (see Left out).
  - `ProductItem` and `NewsItem` are classes with the `_touch_handled` latch.
  - HTTP responses are inputs (`Response`): a status with a decoded body, or a
    network error. Kivy's hit test is a boolean argument.

`CheckOutcome(current, res)` is the decision of `check_for_updates`. It takes the
app's version as a parameter, and `ShopApp` always passes `CURRENT_VERSION`
("1.1"). The decision lemmas hold for any `current` that parses to `[1, 1]`, and
`CurrentVersionParts` shows that `CURRENT_VERSION` does. `MissingVersionNeverPrompts`
and `PromptExactlyWhenNewer` combine the two for this app.

The comparator is modelled as written. Only the common prefix of the two versions
is compared, so "1.1" and "1.1.5" compare equal. The comparison is not the
precedence rule of section 11 of Semantic Versioning 2.0.0, and "compares equal"
is not transitive (`EqualityNotTransitive`).

## Model

| member | source | states |
|---|---|---|
| Versions.Split | Home.py:150-151 | `str.split('.')`: at least one piece, and no piece contains the separator |
| Versions.JoinSplit | Home.py:150-151 | joining the pieces of a split with the separator gives back the string, so no character is lost |
| Versions.SplitJoin | Home.py:150-151 | splitting a join of separator-free pieces gives back those pieces, empty ones included |
| Versions.SplitNoSeparator | Home.py:150-151 | a string without '.' is a single segment |
| Versions.SplitAfterPiece | Home.py:150-151 | a '.' after a separator-free prefix ends the first segment |
| Versions.TrimStart | Home.py:150-151 | `int()`'s leading strip: a suffix of the input, every dropped character is one `int()` skips (`\t`-`\r`, space, non-ASCII white space, but not U+001C-U+001F), and the result does not start with one |
| Versions.TrimEnd | Home.py:150-151 | the trailing strip: a prefix of the input, every dropped character is one `int()` skips, and the result does not end with one |
| Versions.DigitChar | Home.py:150-151 | reference inverse of `int()` used by the round-trip lemmas: the digit character of a value below 10 is a digit with that value |
| Versions.Decimal | Home.py:150-151 | reference inverse of `int()` used by the round-trip lemmas: the decimal spelling of a natural number is non-empty and all digits |
| Versions.DecimalValue | Home.py:150-151 | for the reference inverse of `int()`: the digits of `Decimal(n)` spell `n` |
| Versions.StripUnpadded | Home.py:150-151 | a segment that neither starts nor ends with whitespace is converted as it is |
| Versions.ParseInt | Home.py:150-151 | `int(seg)`, `None` where it raises: a negative result comes only from a segment whose first non-blank character is a minus sign followed by more |
| Versions.ParseIntGroup | Home.py:150-151 | `int()` on an unsigned digit group gives the number its digits spell |
| Versions.ParseIntDecimal | Home.py:150-151 | `int(str(n)) == n` for every natural number, aside from the interpreter's 4300-digit limit (see Left out) |
| Versions.LeadingZeroIgnored | Home.py:150-151 | `int()` accepts and ignores a leading zero ("01" converts as "1") |
| Versions.LeadingZeroGroup | Home.py:150-151 | a leading zero keeps a digit group well-formed |
| Versions.LeadingZeroValue | Home.py:150-151 | a leading zero does not change the value a digit group spells |
| Versions.BlankSegmentRejected | Home.py:150-151 | `int()` raises on an empty or all-whitespace segment |
| Versions.ForeignCharacterRejected | Home.py:150-151 | `int()` raises on a segment containing a character that no integer literal contains |
| Versions.SeparatorPaddingRejected | Home.py:150-151 | a digit group padded with one of U+001C-U+001F on either side is refused, because `int()` does not strip those |
| Versions.ParseSegments | Home.py:150-151 | `list(map(int, parts))`: on success, one integer per segment |
| Versions.ParseSegmentsAccepts | Home.py:150-151 | the list is produced exactly when `int()` accepts every segment |
| Versions.ParseSegmentsValues | Home.py:150-151 | a produced list holds each segment's value, in order |
| Versions.ParseVersion | Home.py:150-151 | a parsed version has one integer per dotted segment, so at least one |
| Versions.Decimals | Home.py:150-151 | reference inverse of `list(map(int, ...))` used by the round-trip lemmas: one decimal spelling per number |
| Versions.ParseDecimals | Home.py:150-151 | converting the decimal spellings gives back the numbers |
| Versions.RenderParse | Home.py:150-151 | parsing the dotted rendering of a list of naturals gives back the list |
| Versions.ParseRendered | Home.py:150-151 | the same, for a string known to be spelled as a rendering |
| Versions.BlankSegmentVersionRejected | Home.py:150-151 | a version with an empty or blank segment ("", "1..1", "1.") is refused |
| Versions.ForeignCharacterVersionRejected | Home.py:150-151 | a version containing a letter or another foreign character ("1.x") is refused |
| Versions.PieceHolding | Home.py:150-151 | every non-separator character of a joined version lies in one of its segments |
| Versions.CompareParts | Home.py:153-158 | the `zip` loop's result is -1, 0 or 1 |
| Versions.CompareZeroIffPrefixAgrees | Home.py:153-158 | the result is 0 exactly when the two lists agree on their common prefix |
| Versions.CompareAtFirstDifference | Home.py:153-158 | at the first differing pair the result is -1 if the current segment is smaller and 1 if it is larger |
| Versions.CompareReflexive | Home.py:153-158 | a list compares equal to itself |
| Versions.CompareAntisymmetric | Home.py:153-158 | swapping the arguments negates the result |
| Versions.CompareIgnoresExtension | Home.py:153-158 | a list compares equal to every extension of itself, in both orders (zip truncation) |
| Versions.CompareLessTransitive | Home.py:153-158 | "older than" is transitive |
| Versions.EqualityNotTransitive | Home.py:153-158 | [1] equals [1, 5] and [1, 3], yet [1, 5] is newer than [1, 3] |
| Versions.VersionOrder | Home.py:149-158 | `compare_versions` as a value: when it does not raise, the result is -1, 0 or 1 |
| Versions.VersionOrderOfParsed | Home.py:149-158 | on two parsed versions, the result compares their segment lists |
| Versions.VersionOrderReflexive | Home.py:149-158 | a well-formed version compares equal to itself; a malformed one fails on either side |
| Versions.VersionOrderAntisymmetric | Home.py:149-158 | swapping the versions negates a result and keeps a failure |
| Versions.VersionOrderOfRendered | Home.py:149-158 | two rendered versions compare as their segment lists |
| Versions.RenderedSpellings | Home.py:19 | the reference inverse of `int()` used by the round-trip lemmas spells [1, 1], [1, 2] and [1, 0] as "1.1" (CURRENT_VERSION), "1.2" and "1.0" |
| Versions.MoreRenderedSpellings | Home.py:149-158 | the same reference inverse spells [2, 0], [1, 9] and [1, 1, 5] as "2.0", "1.9" and "1.1.5", the versions the comparison lemmas use |
| Versions.DocumentedComparisons | Home.py:149-158 | "1.1" vs "1.1" is 0, vs "1.2" is -1, vs "1.1.5" is 0, vs "1.0" is 1; "2.0" vs "1.9" is 1 |
| Versions.CompareVersions | Home.py:149-158 | the method parses both strings and runs the loop; its result is `VersionOrder` |
| Versions.CompareZipped | Home.py:153-158 | the loop with early returns computes `CompareParts` |
| Layout.Rows | Home.py:277-282 | grouping n items two per row gives ceil(n/2) rows |
| Layout.RowsShape | Home.py:277-282 | row k holds items 2k and 2k+1, every row holds one or two items, and all rows but the last hold two |
| Layout.RowsFlatten | Home.py:277-282 | reading the rows in order gives back the items in order |
| Layout.RowsMembers | Home.py:277-282 | every card in a row is one of the cards laid out |
| Layout.RowsSnoc | Home.py:278-282 | the next item opens a new row after an even count and completes the last row after an odd count |
| Home.RowProductsOfRows | Home.py:277-282 | laying cards out in rows and reading their products is laying the products out in rows |
| Home.Loaded | Home.py:266-269 | the list `load_products`/`load_news` keep: a network error, an undecodable body or a status other than 200 leaves the current list as it is |
| Home.LoadedAllOrNothing | Home.py:266-269 | the list is either kept or replaced by the whole delivered list, never mixed, and loading the same response twice changes nothing more |
| Home.CheckOutcome | Home.py:135-147 | a network error or a body `res.json()` cannot decode ends in the error handler, and a status other than 200 neither offers an update nor fails |
| Home.Decide | Home.py:141-147 | an offer carries the version and link read, and only a comparison result of -1 produces one |
| Home.CurrentVersionParts | Home.py:19 | CURRENT_VERSION parses to [1, 1] |
| Home.DefaultVersionParts | Home.py:141 | the default "1.0" parses to [1, 0] |
| Home.MissingVersionOffersNothing | Home.py:139-145 | at version 1.1, a response without a "version" key offers no update |
| Home.MissingVersionNeverPrompts | Home.py:19 | the same for this app's CURRENT_VERSION |
| Home.NonOkStatusDoesNothing | Home.py:139 | a status other than 200 neither offers an update nor reports an error |
| Home.OfferOnlyForNewerVersion | Home.py:139-145 | an offer comes only from a 200 response with a body, carries the version read (or "1.0") and the link read (or ""), and that version compares above the current one |
| Home.OfferExactlyWhenNewer | Home.py:139-147 | at version 1.1, a parsed version is offered, with the link read (or ""), exactly when its first segment exceeds 1, or it is 1 and a second segment exceeds 1; any other parsed version gives no update and no error; a refused version fails the check |
| Home.PromptExactlyWhenNewer | Home.py:19 | the same for this app's CURRENT_VERSION: the exact outcome for every published version |
| Home.NewerThanOneOne | Home.py:153-158 | the segment lists that compare above [1, 1] |
| Home.MalformedVersionFailsCheck | Home.py:144-147 | a version that `int()` refuses ends in the error handler and offers nothing |
| Home.ProductItem.constructor | Home.py:22-34 | a new product card holds its product and app, and is unlatched |
| Home.ProductItem.OnTouchUp | Home.py:52-57 | a touch is handled exactly when it lands inside an unlatched card; it then latches the card and shows its product's detail; otherwise nothing changes |
| Home.NewsItem.constructor | Home.py:60-71 | a new news card holds its entry and app, and is unlatched |
| Home.NewsItem.OnTouchUp | Home.py:83-88 | the same for news cards |
| Home.ShopApp.constructor | Home.py:91-94 | the update check has not run yet, and the lists, slots and views are empty |
| Home.ShopApp.Build | Home.py:103-126 | slots and lists are emptied, then both lists are loaded; each list is the delivered one or stays empty, each view shows its list, and every card in it is new, unlatched, calls back into this app, and appears at one position only |
| Home.ShopApp.OnStart | Home.py:130-133 | the first call runs the check, whatever its outcome; every later call changes nothing; the flag is set afterwards |
| Home.ShopApp.CheckForUpdates | Home.py:135-147 | the update slot and the log follow the decision, and everything else is unchanged |
| Home.ShopApp.ShowUpdateDialog | Home.py:211-234 | the update slot holds the new prompt and its opening is logged; the catalog, news and detail slot are unchanged |
| Home.ShopApp.DownloadUpdate | Home.py:236-240 | a non-empty URL goes to the browser, then an open update dialog is dismissed; nothing else changes |
| Home.ShopApp.LoadProducts | Home.py:264-272 | a delivered list replaces the catalog and its view is rebuilt with fresh, unlatched, pairwise distinct cards; otherwise the catalog and view are kept; an exception is logged |
| Home.ShopApp.UpdateProducts | Home.py:274-282 | the rows show the products in order, two per row, every card is new and unlatched, no card appears twice (a repeated product gets its own card), and nothing else changes |
| Home.ShopApp.LoadNews | Home.py:374-382 | the same for the news feed |
| Home.ShopApp.UpdateNews | Home.py:384-388 | one new unlatched card per news entry, in order, no card appearing twice; nothing else changes |
| Home.ShopApp.ShowProductDetail | Home.py:284-287 | any open detail dialog is dismissed first, then the slot holds this product's detail; nothing else changes |
| Home.ShopApp.ShowNewsDetail | Home.py:390-393 | the same for news |
| Home.ShopApp.CloseDialog | Home.py:346-350 | the open detail dialog, if any, is dismissed, the slot is emptied, and the given card is unlatched, whichever dialog was open |
| Home.RepeatedProductGetsTwoCards | Home.py:52-57 | a catalog listing one product twice gets two different cards: tapping the first leaves the second free to open |
| Home.SecondCardLeavesFirstLatched | Home.py:52-56 | opening a second card's dialog dismisses the first card's dialog but leaves the first card latched, so its next tap is ignored; closing the second card's dialog lets that card open again; the log is exactly open, dismiss, open, dismiss, open |

## Left out

- Widget construction, layout, styling, colours and `dp` metrics. The detail
  dialogs' contents (image, description, price, link button) are not modelled.
- HTTP (`requests.get`) and JSON decoding are inputs: a `Response` is a status
  with a decoded body, or a network error.
  - A JSON value of the wrong shape is not modelled: a list that is not a list
    of dicts, or a "version" that is not a string.
  - A non-string "download_url" is not modelled either.
- The changelog fetch inside `show_update_dialog` is not modelled. On success it
  only changes what the dialog displays. When it raises, its own handler prints
  an error and the dialog is still built; that print is not in the log.
- `Clock.schedule_once`: the scheduled opening of the update dialog is logged as
  `PromptScheduled`. The 0.1 s delay and the event loop are not modelled.
- `JsonStore` is created in `__init__` and never used.
- `webbrowser.open` for a product's "link" button and for the About tab are not
  modelled. `download_update`'s call is logged as `BrowserOpened`.
- The update dialog's "later" button, which only dismisses the dialog, is not
  modelled.
- Kivy's `collide_point` hit test is the boolean argument `collides`.
- Home.ProductItem.OnTouchUp: an unhandled touch returns false. The value of
  `super().on_touch_up` is Kivy's and is not modelled.
- Home.NewsItem.OnTouchUp: the same.
- Dismissing a detail dialog by tapping outside it is not modelled (Kivy's
  `auto_dismiss`). Such a dismissal leaves the slot and the card's latch as they
  were, and the model only changes them through the app's own methods.
- Home.ShopApp.LoadProducts: a catalog entry without "name" makes the card
  constructor raise `KeyError` part-way through the view rebuild, after the list
  has been replaced. In the model `Product.name` is always present, so the
  rebuild always completes.
- Home.ShopApp.LoadNews: the same for a news entry without "title";
  `News.title` is always present in the model.
- Versions.ParseInt: CPython 3.11 and later (and the security releases 3.7.14,
  3.8.14, 3.9.14 and 3.10.7) refuse a string of more than 4300 digits by
  default. The limit depends on the interpreter and its settings, so it is not
  modelled; `ParseIntDecimal` holds only below it on those interpreters.
- Versions.ParseInt: Unicode decimal digits other than ASCII '0'-'9', which
  Python's `int()` also accepts, are not modelled.
- Widget identity is not modelled: a card is a Dafny object, and the row and
  column boxes are plain sequences.
