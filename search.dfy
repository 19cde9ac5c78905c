/**
  The house finder's data shaping: the listing cards of a results page become
  `[address, price, link]` records, each record then gets a rental price
  looked up by a slug of its address. Fetching pages and reading their
  markup are left abstract: a card is the three fields the scraper looks
  for, each possibly missing, and a rental lookup is a function from the
  lookup URL to what the fetch produced.
 */
module Search {
  import opened Wrappers
  import opened Text

  const RedfinOrigin := "https://www.redfin.com"
  const RentalLookupPrefix := "https://www.zillow.com/rental-manager/price-my-rental/results/"
  const NotAvailable := "Not Available"

  // ----- address slug and lookup URL -----

  predicate IsUpper(c: char)
  {
    'A' <= c <= 'Z'
  }

  /** `str.lower()` on one character, for ASCII letters. */
  function LowerChar(c: char): char
  {
    if IsUpper(c) then (c as int + 32) as char else c
  }

  /** `s.replace(target, replacement)` for single characters. */
  function ReplaceChar(s: string, target: char, replacement: char): (r: string)
    ensures |r| == |s|
    ensures forall k :: 0 <= k < |s| ==> r[k] == if s[k] == target then replacement else s[k]
  {
    if s == [] then []
    else [if s[0] == target then replacement else s[0]] + ReplaceChar(s[1..], target, replacement)
  }

  /** `s.replace(c, "")`: `s` with every `c` removed. */
  function RemoveChar(s: string, c: char): (r: string)
    ensures |r| == |s| - Count(s, c)
    ensures c !in r
    ensures forall x :: x in r ==> x in s
  {
    if s == [] then []
    else (if s[0] == c then [] else [s[0]]) + RemoveChar(s[1..], c)
  }

  /** `s.lower()` on ASCII letters. */
  function Lower(s: string): (r: string)
    ensures |r| == |s|
    ensures forall k :: 0 <= k < |s| ==> r[k] == LowerChar(s[k])
  {
    if s == [] then [] else [LowerChar(s[0])] + Lower(s[1..])
  }

  /**
    `get_rental_price`'s formatted address: spaces become `-`, commas are
    removed, letters are lower-cased. The slug has no space, no comma and no
    upper-case letter, and is shorter than the address by its number of commas.
   */
  function FormatAddress(address: string): (slug: string)
    ensures ' ' !in slug && ',' !in slug
    ensures forall k :: 0 <= k < |slug| ==> !IsUpper(slug[k])
    ensures |slug| == |address| - Count(address, ',')
  {
    var dashed := ReplaceChar(address, ' ', '-');
    CountReplaced(address, ' ', '-', ',');
    var kept := RemoveChar(dashed, ',');
    var slug := Lower(kept);
    assert ' ' !in dashed by {
      forall k | 0 <= k < |dashed| ensures dashed[k] != ' ' { }
    }
    forall k | 0 <= k < |slug| ensures slug[k] != ' ' && slug[k] != ',' {
      assert kept[k] in kept;
    }
    slug
  }

  /** Replacing one character by another leaves the count of a third unchanged. */
  lemma {:induction false} CountReplaced(s: string, target: char, replacement: char, c: char)
    requires target != c && replacement != c
    ensures Count(ReplaceChar(s, target, replacement), c) == Count(s, c)
  {
    if s != [] {
      CountReplaced(s[1..], target, replacement, c);
      assert ReplaceChar(s, target, replacement)[1..] == ReplaceChar(s[1..], target, replacement);
    }
  }

  /** The slug of a single character. */
  function SlugChar(c: char): string
  {
    if c == ',' then [] else if c == ' ' then "-" else [LowerChar(c)]
  }

  /** A one-pass reference for the slug: each character's slug, in order. */
  function Slug(address: string): string
  {
    if address == [] then [] else SlugChar(address[0]) + Slug(address[1..])
  }

  /** The three-pass slug equals the one-pass reference, character by character. */
  lemma {:induction false} FormatAddressIsSlug(address: string)
    ensures FormatAddress(address) == Slug(address)
  {
    if address != [] {
      var c, rest := address[0], address[1..];
      FormatAddressIsSlug(rest);
      var dashed := ReplaceChar(address, ' ', '-');
      assert dashed == [dashed[0]] + ReplaceChar(rest, ' ', '-');
      var kept := RemoveChar(dashed, ',');
      assert kept == (if dashed[0] == ',' then [] else [dashed[0]]) + RemoveChar(ReplaceChar(rest, ' ', '-'), ',');
      LowerAppend(if dashed[0] == ',' then [] else [dashed[0]], RemoveChar(ReplaceChar(rest, ' ', '-'), ','));
    }
  }

  lemma LowerAppend(a: string, b: string)
    ensures Lower(a + b) == Lower(a) + Lower(b)
  {
  }

  /**
    The rental lookup URL: the rental-manager results prefix followed by the
    address slug, so it grows with the address less its commas.
   */
  function RentalLookupUrl(address: string): (url: string)
    ensures |url| == |RentalLookupPrefix| + |address| - Count(address, ',')
    ensures |RentalLookupPrefix| <= |url| && url[..|RentalLookupPrefix|] == RentalLookupPrefix
    ensures url[|RentalLookupPrefix|..] == FormatAddress(address)
  {
    RentalLookupPrefix + FormatAddress(address)
  }

  // ----- rental price lookup -----

  /**
    What fetching the lookup URL produced: the request raised, a response
    arrived (with its status and the stripped text of the price element if
    the page has one), or anything else raised while reading the page.
   */
  datatype Fetch =
    | RequestFailed
    | Response(status: int, priceElement: Option<string>)
    | UnexpectedFailure

  /** `raise_for_status` raises for client and server errors. */
  predicate RaisesForStatus(status: int)
  {
    400 <= status < 600
  }

  /** The fetch succeeded and the page holds a price element. */
  predicate PriceFound(outcome: Fetch)
  {
    outcome.Response? && !RaisesForStatus(outcome.status) && outcome.priceElement.Some?
  }

  /**
    `get_rental_price`: the price element's text when the lookup page was
    fetched and holds one; `Not Available` on every failure.
   */
  function GetRentalPrice(fetch: string -> Fetch, address: string): (price: string)
    ensures var outcome := fetch(RentalLookupUrl(address));
      && (PriceFound(outcome) ==> price == outcome.priceElement.value)
      && (!PriceFound(outcome) ==> price == NotAvailable)
  {
    match fetch(RentalLookupUrl(address))
    case RequestFailed => NotAvailable
    case UnexpectedFailure => NotAvailable
    case Response(status, element) =>
      if RaisesForStatus(status) then NotAvailable
      else if element.Some? then element.value
      else NotAvailable
  }

  // ----- listing cards to records -----

  /** The card's first link: none, one without an `href`, or one with it. */
  datatype Link = NoAnchor | AnchorWithoutHref | Href(href: string)

  /** One listing card: the stripped address and price texts when present, and its link. */
  datatype Card = Card(address: Option<string>, price: Option<string>, link: Link)

  predicate Complete(card: Card)
  {
    card.address.Some? && card.price.Some? && card.link.Href?
  }

  /** The record of a complete card. */
  function CardRecord(card: Card): seq<string>
    requires Complete(card)
  {
    [card.address.value, card.price.value, RedfinOrigin + card.link.href]
  }

  /**
    The records of `scrape_redfin`, with an incomplete card skipped: at most
    one record per card, each of three fields whose link is under the Redfin
    origin.
   */
  function ScrapedRecords(cards: seq<Card>): (records: seq<seq<string>>)
    ensures |records| <= |cards|
    ensures forall k :: 0 <= k < |records| ==>
      |records[k]| == 3 && |RedfinOrigin| <= |records[k][2]| && records[k][2][..|RedfinOrigin|] == RedfinOrigin
  {
    if cards == [] then []
    else (if Complete(cards[0]) then [CardRecord(cards[0])] else []) + ScrapedRecords(cards[1..])
  }

  /** `scrape_redfin`'s loop: appends the record of each complete card and skips the others. */
  method ScrapeRedfin(cards: seq<Card>) returns (properties: seq<seq<string>>)
    ensures properties == ScrapedRecords(cards)
  {
    properties := [];
    for i := 0 to |cards|
      invariant properties == ScrapedRecords(cards[..i])
    {
      var card := cards[i];
      if card.address.Some? && card.price.Some? && card.link.Href? {
        var link := RedfinOrigin + card.link.href;
        properties := properties + [[card.address.value, card.price.value, link]];
      }
      assert ScrapedRecords([card]) == if Complete(card) then [CardRecord(card)] else [];
      ScrapedRecordsAppend(cards[..i], [cards[i]]);
      assert cards[..i + 1] == cards[..i] + [cards[i]];
    }
    assert cards[..|cards|] == cards;
  }

  /** Records keep card order: the records of two runs of cards are those of each, in order. */
  lemma {:induction false} ScrapedRecordsAppend(a: seq<Card>, b: seq<Card>)
    ensures ScrapedRecords(a + b) == ScrapedRecords(a) + ScrapedRecords(b)
  {
    if a == [] {
      assert a + b == b;
    } else {
      assert (a + b)[1..] == a[1..] + b;
      ScrapedRecordsAppend(a[1..], b);
    }
  }

  /** A card missing a field is skipped and the cards around it are kept. */
  lemma SkipsIncompleteCard(before: seq<Card>, card: Card, after: seq<Card>)
    requires !Complete(card)
    ensures ScrapedRecords(before + [card] + after) == ScrapedRecords(before) + ScrapedRecords(after)
  {
    ScrapedRecordsAppend(before + [card], after);
    ScrapedRecordsAppend(before, [card]);
  }

  /** A complete card yields `[address, price, origin + href]` in its place. */
  lemma KeepsCompleteCard(before: seq<Card>, card: Card, after: seq<Card>)
    requires Complete(card)
    ensures ScrapedRecords(before + [card] + after) ==
      ScrapedRecords(before) + [[card.address.value, card.price.value, RedfinOrigin + card.link.href]] + ScrapedRecords(after)
  {
    ScrapedRecordsAppend(before + [card], after);
    ScrapedRecordsAppend(before, [card]);
  }

  /**
    A card whose address and price are found but whose link has no `href`
    reaches `'https://www.redfin.com' + None`, which raises `TypeError`, not
    the `AttributeError` the loop skips.
   */
  predicate Aborts(card: Card)
  {
    card.address.Some? && card.price.Some? && card.link.AnchorWithoutHref?
  }

  datatype ScrapeError = TypeError

  /** `scrape_redfin` as written: the first aborting card ends the whole scrape with `TypeError`. */
  function ScrapeRedfinAsWritten(cards: seq<Card>): (result: Result<seq<seq<string>>, ScrapeError>)
    ensures result.Success? ==> |result.value| <= |cards|
    ensures result.Failure? ==> exists k :: 0 <= k < |cards| && Aborts(cards[k])
  {
    if cards == [] then Success([])
    else if Aborts(cards[0]) then Failure(TypeError)
    else
      match ScrapeRedfinAsWritten(cards[1..])
      case Failure(e) =>
        var k :| 0 <= k < |cards[1..]| && Aborts(cards[1..][k]);
        assert Aborts(cards[k + 1]);
        Failure(e)
      case Success(rest) => Success((if Complete(cards[0]) then [CardRecord(cards[0])] else []) + rest)
  }

  /** As written, the scrape agrees with the skipping one exactly when no card aborts, and fails otherwise. */
  lemma {:induction false} AsWrittenAgreesUnlessAborting(cards: seq<Card>)
    ensures ScrapeRedfinAsWritten(cards) == Success(ScrapedRecords(cards)) <==>
      forall k :: 0 <= k < |cards| ==> !Aborts(cards[k])
    ensures ScrapeRedfinAsWritten(cards).Failure? <==> exists k :: 0 <= k < |cards| && Aborts(cards[k])
  {
    if cards != [] {
      AsWrittenAgreesUnlessAborting(cards[1..]);
      assert forall k :: 1 <= k < |cards| ==> cards[k] == cards[1..][k - 1];
    }
  }

  /** One good card followed by a card whose link lacks an `href`: as written, nothing is returned. */
  lemma AsWrittenLosesAllOnHreflessLink()
    ensures var good := Card(Some("1 Main St"), Some("$650,000"), Href("/home/1"));
      var bad := Card(Some("2 Oak Ave"), Some("$680,000"), AnchorWithoutHref);
      && ScrapeRedfinAsWritten([good, bad]) == Failure(TypeError)
      && ScrapedRecords([good, bad]) == [["1 Main St", "$650,000", "https://www.redfin.com/home/1"]]
  {
    var good := Card(Some("1 Main St"), Some("$650,000"), Href("/home/1"));
    var bad := Card(Some("2 Oak Ave"), Some("$680,000"), AnchorWithoutHref);
    assert [good, bad][1..] == [bad];
    assert [bad][1..] == [];
    assert ScrapedRecords([bad]) == [];
    assert RedfinOrigin + "/home/1" == "https://www.redfin.com/home/1";
  }

  // ----- rental prices -----

  /** The records after `append_rental_prices`: each one with its rental price appended. */
  function WithRentalPrices(properties: seq<seq<string>>, fetch: string -> Fetch): (enriched: seq<seq<string>>)
    requires forall k :: 0 <= k < |properties| ==> |properties[k]| >= 1
    ensures |enriched| == |properties|
    ensures forall k :: 0 <= k < |properties| ==>
      enriched[k] == properties[k] + [GetRentalPrice(fetch, properties[k][0])]
  {
    if properties == [] then []
    else
      var first := properties[0] + [GetRentalPrice(fetch, properties[0][0])];
      var rest := properties[1..];
      assert forall k :: 0 <= k < |rest| ==> rest[k] == properties[k + 1];
      [first] + WithRentalPrices(rest, fetch)
  }

  /**
    `append_rental_prices`: looks up each record's address (its first field)
    and appends the rental price to that record in place, returning the same list.
   */
  method AppendRentalPrices(properties: array<seq<string>>, fetch: string -> Fetch) returns (result: array<seq<string>>)
    requires forall k :: 0 <= k < properties.Length ==> |properties[k]| >= 1
    modifies properties
    ensures result == properties
    ensures properties[..] == WithRentalPrices(old(properties[..]), fetch)
  {
    ghost var before := properties[..];
    for i := 0 to properties.Length
      invariant forall k :: 0 <= k < i ==> properties[k] == before[k] + [GetRentalPrice(fetch, before[k][0])]
      invariant forall k :: i <= k < properties.Length ==> properties[k] == before[k]
    {
      var address := properties[i][0];
      var rentalPrice := GetRentalPrice(fetch, address);
      properties[i] := properties[i] + [rentalPrice];
    }
    var enriched := WithRentalPrices(before, fetch);
    assert forall k :: 0 <= k < properties.Length ==> properties[k] == enriched[k];
    result := properties;
  }

  /**
    `main`'s pipeline without its output: scrape the cards, then append a
    rental price to every record. Every row is `[address, price, link,
    rental price]` with the rental price looked up by the row's address.
   */
  method FindProperties(cards: seq<Card>, fetch: string -> Fetch) returns (rows: seq<seq<string>>)
    ensures rows == WithRentalPrices(ScrapedRecords(cards), fetch)
    ensures |rows| <= |cards|
    ensures forall k :: 0 <= k < |rows| ==> |rows[k]| == 4 && rows[k][3] == GetRentalPrice(fetch, rows[k][0])
  {
    var properties := ScrapeRedfin(cards);
    var table := new seq<string>[|properties|](k requires 0 <= k < |properties| => properties[k]);
    assert table[..] == properties;
    var enriched := AppendRentalPrices(table, fetch);
    rows := enriched[..];
  }
}
