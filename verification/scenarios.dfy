/**
 * Behaviour that spans several handler invocations, derived from the
 * handlers' contracts alone.
 */
module Scenarios {
  import opened Wrappers
  import opened Text
  import opened ShortCode
  import opened Entities
  import opened Functions

  /** Shortening a URL twice, in any letter case, gives the same code, and
      the second call changes no row and not the counter. */
  method ShortenTwice(store: UrlStore, a: string, b: string) returns (first: Response, second: Response, ghost rows1: Rows, ghost urlKey1: Option<int>)
    requires store.Valid()
    requires SameIgnoringCase(a, b)
    modifies store
    ensures store.Valid()
    ensures first == second
    ensures first.OkObjectResult? <==> !IsNullOrWhiteSpace(Some(a))
    ensures store.rows == rows1 && store.urlKey == urlKey1
  {
    BlankIgnoresCase(a, b);
    first := store.ShortenUrl(Some(a));
    rows1 := store.rows;
    urlKey1 := store.urlKey;
    second := store.ShortenUrl(Some(b));
    if !IsNullOrWhiteSpace(Some(a)) {
      var url := ToLower(a);
      assert first.code in rows1 && rows1[first.code].url == url;
      assert HasUrl(rows1, url);
      assert second.code in rows1 && rows1[second.code].url == url;
    }
  }

  /** A code just issued resolves, even typed in lower case, to the
      lower-cased URL, and exactly that code is enqueued once. */
  method ResolveAfterShorten(store: UrlStore, href: string) returns (shortened: Response, resolved: Response)
    requires store.Valid()
    requires !IsNullOrWhiteSpace(Some(href))
    modifies store
    ensures store.Valid()
    ensures shortened.OkObjectResult?
    ensures resolved == RedirectResult(ToLower(href))
    ensures store.queue == old(store.queue) + [shortened.code]
  {
    shortened := store.ShortenUrl(Some(href));
    var code := shortened.code;
    assert code in store.rows && WellFormedRow(code, store.rows[code]);
    if store.urlKey.Some? {
      assert Issued(code, store.urlKey.value);
    }
    UpperUndoesLower(code);
    assert ToLower(code)[0] == LowerChar(code[0]);
    resolved := store.Redirect(ToLower(code));
  }

  /** URLs that differ in more than letter case get different codes. */
  method DistinctUrlsDistinctCodes(store: UrlStore, a: string, b: string) returns (first: Response, second: Response)
    requires store.Valid()
    requires !IsNullOrWhiteSpace(Some(a)) && !IsNullOrWhiteSpace(Some(b))
    requires !SameIgnoringCase(a, b)
    modifies store
    ensures store.Valid()
    ensures first.OkObjectResult? && second.OkObjectResult?
    ensures first.code != second.code
  {
    first := store.ShortenUrl(Some(a));
    ghost var rows1 := store.rows;
    assert first.code in rows1 && rows1[first.code].url == ToLower(a);
    second := store.ShortenUrl(Some(b));
  }

  /** On an empty table the first code issued is `BNK`. */
  method FirstShortening() returns (resp: Response)
    ensures resp == OkObjectResult("BNK")
  {
    var store := new UrlStore();
    var href := "Example.com/Page";
    assert !IsWhiteSpace(href[0]);
    resp := store.ShortenUrl(Some(href));
    FirstCode();
  }

  /** Resolving a stored code, typed in any letter case, and then processing
      the whole queue raises that row's count by one more than the number of
      hits already pending for it. */
  method ResolveThenDrain(store: UrlStore, code: string, typed: string) returns (resolved: Response)
    requires store.Valid()
    requires Found(store.rows, code)
    requires SameIgnoringCase(typed, code)
    modifies store
    ensures store.Valid()
    ensures resolved == RedirectResult(old(store.rows)[code].url)
    ensures store.queue == []
    ensures code in store.rows
    ensures store.rows[code].requestCount ==
      old(store.rows)[code].requestCount + multiset(old(store.queue))[code] + 1
  {
    assert store.urlKey.Some?;
    assert Issued(code, store.urlKey.value);
    UpperAnyVariant(code, typed);
    BlankIgnoresCase(typed, code);
    assert !IsWhiteSpace(code[0]);
    ghost var pending := store.queue;
    resolved := store.Redirect(typed);
    assert store.queue == pending + [code];
    store.Drain();
    ApplyHitsCounts(old(store.rows), pending + [code], code);
    assert multiset(pending + [code])[code] == multiset(pending)[code] + 1;
  }
}
