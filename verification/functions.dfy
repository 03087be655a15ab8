/**
 * The three handlers of the service over one table and one queue: the `urls`
 * table (mapping rows keyed by short code, plus the counter row) and the
 * `redirects` queue of hit messages. Handlers run one at a time.
 */
module Functions {
  import opened Wrappers
  import opened Text
  import opened ShortCode
  import opened Entities

  /** The counter's value when `ShortenUrl` creates it. */
  const InitialId := 1024
  /** Where `Redirect` sends a caller whose code is unknown. */
  const FallbackUrl := "https://www.google.com/"
  const HrefMissing := "Href parameter is missing"
  const ShortUrlMissing := "Short url parameter is missing"

  /** The HTTP results the handlers return. */
  datatype Response =
    | BadRequestObjectResult(message: string)
    | OkObjectResult(code: string)
    | RedirectResult(url: string)

  /** The mapping rows of the table, by row key. */
  type Rows = map<string, UrlData>

  /** `TableOperation.Retrieve(code[0], code)` finds a row: the row key and
      the partition key (the code's first letter) both match. */
  predicate Found(rows: Rows, code: string) {
    code != "" && code in rows && rows[code].partitionKey == [code[0]]
  }

  /** The row the point lookup returns, if any. */
  function Retrieve(rows: Rows, code: string): (r: Option<UrlData>)
    ensures r.Some? ==>
      && code != "" && code in rows && rows[code].partitionKey == [code[0]]
      && r.value == rows[code]
    ensures r.None? ==> code == "" || code !in rows || rows[code].partitionKey != [code[0]]
  {
    if Found(rows, code) then Some(rows[code]) else None
  }

  /** The query `Url eq url` over the table has at least one result. */
  ghost predicate HasUrl(rows: Rows, url: string) {
    exists code :: code in rows && rows[code].url == url
  }

  ghost predicate WellFormedRow(code: string, d: UrlData) {
    && code != ""
    && d.rowKey == code
    && d.partitionKey == [code[0]]
    && ToLower(d.url) == d.url
    && d.requestCount >= 0
  }

  /** `code` was produced by the encoder from a counter value below `next`. */
  ghost predicate Issued(code: string, next: int) {
    IsUpperLetters(code) && InitialId <= Decode(code) < next && Code(Decode(code)) == code
  }

  /** One canonical code per stored URL. */
  ghost predicate UrlsDistinct(rows: Rows) {
    forall c1, c2 :: c1 in rows && c2 in rows && rows[c1].url == rows[c2].url ==> c1 == c2
  }

  /** What holds of the table between handler invocations. */
  ghost predicate Consistent(rows: Rows, urlKey: Option<int>) {
    && (forall code :: code in rows ==> WellFormedRow(code, rows[code]))
    && UrlsDistinct(rows)
    && match urlKey
       case None => rows == map[]
       case Some(next) =>
         InitialId <= next && forall code {:trigger Issued(code, next)} :: code in rows ==> Issued(code, next)
  }

  /** The code of the counter's current value is not in the table yet. */
  lemma NextCodeIsFresh(rows: Rows, next: int)
    requires Consistent(rows, Some(next))
    ensures Code(next) !in rows
  {
    if Code(next) in rows {
      assert Issued(Code(next), next);
      DecodeCode(next);
      assert false;
    }
  }

  /** Inserting the row for a new URL under the next code and bumping the
      counter keeps the table consistent. */
  lemma AllocationKeepsConsistent(rows: Rows, next: int, url: string)
    requires Consistent(rows, Some(next))
    requires ToLower(url) == url && !HasUrl(rows, url)
    ensures Code(next) != "" && Code(next) !in rows
    ensures Consistent(rows[Code(next) := NewRow(Code(next), url)], Some(next + 1))
  {
    var code := Code(next);
    NextCodeIsFresh(rows, next);
    DecodeCode(next);
    var rows' := rows[code := NewRow(code, url)];
    forall c | c in rows'
      ensures Issued(c, next + 1)
    {
      if c != code {
        assert Issued(c, next);
      }
    }
    forall c1, c2 | c1 in rows' && c2 in rows' && rows'[c1].url == rows'[c2].url
      ensures c1 == c2
    {
      if c1 != code && c2 != code {
        assert rows[c1].url == rows[c2].url;
      }
    }
  }

  /** The effect of one hit message on the mapping rows: the row the message
      names gets one more request, and nothing else changes. */
  function Hit(rows: Rows, code: string): (r: Rows)
    ensures r.Keys == rows.Keys
    ensures forall c :: c in rows && c != code ==> r[c] == rows[c]
    ensures code in rows ==>
      r[code] == rows[code].(requestCount := rows[code].requestCount + if Found(rows, code) then 1 else 0)
  {
    if Found(rows, code) then
      rows[code := rows[code].(requestCount := rows[code].requestCount + 1)]
    else
      rows
  }

  lemma HitKeepsConsistent(rows: Rows, urlKey: Option<int>, code: string)
    requires Consistent(rows, urlKey)
    ensures Consistent(Hit(rows, code), urlKey)
  {
  }

  /** Hit messages applied one after another, in the given order. */
  function ApplyHits(rows: Rows, messages: seq<string>): (r: Rows) {
    if messages == [] then rows else ApplyHits(Hit(rows, messages[0]), messages[1..])
  }

  /** Hit messages never add or remove rows. */
  lemma {:induction false} ApplyHitsKeys(rows: Rows, messages: seq<string>)
    ensures ApplyHits(rows, messages).Keys == rows.Keys
  {
    if messages != [] {
      ApplyHitsKeys(Hit(rows, messages[0]), messages[1..]);
    }
  }

  /** After a batch of hit messages, each row's count has grown by the number
      of messages naming it, and nothing else in the row has changed. */
  lemma {:induction false} ApplyHitsCounts(rows: Rows, messages: seq<string>, code: string)
    requires code in rows
    ensures code in ApplyHits(rows, messages)
    ensures ApplyHits(rows, messages)[code] ==
      rows[code].(requestCount := rows[code].requestCount + if Found(rows, code) then multiset(messages)[code] else 0)
  {
    if messages != [] {
      var r := Hit(rows, messages[0]);
      assert Found(r, code) == Found(rows, code);
      ApplyHitsCounts(r, messages[1..], code);
      assert messages == [messages[0]] + messages[1..];
    }
  }

  /** Hit messages commute: delivering the same messages in another order
      gives the same table. */
  lemma ApplyHitsOrderIrrelevant(rows: Rows, m1: seq<string>, m2: seq<string>)
    requires multiset(m1) == multiset(m2)
    ensures ApplyHits(rows, m1) == ApplyHits(rows, m2)
  {
    ApplyHitsKeys(rows, m1);
    ApplyHitsKeys(rows, m2);
    forall code | code in rows
      ensures ApplyHits(rows, m1)[code] == ApplyHits(rows, m2)[code]
    {
      ApplyHitsCounts(rows, m1, code);
      ApplyHitsCounts(rows, m2, code);
    }
  }

  /** The `urls` table (mapping rows and the counter row) and the
      `redirects` queue. */
  class UrlStore {
    var rows: Rows
    /** The `Id` of the counter row, or None while that row does not exist. */
    var urlKey: Option<int>
    var queue: seq<string>

    ghost predicate Valid()
      reads this
    {
      && Consistent(rows, urlKey)
      && forall i :: 0 <= i < |queue| ==> queue[i] != ""
    }

    /** An empty table and an empty queue. */
    constructor ()
      ensures Valid()
      ensures rows == map[] && urlKey == None && queue == []
    {
      rows := map[];
      urlKey := None;
      queue := [];
    }

    /**
     * Returns the code already stored for the lower-cased URL, or issues the
     * code of the counter's value, bumps the counter and stores a new row.
     */
    method ShortenUrl(href: Option<string>) returns (resp: Response)
      requires Valid()
      modifies this`rows, this`urlKey
      ensures Valid()
      ensures IsNullOrWhiteSpace(href) ==>
        resp == BadRequestObjectResult(HrefMissing) && rows == old(rows) && urlKey == old(urlKey)
      ensures !IsNullOrWhiteSpace(href) && HasUrl(old(rows), ToLower(href.value)) ==>
        && resp.OkObjectResult?
        && resp.code in old(rows) && old(rows)[resp.code].url == ToLower(href.value)
        && rows == old(rows)
        && urlKey == Some(old(urlKey).GetOr(InitialId))
      ensures !IsNullOrWhiteSpace(href) && !HasUrl(old(rows), ToLower(href.value)) ==>
        var next := old(urlKey).GetOr(InitialId);
        && resp == OkObjectResult(Code(next))
        && Code(next) != "" && Code(next) !in old(rows)
        && rows == old(rows)[Code(next) := NewRow(Code(next), ToLower(href.value))]
        && urlKey == Some(next + 1)
    {
      if IsNullOrWhiteSpace(href) {
        return BadRequestObjectResult(HrefMissing);
      }
      if urlKey.None? {
        urlKey := Some(InitialId);
      }
      var next := urlKey.value;
      assert next == old(urlKey).GetOr(InitialId) && Consistent(rows, Some(next));
      var url := ToLower(href.value);
      if exists code :: code in rows && rows[code].url == url {
        var found :| found in rows && rows[found].url == url;
        assert WellFormedRow(found, rows[found]);
        return OkObjectResult(rows[found].rowKey);
      }
      assert !HasUrl(rows, url);
      var s := EncodeId(next);
      ToLowerIdempotent(href.value);
      AllocationKeepsConsistent(rows, next, url);
      var urlData := UrlData([s[0]], s, url, 0);
      assert urlData == NewRow(Code(next), url);
      urlKey := Some(next + 1);
      rows := rows[urlData.rowKey := urlData];
      return OkObjectResult(urlData.rowKey);
    }

    /**
     * Looks the upper-cased code up; a hit redirects to the stored URL and
     * enqueues the code once, a miss redirects to the fallback URL.
     */
    method Redirect(shortUrl: string) returns (resp: Response)
      requires Valid()
      modifies this`queue
      ensures Valid()
      ensures IsNullOrWhiteSpace(Some(shortUrl)) ==>
        resp == BadRequestObjectResult(ShortUrlMissing) && queue == old(queue)
      ensures !IsNullOrWhiteSpace(Some(shortUrl)) && Found(rows, ToUpper(shortUrl)) ==>
        resp == RedirectResult(rows[ToUpper(shortUrl)].url) && queue == old(queue) + [ToUpper(shortUrl)]
      ensures !IsNullOrWhiteSpace(Some(shortUrl)) && !Found(rows, ToUpper(shortUrl)) ==>
        resp == RedirectResult(FallbackUrl) && queue == old(queue)
    {
      if IsNullOrWhiteSpace(Some(shortUrl)) {
        return BadRequestObjectResult(ShortUrlMissing);
      }
      var code := ToUpper(shortUrl);
      var retrievalResult := Retrieve(rows, code);
      var redirectUrl := FallbackUrl;
      if retrievalResult.Some? {
        var urlData := retrievalResult.value;
        redirectUrl := urlData.url;
        queue := queue + [urlData.rowKey];
      }
      return RedirectResult(redirectUrl);
    }

    /** Counts one hit for the code a queue message carries; an unknown code is ignored. */
    method ProcessRedirectsQueue(shortUrl: string)
      requires Valid()
      requires shortUrl != ""
      modifies this`rows
      ensures Valid()
      ensures rows == Hit(old(rows), shortUrl)
    {
      HitKeepsConsistent(rows, urlKey, shortUrl);
      var retrievalResult := Retrieve(rows, shortUrl);
      if retrievalResult.Some? {
        var urlData := retrievalResult.value;
        assert urlData.rowKey == shortUrl by {
          assert WellFormedRow(shortUrl, rows[shortUrl]);
        }
        urlData := urlData.(requestCount := urlData.requestCount + 1);
        assert rows[shortUrl := urlData] == Hit(rows, shortUrl);
        rows := rows[urlData.rowKey := urlData];
      }
    }

    /** The queue trigger: the oldest message of the queue is handed to
        `ProcessRedirectsQueue`. */
    method DeliverNext()
      requires Valid()
      requires queue != []
      modifies this`rows, this`queue
      ensures Valid()
      ensures queue == old(queue)[1..]
      ensures rows == Hit(old(rows), old(queue)[0])
    {
      var message := queue[0];
      queue := queue[1..];
      ProcessRedirectsQueue(message);
    }

    /** The queue trigger run until the queue is empty: every pending hit
        message is processed, oldest first. */
    method Drain()
      requires Valid()
      modifies this`rows, this`queue
      ensures Valid()
      ensures queue == []
      ensures rows == ApplyHits(old(rows), old(queue))
    {
      while queue != []
        invariant Valid()
        invariant ApplyHits(rows, queue) == ApplyHits(old(rows), old(queue))
        decreases |queue|
      {
        DeliverNext();
      }
    }
  }
}
