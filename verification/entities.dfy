/**
 * The row shapes of the `urls` table. A mapping row is keyed by its short
 * code: partition key = first letter of the code, row key = the code. The
 * counter row (`UrlKey`, partition "1", row "KEY") holds only its `Id`, so
 * the table state stores it as an optional integer.
 */
module Entities {

  datatype UrlData = UrlData(partitionKey: string, rowKey: string, url: string, requestCount: int)

  /** The mapping row `ShortenUrl` inserts for a newly issued code. */
  function NewRow(code: string, url: string): (d: UrlData)
    requires code != ""
    ensures d.partitionKey == [code[0]] && d.rowKey == code
    ensures d.url == url && d.requestCount == 0
  {
    UrlData([code[0]], code, url, 0)
  }
}
