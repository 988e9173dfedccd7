/**
 * The ticker feed client: `getTickers(coins, baseCurrency)`.
 *
 * It builds a query of composite symbols (`"t" + COIN + BASE`, comma-joined),
 * hands it to `loadData`, which ignores it and always fetches the static
 * resource `data.json`, and maps every positional record of the response to a
 * `CurrencyDetail`. The network is a parameter: `fetch(url)` is what fetching
 * and parsing `url` resolves with, or the cause it is rejected with.
 */
module Api {
  import opened Wrappers
  import opened Ticker
  import opened JsString

  const ApiBase: string := "data.json"
  const DefaultBaseCurrency: string := "USD"

  /** One entry of a positional record, as parsed from JSON. */
  datatype RawValue = JsonNumber(n: real) | JsonString(s: string)

  /**
   * A record of the feed, read by position: symbol at 0, bid at 1, ask at 3,
   * daily change at 6, last at 7, volume at 8, high at 9, low at 10; positions
   * 2, 4 and 5 are skipped unnamed.
   */
  type RawRecord = seq<RawValue>

  /** A record long enough to destructure, with a string symbol and numbers where kept. */
  predicate WellFormed(r: RawRecord) {
    && |r| >= 11
    && r[0].JsonString?
    && r[1].JsonNumber? && r[3].JsonNumber? && r[6].JsonNumber? && r[7].JsonNumber?
    && r[8].JsonNumber? && r[9].JsonNumber? && r[10].JsonNumber?
  }

  /** The position of the record that each field of `CurrencyDetail` is read from. */
  function Position(f: Field): (p: nat)
    ensures p < 11 && p != 2 && p != 4 && p != 5
  {
    match f
    case Symbol => 0
    case Bid => 1
    case Ask => 3
    case DailyChangePercent => 6
    case Last => 7
    case DailyVolume => 8
    case DailyHigh => 9
    case DailyLow => 10
  }

  /** A raw value read as a key. */
  function AsKey(v: RawValue): Key {
    match v
    case JsonNumber(n) => Num(n)
    case JsonString(s) => Text(s)
  }

  /**
   * The positional destructuring of one record into the eight named fields
   * of a detail: every field is the entry at that field's position.
   */
  function ToDetail(r: RawRecord): (d: CurrencyDetail)
    requires WellFormed(r)
    ensures forall f :: Get(d, f) == AsKey(r[Position(f)])
  {
    CurrencyDetail(
      symbol := r[0].s,
      bid := r[1].n,
      ask := r[3].n,
      last := r[7].n,
      dailyHigh := r[9].n,
      dailyLow := r[10].n,
      dailyVolume := r[8].n,
      dailyChangePercent := r[6].n)
  }

  /** Distinct fields come from distinct positions, so no entry is read twice. */
  lemma PositionsDistinct(f: Field, g: Field)
    ensures Position(f) == Position(g) <==> f == g
  {
  }

  /** Positions 2, 4 and 5 (and any past 10) never reach the detail. */
  lemma ToDetailIgnoresDroppedPositions(r1: RawRecord, r2: RawRecord)
    requires WellFormed(r1) && WellFormed(r2)
    requires forall f :: r1[Position(f)] == r2[Position(f)]
    ensures ToDetail(r1) == ToDetail(r2)
  {
    assert r1[0] == r2[Position(Symbol)];
    assert r1[1] == r2[Position(Bid)];
    assert r1[3] == r2[Position(Ask)];
    assert r1[6] == r2[Position(DailyChangePercent)];
    assert r1[7] == r2[Position(Last)];
    assert r1[8] == r2[Position(DailyVolume)];
    assert r1[9] == r2[Position(DailyHigh)];
    assert r1[10] == r2[Position(DailyLow)];
  }

  /** A sample record of the feed and the detail it maps to. */
  lemma ToDetailSample()
    ensures ToDetail([JsonString("BTC"), JsonNumber(100.0), JsonNumber(1.0), JsonNumber(101.0),
                      JsonNumber(1.0), JsonNumber(0.0), JsonNumber(0.05), JsonNumber(100.5),
                      JsonNumber(1000.0), JsonNumber(102.0), JsonNumber(99.0)])
         == CurrencyDetail(symbol := "BTC", bid := 100.0, ask := 101.0, last := 100.5,
                           dailyHigh := 102.0, dailyLow := 99.0, dailyVolume := 1000.0,
                           dailyChangePercent := 0.05)
  {
  }

  /** The projection applied to every record of the response: one detail per record, in order. */
  function ToDetails(data: seq<RawRecord>): (r: seq<CurrencyDetail>)
    requires forall i :: 0 <= i < |data| ==> WellFormed(data[i])
    ensures |r| == |data|
    ensures forall i :: 0 <= i < |r| ==> r[i] == ToDetail(data[i])
  {
    if |data| == 0 then [] else [ToDetail(data[0])] + ToDetails(data[1..])
  }

  /** The composite symbol of a coin: `"t"`, then the upper-cased coin, then the upper-cased base currency. */
  function CompositeSymbol(coin: string, baseCurrency: string): (r: string)
    ensures |r| == 1 + |coin| + |baseCurrency|
  {
    "t" + ToUpperCase(coin) + ToUpperCase(baseCurrency)
  }

  /** The composite symbol of every coin, in the order of the coins. */
  function CompositeSymbols(coins: seq<string>, baseCurrency: string): (r: seq<string>)
    ensures |r| == |coins|
    ensures forall i :: 0 <= i < |r| ==> r[i] == CompositeSymbol(coins[i], baseCurrency)
  {
    if |coins| == 0 then [] else [CompositeSymbol(coins[0], baseCurrency)] + CompositeSymbols(coins[1..], baseCurrency)
  }

  /** `baseCurrency` with its default `'USD'` for an omitted argument. */
  function BaseOrDefault(baseCurrency: Option<string>): (base: string)
    ensures baseCurrency.Some? ==> base == baseCurrency.value
    ensures baseCurrency.None? ==> base == "USD"
  {
    if baseCurrency.Some? then baseCurrency.value else DefaultBaseCurrency
  }

  /** The `symbols` query parameter built by `getTickers`. */
  function SymbolsQuery(coins: seq<string>, baseCurrency: Option<string>): (query: string)
    ensures query == "" <==> |coins| == 0
  {
    Join(CompositeSymbols(coins, BaseOrDefault(baseCurrency)), ',')
  }

  /** A coin's composite symbol depends on its letters only up to case. */
  lemma CompositeSymbolIgnoresCase(a: string, b: string, baseCurrency: string)
    ensures CompositeSymbol(a, baseCurrency) == CompositeSymbol(b, baseCurrency) <==>
              |a| == |b| && forall i :: 0 <= i < |a| ==> SameIgnoringCase(a[i], b[i])
  {
    ToUpperCaseEqualIff(a, b);
    var ua, ub, uc := ToUpperCase(a), ToUpperCase(b), ToUpperCase(baseCurrency);
    if CompositeSymbol(a, baseCurrency) == CompositeSymbol(b, baseCurrency) {
      assert ua == CompositeSymbol(a, baseCurrency)[1..1 + |a|];
      assert ub == CompositeSymbol(b, baseCurrency)[1..1 + |b|];
    }
  }

  /** `"btc"` and `"BTC"` name the same pair, `"tBTCUSD"`. */
  lemma CompositeSymbolSample()
    ensures CompositeSymbol("btc", BaseOrDefault(None)) == "tBTCUSD"
    ensures CompositeSymbol("BTC", BaseOrDefault(None)) == "tBTCUSD"
  {
  }

  lemma CompositeSymbolWithoutComma(coin: string, baseCurrency: string)
    requires ',' !in coin && ',' !in baseCurrency
    ensures ',' !in CompositeSymbol(coin, baseCurrency)
  {
    ToUpperCaseAddsNothing(coin, ',');
    ToUpperCaseAddsNothing(baseCurrency, ',');
    assert CompositeSymbol(coin, baseCurrency) == "t" + ToUpperCase(coin) + ToUpperCase(baseCurrency);
  }

  /** The base currency, given or defaulted, holds no comma when the given one holds none. */
  lemma BaseWithoutComma(baseCurrency: Option<string>)
    requires baseCurrency.Some? ==> ',' !in baseCurrency.value
    ensures ',' !in BaseOrDefault(baseCurrency)
  {
    if baseCurrency.None? {
      assert DefaultBaseCurrency == ['U', 'S', 'D'];
    }
  }

  /**
   * With at least one coin and no comma in any coin or in the base currency,
   * splitting the query at commas yields one composite symbol per coin, in order.
   */
  lemma SymbolsQuerySplits(coins: seq<string>, baseCurrency: Option<string>)
    requires |coins| >= 1
    requires forall i :: 0 <= i < |coins| ==> ',' !in coins[i]
    requires baseCurrency.Some? ==> ',' !in baseCurrency.value
    ensures Split(SymbolsQuery(coins, baseCurrency), ',') == CompositeSymbols(coins, BaseOrDefault(baseCurrency))
  {
    var base := BaseOrDefault(baseCurrency);
    var parts := CompositeSymbols(coins, base);
    BaseWithoutComma(baseCurrency);
    forall i | 0 <= i < |parts|
      ensures ',' !in parts[i]
    {
      CompositeSymbolWithoutComma(coins[i], base);
    }
    SplitJoin(parts, ',');
  }

  /** With no coins the query is empty, and splitting it yields one empty entry. */
  lemma SymbolsQueryNoCoins(baseCurrency: Option<string>)
    ensures SymbolsQuery([], baseCurrency) == ""
    ensures Split(SymbolsQuery([], baseCurrency), ',') == [""]
  {
  }

  /** The loader: fetches `data.json` whatever endpoint name and query it is given. */
  function LoadData(api: string, query: string, fetch: string -> Result<seq<RawRecord>, string>): (r: Result<seq<RawRecord>, string>)
    ensures r == fetch(ApiBase)
  {
    fetch(ApiBase)
  }

  /**
   * The ticker feed client: the details of the records fetched from
   * `data.json`, or the cause of the failed fetch, passed on unchanged.
   */
  function GetTickers(coins: seq<string>, baseCurrency: Option<string>, fetch: string -> Result<seq<RawRecord>, string>): (r: Result<seq<CurrencyDetail>, string>)
    requires fetch(ApiBase).Success? ==> forall i :: 0 <= i < |fetch(ApiBase).value| ==> WellFormed(fetch(ApiBase).value[i])
    ensures r.Failure? <==> fetch(ApiBase).Failure?
    ensures r.Failure? ==> r.error == fetch(ApiBase).error
    ensures r.Success? ==> |r.value| == |fetch(ApiBase).value|
    ensures r.Success? ==> forall i :: 0 <= i < |r.value| ==> r.value[i] == ToDetail(fetch(ApiBase).value[i])
  {
    match LoadData("tickers", SymbolsQuery(coins, baseCurrency), fetch)
    case Failure(cause) => Failure(cause)
    case Success(data) => Success(ToDetails(data))
  }

  /** The coins and the base currency do not change the outcome: the query is never sent. */
  lemma GetTickersIgnoresCoins(coins1: seq<string>, base1: Option<string>, coins2: seq<string>, base2: Option<string>,
                               fetch: string -> Result<seq<RawRecord>, string>)
    requires fetch(ApiBase).Success? ==> forall i :: 0 <= i < |fetch(ApiBase).value| ==> WellFormed(fetch(ApiBase).value[i])
    ensures GetTickers(coins1, base1, fetch) == GetTickers(coins2, base2, fetch)
  {
  }
}
