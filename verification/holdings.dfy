/** The holdings resolver: a fund's top holdings from the primary JSON source,
    else from the HTML table source, else none; non-empty results are kept in a
    per-session cache keyed by the code as the caller passed it. */
module Holdings {
  import opened Wrappers
  import opened Text
  import opened Numbers
  import opened Seqs
  import opened StockUtils

  /** One holding: a normalised code and its weight as a fraction of the
      fund's net assets. */
  datatype Holding = Holding(code: string, weight: real)

  /** JavaScript truthiness of an optional string: present and not empty. */
  predicate Truthy(s: Option<string>) {
    s.Some? && s.value != ""
  }

  /** `a || b` on optional strings. */
  function Or(a: Option<string>, b: Option<string>): (r: Option<string>)
    ensures Truthy(r) <==> Truthy(a) || Truthy(b)
    ensures Truthy(a) ==> r == a
    ensures !Truthy(a) ==> r == b
  {
    if Truthy(a) then a else b
  }

  /** The first truthy value of a non-empty list, or its last value when
      none is truthy: what `x0 || x1 || ... || xn` evaluates to. */
  function FirstTruthy(xs: seq<Option<string>>): (r: Option<string>)
    requires |xs| > 0
    ensures Truthy(r) <==> exists i :: 0 <= i < |xs| && Truthy(xs[i])
    ensures forall i :: 0 <= i < |xs| && FirstTruthyAt(xs, i) ==> r == xs[i]
    ensures (forall i :: 0 <= i < |xs| ==> !Truthy(xs[i])) ==> r == xs[|xs| - 1]
  {
    if |xs| == 1 then xs[0]
    else
      var rest := FirstTruthy(xs[1..]);
      assert forall i :: 1 <= i < |xs| && FirstTruthyAt(xs, i) ==> FirstTruthyAt(xs[1..], i - 1);
      Or(xs[0], rest)
  }

  /** `xs[i]` is truthy and nothing before it is. */
  predicate FirstTruthyAt(xs: seq<Option<string>>, i: nat)
    requires i < |xs|
  {
    Truthy(xs[i]) && forall j :: 0 <= j < i ==> !Truthy(xs[j])
  }

  // ---------------------------------------------------------------------
  // Prefix stripping

  /** `code.replace(/^(jj|sz|sh)/, '')`: drops one leading `jj`, `sz` or `sh`. */
  function StripPrefix(code: string): (r: string)
    ensures r == code || (|code| >= 2 && r == code[2..] && code[..2] in {"jj", "sz", "sh"})
    ensures r != code <==> StartsWith(code, "jj") || StartsWith(code, "sz") || StartsWith(code, "sh")
  {
    if StartsWith(code, "jj") || StartsWith(code, "sz") || StartsWith(code, "sh") then code[2..]
    else code
  }

  /** The namespaces whose prefix the resolver strips. */
  predicate Stripped(m: Market) {
    m == Shanghai || m == Shenzhen || m == OpenEndedFund
  }

  /** Stripping undoes qualification in the Shanghai, Shenzhen and fund
      namespaces and leaves Hong Kong and Beijing codes as they are. */
  lemma StripQualified(m: Market, code: string)
    ensures Stripped(m) ==> StripPrefix(Qualify(m, code)) == code
    ensures !Stripped(m) ==> StripPrefix(Qualify(m, code)) == Qualify(m, code)
  {
    var c := Qualify(m, code);
    assert c[..2] == Tag(m);
  }

  /** A bare code has nothing to strip. */
  lemma StripBare(code: string)
    requires AllDigits(code)
    ensures StripPrefix(code) == code
  {
    if |code| >= 2 {
      assert IsDigit(code[0]);
      assert code[..2][0] == code[0];
    }
  }

  /** Only one prefix goes: a doubly qualified code keeps its inner one. */
  lemma StripOnce(code: string)
    ensures StripPrefix("sh" + ("sz" + code)) == "sz" + code
  {
    assert ("sh" + ("sz" + code))[2..] == "sz" + code;
  }

  // ---------------------------------------------------------------------
  // One holding

  /** The first candidate in the Shenzhen or Shanghai namespace
      (`find(c => c.startsWith('sz') || c.startsWith('sh'))`). */
  function FirstStockCandidate(cs: seq<string>): (r: Option<string>)
    ensures r.Some? ==> exists i :: 0 <= i < |cs| && cs[i] == r.value && StockTagged(cs[i])
                                    && forall k :: 0 <= k < i ==> !StockTagged(cs[k])
    ensures r.None? <==> forall c <- cs :: !StockTagged(c)
  {
    if |cs| == 0 then None
    else if StockTagged(cs[0]) then Some(cs[0])
    else
      var r := FirstStockCandidate(cs[1..]);
      assert forall c <- cs[1..] :: c in cs;
      assert r.Some? ==> exists i :: 1 <= i < |cs| && cs[i] == r.value && StockTagged(cs[i])
                                      && forall k :: 0 <= k < i ==> !StockTagged(cs[k]) by {
        if r.Some? {
          var i :| 0 <= i < |cs| - 1 && cs[1..][i] == r.value && StockTagged(cs[1..][i])
                   && forall k :: 0 <= k < i ==> !StockTagged(cs[1..][k]);
          assert forall k :: 1 <= k < i + 1 ==> cs[k] == cs[1..][k - 1];
        }
      }
      r
  }

  /** A code in the Shenzhen or Shanghai namespace. */
  predicate StockTagged(c: string) {
    StartsWith(c, "sz") || StartsWith(c, "sh")
  }

  /** The holding of a present code: its guessed code (the stock candidate of
      an ambiguous one, the raw code when there is none) and the parsed
      percentage as a fraction, 0 when it is not a number. */
  function MakeHolding(raw: string, percent: Option<real>): (h: Holding)
    requires raw != ""
    ensures GuessPrefix(raw).Single? ==> h.code == GuessPrefix(raw).code
    ensures GuessPrefix(raw).Candidates? ==> h.code == Tag(Shenzhen) + raw
    ensures percent.Some? ==> h.weight * 100.0 == percent.value
    ensures percent.None? ==> h.weight == 0.0
  {
    var guess := GuessPrefix(raw);
    var picked := match guess
      case Single(c) => Some(c)
      case Candidates(cs) => FirstStockCandidate(cs);
    var code := if picked.None? || picked.value == "" then raw else picked.value;
    Holding(code, if percent.Some? then percent.value / 100.0 else 0.0)
  }

  /** `parseHoldingItem(rawCode, weightStr)`: None (`null`) exactly when the
      code is missing or empty. */
  function ParseHoldingItem(rawCode: Option<string>, weightText: Option<string>): (r: Option<Holding>)
    ensures r.None? <==> !Truthy(rawCode)
    ensures r.Some? ==> r.value == MakeHolding(rawCode.value, ParseFloatOpt(weightText))
  {
    if !Truthy(rawCode) then None
    else Some(MakeHolding(rawCode.value, ParseFloatOpt(weightText)))
  }

  /** A holding's code is already normalised: guessing its prefix again
      leaves it as it is. */
  lemma HoldingCodeNormal(raw: string, percent: Option<real>)
    requires raw != ""
    ensures GuessPrefix(MakeHolding(raw, percent).code) == Single(MakeHolding(raw, percent).code)
  {
    GuessPrefixIdempotent(raw);
    var g := GuessPrefix(raw);
    if g.Candidates? {
      assert g.All()[0] == Tag(Shenzhen) + raw;
    } else {
      assert g.code in g.All();
    }
  }

  // ---------------------------------------------------------------------
  // The primary source

  /** One element of `Data.Holding` or `Data.FundHolding`, its fields as text
      when present. */
  datatype RawItem = RawItem(
    gpdm: Option<string>,
    bzdm: Option<string>,
    codeField: Option<string>,
    dm: Option<string>,
    jzbl: Option<string>,
    zjzbl: Option<string>,
    weightField: Option<string>)

  /** The `Data` object of the primary reply. */
  datatype Envelope = Envelope(holding: Option<seq<RawItem>>, fundHolding: Option<seq<RawItem>>)

  /** What the primary source answers for a bare code: nothing usable (a
      network error, a non-2xx status, a body that is not JSON), or a JSON
      body whose `Data` may be missing. */
  datatype PrimaryReply = PrimaryUnavailable | PrimaryJson(data: Option<Envelope>)

  /** A `Data.FundHolding` entry: its code and weight under any of their names. */
  function FundItem(item: RawItem): (r: Option<Holding>)
    ensures r.None? <==> !Truthy(item.gpdm) && !Truthy(item.bzdm) && !Truthy(item.codeField) && !Truthy(item.dm)
    ensures Truthy(item.gpdm) ==> r == ParseHoldingItem(item.gpdm, Or(Or(item.jzbl, item.zjzbl), item.weightField))
    ensures Truthy(item.jzbl) ==> r == ParseHoldingItem(Or(Or(Or(item.gpdm, item.bzdm), item.codeField), item.dm), item.jzbl)
    ensures r == ParseHoldingItem(FirstTruthy([item.gpdm, item.bzdm, item.codeField, item.dm]),
                                  FirstTruthy([item.jzbl, item.zjzbl, item.weightField]))
  {
    OrChain3(item.jzbl, item.zjzbl, item.weightField);
    OrChain4(item.gpdm, item.bzdm, item.codeField, item.dm);
    ParseHoldingItem(Or(Or(Or(item.gpdm, item.bzdm), item.codeField), item.dm),
                     Or(Or(item.jzbl, item.zjzbl), item.weightField))
  }

  /** `a || b || c` is the first truthy of the three, or `c`. */
  lemma OrChain3(a: Option<string>, b: Option<string>, c: Option<string>)
    ensures Or(Or(a, b), c) == FirstTruthy([a, b, c])
  {
    assert [a, b, c][1..] == [b, c];
    assert [b, c][1..] == [c];
  }

  /** `a || b || c || d` is the first truthy of the four, or `d`. */
  lemma OrChain4(a: Option<string>, b: Option<string>, c: Option<string>, d: Option<string>)
    ensures Or(Or(Or(a, b), c), d) == FirstTruthy([a, b, c, d])
  {
    assert [a, b, c, d][1..] == [b, c, d];
    OrChain3(b, c, d);
  }

  /** A `Data.Holding` entry: code `GPDM`, weight `JZBL`; the other fields
      play no part. */
  function StockItem(item: RawItem): (r: Option<Holding>)
    ensures r.None? <==> !Truthy(item.gpdm)
    ensures r.Some? ==> r.value == MakeHolding(item.gpdm.value, ParseFloatOpt(item.jzbl))
  {
    ParseHoldingItem(item.gpdm, item.jzbl)
  }

  /** Each item parsed in place; items without a code stay as None. */
  function ParseItems(items: seq<RawItem>, fund: bool): (hs: seq<Option<Holding>>)
    ensures |hs| == |items|
    ensures forall i :: 0 <= i < |items| ==> hs[i] == if fund then FundItem(items[i]) else StockItem(items[i])
  {
    seq(|items|, i requires 0 <= i < |items| => if fund then FundItem(items[i]) else StockItem(items[i]))
  }

  /** `fetchHoldingsPrimary(shortCode)`: a non-empty fund-holding list wins;
      otherwise the stock-holding list; no list at all is a failure when
      `Data` is missing and an empty result when it is present. */
  function FetchHoldingsPrimary(shortCode: string, primary: string -> PrimaryReply): (r: Result<seq<Option<Holding>>>)
    ensures primary(shortCode).PrimaryUnavailable? ==> r.Failed?
    ensures primary(shortCode).PrimaryJson? ==>
      var data := primary(shortCode).data;
      var stocks := if data.Some? then data.value.holding.GetOr([]) else [];
      var funds := if data.Some? then data.value.fundHolding.GetOr([]) else [];
      && (|funds| > 0 ==> r == Ok(ParseItems(funds, true)))
      && (|funds| == 0 && |stocks| > 0 ==> r == Ok(ParseItems(stocks, false)))
      && (|funds| == 0 && |stocks| == 0 ==> (r.Failed? <==> data.None?) && (r.Ok? ==> r.value == []))
  {
    match primary(shortCode)
    case PrimaryUnavailable => Failed
    case PrimaryJson(data) =>
      var stocks := if data.Some? then data.value.holding.GetOr([]) else [];
      var funds := if data.Some? then data.value.fundHolding.GetOr([]) else [];
      if |funds| > 0 then Ok(ParseItems(funds, true))
      else if |stocks| == 0 then
        if data.None? then Failed else Ok([])
      else Ok(ParseItems(stocks, false))
  }

  // ---------------------------------------------------------------------
  // The HTML source

  /** What the HTML source answers for a bare code: nothing usable, or the
      text content of the cells of every `tbody tr` row, in document order. */
  datatype FallbackReply = FallbackUnavailable | FallbackRows(rows: seq<seq<string>>)

  /** The first cell whose trimmed text contains `%`, trimmed; None when no
      cell does (the code's `''`). */
  function PercentCell(cells: seq<string>): (r: Option<string>)
    ensures r.None? <==> forall i :: 0 <= i < |cells| ==> '%' !in Trim(cells[i])
    ensures r.Some? ==> exists i :: 0 <= i < |cells| && r.value == Trim(cells[i]) && '%' in r.value
                                    && forall k :: 0 <= k < i ==> '%' !in Trim(cells[k])
  {
    var texts := Map(Trim, cells);
    var i := FirstPercent(texts, 0);
    if i < |texts| then Some(texts[i]) else None
  }

  /** The index of the first text from `from` on that contains `%`, or the
      number of texts when none does. */
  function FirstPercent(texts: seq<string>, from: nat): (i: nat)
    requires from <= |texts|
    ensures from <= i <= |texts|
    ensures forall k :: from <= k < i ==> '%' !in texts[k]
    ensures i < |texts| ==> '%' in texts[i]
    decreases |texts| - from
  {
    if from == |texts| || '%' in texts[from] then from else FirstPercent(texts, from + 1)
  }

  /** The holding one table row yields, if any: the row needs three cells, a
      non-empty code in cell 1, a cell with `%` and a number in front of or
      around the first `%`. */
  function RowHolding(cells: seq<string>): (r: Option<Holding>)
    ensures |cells| < 3 ==> r.None?
    ensures r.Some? <==> |cells| >= 3 && Trim(cells[1]) != "" && PercentCell(cells).Some?
                         && ParseFloat(RemoveFirst(PercentCell(cells).value, '%')).Some?
    ensures r.Some? ==> r.value == MakeHolding(Trim(cells[1]), ParseFloat(RemoveFirst(PercentCell(cells).value, '%')))
  {
    if |cells| < 3 then None
    else
      var code := Trim(cells[1]);
      match PercentCell(cells)
      case None => None
      case Some(w) =>
        var percent := ParseFloat(RemoveFirst(w, '%'));
        if code == "" || percent.None? then None
        else Some(MakeHolding(code, percent))
  }

  /** What each row yields, row by row. */
  function RowResults(rows: seq<seq<string>>): (rs: seq<Option<Holding>>)
    ensures |rs| == |rows|
    ensures forall i :: 0 <= i < |rows| ==> rs[i] == RowHolding(rows[i])
  {
    Map(RowHolding, rows)
  }

  /** The present entries, in order (the rows that push a holding). */
  function Emitted(rs: seq<Option<Holding>>): (hs: seq<Option<Holding>>)
    ensures |hs| <= |rs|
    ensures forall h <- hs :: h.Some? && h in rs
    ensures (forall r <- rs :: r.Some?) ==> hs == rs
  {
    if |rs| == 0 then []
    else
      var front := Emitted(rs[..|rs| - 1]);
      var last := rs[|rs| - 1];
      assert forall r <- rs[..|rs| - 1] :: r in rs;
      assert rs == rs[..|rs| - 1] + [last];
      if last.Some? then front + [last] else front
  }

  /** The holdings of the rows that yield one, in row order. */
  function RowHoldings(rows: seq<seq<string>>): (hs: seq<Option<Holding>>)
    ensures |hs| <= |rows|
    ensures forall h <- hs :: h.Some? && exists i :: 0 <= i < |rows| && RowHolding(rows[i]) == h
  {
    var rs := RowResults(rows);
    Emitted(rs)
  }

  /** Emitting two runs of rows one after the other is emitting each. */
  lemma {:induction false} EmittedConcat(a: seq<Option<Holding>>, b: seq<Option<Holding>>)
    ensures Emitted(a + b) == Emitted(a) + Emitted(b)
    decreases |b|
  {
    if |b| == 0 {
      assert a + b == a;
    } else {
      var front := b[..|b| - 1];
      assert (a + b)[..|a + b| - 1] == a + front;
      assert (a + b)[|a + b| - 1] == b[|b| - 1];
      EmittedConcat(a, front);
    }
  }

  /** Reading two tables one after the other is reading each. */
  lemma RowHoldingsConcat(a: seq<seq<string>>, b: seq<seq<string>>)
    ensures RowHoldings(a + b) == RowHoldings(a) + RowHoldings(b)
  {
    MapConcat(RowHolding, a, b);
    EmittedConcat(RowResults(a), RowResults(b));
  }

  /** A row yields a holding exactly when its own reading does. */
  lemma RowHoldingsOfOne(row: seq<string>)
    ensures RowHoldings([row]) == if RowHolding(row).Some? then [RowHolding(row)] else []
  {
    assert RowResults([row]) == [RowHolding(row)];
    assert [RowHolding(row)][..0] == [];
  }

  /** `fetchHoldingsFallback(shortCode)`. */
  function FetchHoldingsFallback(shortCode: string, fallback: string -> FallbackReply): (r: Result<seq<Option<Holding>>>)
    ensures r.Failed? <==> fallback(shortCode).FallbackUnavailable?
    ensures r.Ok? ==> r.value == RowHoldings(fallback(shortCode).rows)
  {
    match fallback(shortCode)
    case FallbackUnavailable => Failed
    case FallbackRows(rows) => Ok(RowHoldings(rows))
  }

  // ---------------------------------------------------------------------
  // The resolver and its cache

  /** The sources one resolution asked, in order. */
  datatype Source = Primary | Fallback

  /** The holdings found, the cache afterwards, and the sources consulted. */
  datatype Resolution = Resolution(holdings: seq<Option<Holding>>, cache: map<string, seq<Option<Holding>>>, consulted: seq<Source>)

  /** `fetchHoldings(fundCode)` against the cache: a hit answers from the
      cache; a miss asks the primary source for the bare code, the HTML
      source only when the primary fails, and gives `[]` when both fail. A
      non-empty result is stored under `fundCode` as given. */
  function FetchHoldings(cache: map<string, seq<Option<Holding>>>, fundCode: string,
                         primary: string -> PrimaryReply, fallback: string -> FallbackReply): (r: Resolution)
    ensures fundCode in cache ==> r == Resolution(cache[fundCode], cache, [])
    ensures fundCode !in cache ==>
      && |r.consulted| >= 1 && r.consulted[0] == Primary
      && (r.consulted == [Primary, Fallback] <==> FetchHoldingsPrimary(StripPrefix(fundCode), primary).Failed?)
      && (FetchHoldingsPrimary(StripPrefix(fundCode), primary).Ok? ==> r.consulted == [Primary] && r.holdings == FetchHoldingsPrimary(StripPrefix(fundCode), primary).value)
    ensures fundCode !in cache && FetchHoldingsPrimary(StripPrefix(fundCode), primary).Failed? ==>
      (FetchHoldingsFallback(StripPrefix(fundCode), fallback).Failed? ==> r.holdings == [] && r.cache == cache)
      && (FetchHoldingsFallback(StripPrefix(fundCode), fallback).Ok? ==> r.holdings == FetchHoldingsFallback(StripPrefix(fundCode), fallback).value)
    ensures fundCode !in cache ==> r.cache == if |r.holdings| > 0 then cache[fundCode := r.holdings] else cache
  {
    if fundCode in cache then Resolution(cache[fundCode], cache, [])
    else
      var shortCode := StripPrefix(fundCode);
      match FetchHoldingsPrimary(shortCode, primary)
      case Ok(hs) => Store(cache, fundCode, hs, [Primary])
      case Failed =>
        match FetchHoldingsFallback(shortCode, fallback)
        case Ok(hs) => Store(cache, fundCode, hs, [Primary, Fallback])
        case Failed => Resolution([], cache, [Primary, Fallback])
  }

  /** The result kept in the cache when it is not empty. */
  function Store(cache: map<string, seq<Option<Holding>>>, fundCode: string, hs: seq<Option<Holding>>, consulted: seq<Source>): (r: Resolution)
    ensures r.holdings == hs && r.consulted == consulted
    ensures |hs| > 0 ==> r.cache.Keys == cache.Keys + {fundCode} && r.cache[fundCode] == hs
    ensures |hs| == 0 ==> r.cache == cache
    ensures forall k <- cache :: k != fundCode ==> k in r.cache && r.cache[k] == cache[k]
  {
    Resolution(hs, if |hs| > 0 then cache[fundCode := hs] else cache, consulted)
  }

  /** The cache holds only non-empty lists. */
  predicate CacheValid(cache: map<string, seq<Option<Holding>>>) {
    forall k <- cache :: |cache[k]| > 0
  }

  /** A second resolution of the same code right after a non-empty one is
      answered from the cache, with the same holdings and no source asked. */
  lemma SecondLookupHits(cache: map<string, seq<Option<Holding>>>, fundCode: string,
                         primary: string -> PrimaryReply, fallback: string -> FallbackReply)
    requires |FetchHoldings(cache, fundCode, primary, fallback).holdings| > 0
    ensures var first := FetchHoldings(cache, fundCode, primary, fallback);
            FetchHoldings(first.cache, fundCode, primary, fallback) == Resolution(first.holdings, first.cache, [])
  {
  }

  /** What one resolution does to the cache, in the terms the loop of
      `ResolveAll` needs. */
  lemma FetchHoldingsCache(cache: map<string, seq<Option<Holding>>>, fundCode: string,
                           primary: string -> PrimaryReply, fallback: string -> FallbackReply, r: Resolution)
    requires CacheValid(cache) && r == FetchHoldings(cache, fundCode, primary, fallback)
    ensures CacheValid(r.cache)
    ensures r.cache.Keys <= cache.Keys + {fundCode}
    ensures forall k <- cache :: k in r.cache && r.cache[k] == cache[k]
    ensures fundCode in cache ==> r.holdings == cache[fundCode]
    ensures |r.holdings| > 0 ==> fundCode in r.cache
  {
  }

  /** What `ResolveAll` keeps true after resolving the first `n` codes. */
  predicate Resolved(cache0: map<string, seq<Option<Holding>>>, codes: seq<string>, n: nat,
                     results: seq<seq<Option<Holding>>>, cache: map<string, seq<Option<Holding>>>)
  {
    && n <= |codes| && |results| == n
    && CacheValid(cache)
    && (forall k <- cache0 :: k in cache && cache[k] == cache0[k])
    && cache.Keys <= cache0.Keys + (set c | c in codes)
    && (forall i :: 0 <= i < n && codes[i] in cache0 ==> results[i] == cache0[codes[i]])
    && (forall i :: 0 <= i < n && |results[i]| > 0 ==> codes[i] in cache)
  }

  /** One more resolution keeps `Resolved`. */
  lemma ResolvedStep(cache0: map<string, seq<Option<Holding>>>, codes: seq<string>, n: nat,
                     results: seq<seq<Option<Holding>>>, cache: map<string, seq<Option<Holding>>>, r: Resolution)
    requires n < |codes| && Resolved(cache0, codes, n, results, cache)
    requires CacheValid(r.cache)
    requires r.cache.Keys <= cache.Keys + {codes[n]}
    requires forall k <- cache :: k in r.cache && r.cache[k] == cache[k]
    requires codes[n] in cache ==> r.holdings == cache[codes[n]]
    requires |r.holdings| > 0 ==> codes[n] in r.cache
    ensures Resolved(cache0, codes, n + 1, results + [r.holdings], r.cache)
  {
    assert codes[n] in codes;
    var rs := results + [r.holdings];
    forall i | 0 <= i < n + 1 && codes[i] in cache0
      ensures rs[i] == cache0[codes[i]]
    {
      if i < n {
        assert rs[i] == results[i];
      } else {
        assert codes[n] in cache;
      }
    }
    forall i | 0 <= i < n + 1 && |rs[i]| > 0
      ensures codes[i] in r.cache
    {
      if i < n {
        assert rs[i] == results[i];
        assert codes[i] in cache;
      }
    }
  }

  /** Resolves every code in turn, threading the cache: the results line up
      with the codes, the cache keeps every earlier entry unchanged, gains
      only codes that were asked for, and stays free of empty lists. */
  method ResolveAll(cache0: map<string, seq<Option<Holding>>>, codes: seq<string>,
                    primary: string -> PrimaryReply, fallback: string -> FallbackReply)
    returns (results: seq<seq<Option<Holding>>>, cache: map<string, seq<Option<Holding>>>)
    requires CacheValid(cache0)
    ensures |results| == |codes|
    ensures CacheValid(cache)
    ensures forall k <- cache0 :: k in cache && cache[k] == cache0[k]
    ensures cache.Keys <= cache0.Keys + (set c | c in codes)
    ensures forall i :: 0 <= i < |codes| && codes[i] in cache0 ==> results[i] == cache0[codes[i]]
    ensures forall i :: 0 <= i < |codes| && |results[i]| > 0 ==> codes[i] in cache
  {
    results := [];
    cache := cache0;
    var n := 0;
    while n < |codes|
      invariant Resolved(cache0, codes, n, results, cache)
    {
      var r := FetchHoldings(cache, codes[n], primary, fallback);
      FetchHoldingsCache(cache, codes[n], primary, fallback, r);
      ResolvedStep(cache0, codes, n, results, cache, r);
      results := results + [r.holdings];
      cache := r.cache;
      n := n + 1;
    }
  }
}
