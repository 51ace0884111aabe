/** The estimation engine: a fund's intraday estimate from its holdings'
    quotes, renormalised by the weight that could be priced, with the fund
    company's own direct estimate as the fallback. */
module Valuation {
  import opened Wrappers
  import opened Text
  import opened Seqs
  import opened Numbers
  import opened Patterns
  import opened StockUtils
  import opened FundService
  import opened Holdings

  // ---------------------------------------------------------------------
  // The direct estimate

  /** The direct estimate: the estimated NAV and growth rate, each NaN
      (None) when its text is not a number. */
  datatype DirectEstimate = DirectEstimate(estimatedNav: Option<real>, growthRate: Option<real>)

  /** The two fields of the JSONP payload the model reads, as text when
      present. */
  datatype GzFields = GzFields(gsz: Option<string>, gszzl: Option<string>)

  /** What the direct-estimate source answers for a bare code. */
  datatype DirectReply = DirectUnavailable | DirectBody(text: string)

  /** The opening of the JSONP wrapper. */
  const JsonpOpen: string := "jsonpgz("

  /** The pattern `jsonpgz\((.*)\)` matched at index `i`: the text from after
      the opening up to the last `)` before the line ends. */
  function CaptureAt(text: string, i: nat): (c: Option<string>)
    requires i <= |text|
    ensures c.Some? ==> OccursAt(text, JsonpOpen, i)
    ensures c.Some? ==> exists k :: i + |JsonpOpen| <= k < |text| && text[k] == ')' && c.value == text[i + |JsonpOpen|..k] && NoLineTerminator(c.value)
    ensures c.Some? ==> forall p :: i + |JsonpOpen| <= p < |text| && text[p] == ')' && NoLineTerminator(text[i + |JsonpOpen|..p]) ==>
                          p <= i + |JsonpOpen| + |c.value|
    ensures OccursAt(text, JsonpOpen, i) ==>
      (c.Some? <==> exists p :: i + |JsonpOpen| <= p < |text| && text[p] == ')' && NoLineTerminator(text[i + |JsonpOpen|..p]))
  {
    if OccursAt(text, JsonpOpen, i) then
      match GreedyCapture(text, i + |JsonpOpen|, ')')
      case Some(k) => Some(text[i + |JsonpOpen|..k])
      case None => None
    else None
  }

  /** The leftmost match at or after index `i`. */
  function CaptureFrom(text: string, i: nat): (c: Option<string>)
    requires i <= |text|
    ensures c.Some? ==> exists p :: i <= p <= |text| && CaptureAt(text, p) == c && NoCaptureIn(text, i, p)
    ensures c.None? ==> NoCaptureIn(text, i, |text| + 1)
    decreases |text| - i
  {
    match CaptureAt(text, i)
    case Some(c) =>
      assert NoCaptureIn(text, i, i);
      Some(c)
    case None =>
      NoCaptureStep(text, i);
      if i == |text| then None else CaptureFrom(text, i + 1)
  }

  /** No capture at `i` extends every capture-free range that starts just
      after it. */
  lemma NoCaptureStep(text: string, i: nat)
    requires i <= |text| && CaptureAt(text, i).None?
    ensures forall p :: i + 1 <= p <= |text| + 1 && NoCaptureIn(text, i + 1, p) ==> NoCaptureIn(text, i, p)
    ensures NoCaptureIn(text, i, i + 1)
  {
  }

  /** The pattern matches at no index in `[i, p)`. */
  predicate NoCaptureIn(text: string, i: nat, p: nat)
    requires p <= |text| + 1
  {
    forall q :: i <= q < p ==> CaptureAt(text, q).None?
  }

  /** `text.match(/jsonpgz\((.*)\)/)[1]`, when there is a match. */
  function CaptureJsonp(text: string): (c: Option<string>)
    ensures c.Some? ==> exists p :: 0 <= p <= |text| && CaptureAt(text, p) == c && NoCaptureIn(text, 0, p)
    ensures c.None? ==> NoCaptureIn(text, 0, |text| + 1)
  {
    CaptureFrom(text, 0)
  }

  /** A payload wrapped in the JSONP call, with no `)` after the call on the
      line, is captured exactly. */
  lemma CaptureWrapped(payload: string, tail: string)
    requires NoLineTerminator(payload) && ')' !in tail
    ensures CaptureJsonp(JsonpOpen + payload + ")" + tail) == Some(payload)
  {
    var s := JsonpOpen + payload + ")" + tail;
    var k0 := |JsonpOpen| + |payload|;
    assert s[..|JsonpOpen|] == JsonpOpen;
    assert OccursAt(s, JsonpOpen, 0);
    assert s[|JsonpOpen|..k0] == payload;
    assert s[k0] == ')';
    var g := GreedyCapture(s, |JsonpOpen|, ')');
    assert g.Some? && k0 <= g.value;
    assert g.value == k0;
    assert CaptureAt(s, 0) == Some(payload);
  }

  /** `fetchEastMoneyValuation(fundCode)`: asks the source for the bare code;
      no reply, no capture, an empty capture or a payload that does not
      decode give None (`null`); otherwise the two fields parsed as numbers. */
  function FetchEastMoneyValuation(fundCode: string, source: string -> DirectReply,
                                   decode: string -> Option<GzFields>): (r: Option<DirectEstimate>)
    ensures source(StripPrefix(fundCode)).DirectUnavailable? ==> r.None?
    ensures r.Some? <==> source(StripPrefix(fundCode)).DirectBody?
                         && CaptureJsonp(source(StripPrefix(fundCode)).text).Some?
                         && CaptureJsonp(source(StripPrefix(fundCode)).text).value != ""
                         && decode(CaptureJsonp(source(StripPrefix(fundCode)).text).value).Some?
    ensures r.Some? ==>
      var fields := decode(CaptureJsonp(source(StripPrefix(fundCode)).text).value).value;
      r.value.estimatedNav == ParseFloatOpt(fields.gsz) && r.value.growthRate == ParseFloatOpt(fields.gszzl)
  {
    match source(StripPrefix(fundCode))
    case DirectUnavailable => None
    case DirectBody(text) =>
      match CaptureJsonp(text)
      case None => None
      case Some(payload) =>
        if payload == "" then None
        else
          match decode(payload)
          case None => None
          case Some(fields) => Some(DirectEstimate(ParseFloatOpt(fields.gsz), ParseFloatOpt(fields.gszzl)))
  }

  // ---------------------------------------------------------------------
  // The weighted estimate

  /** One row of the estimate's breakdown. */
  datatype Detail = Detail(code: string, name: Option<string>, price: real, change: real, weight: real)

  /** What `calculateRealtimeEstimate` resolves to: the direct estimate (which
      may be `null`), a weighted estimate, or a rejected promise. */
  datatype Estimate =
    | Direct(direct: Option<DirectEstimate>)
    | Weighted(estimatedNav: real, growthRate: real, details: seq<Detail>)
    | Rejected

  /** `holdings.some(h => h.weight > 0)`: stops at the first positive weight;
      reaching a missing holding first is a TypeError (Failed). */
  function AnyPositiveWeight(hs: seq<Option<Holding>>): (r: Result<bool>)
    ensures r == Ok(false) <==> forall i :: 0 <= i < |hs| ==> hs[i].Some? && hs[i].value.weight <= 0.0
    ensures r == Ok(true) <==> exists i :: 0 <= i < |hs| && hs[i].Some? && hs[i].value.weight > 0.0 && PresentBefore(hs, i)
  {
    if |hs| == 0 then Ok(false)
    else if hs[0].None? then
      assert forall i :: 0 < i < |hs| ==> !PresentBefore(hs, i);
      Failed
    else if hs[0].value.weight > 0.0 then
      assert PresentBefore(hs, 0);
      Ok(true)
    else
      var r := AnyPositiveWeight(hs[1..]);
      ShiftPresent(hs);
      r
  }

  /** Every holding before index `i` is present. */
  predicate PresentBefore(hs: seq<Option<Holding>>, i: nat)
    requires i <= |hs|
  {
    forall j :: 0 <= j < i ==> hs[j].Some?
  }

  lemma ShiftPresent(hs: seq<Option<Holding>>)
    requires |hs| > 0 && hs[0].Some? && hs[0].value.weight <= 0.0
    ensures (exists i :: 0 <= i < |hs| && hs[i].Some? && hs[i].value.weight > 0.0 && PresentBefore(hs, i)) <==>
            (exists i :: 0 <= i < |hs[1..]| && hs[1..][i].Some? && hs[1..][i].value.weight > 0.0 && PresentBefore(hs[1..], i))
    ensures (forall i :: 0 <= i < |hs| ==> hs[i].Some? && hs[i].value.weight <= 0.0) <==>
            (forall i :: 0 <= i < |hs[1..]| ==> hs[1..][i].Some? && hs[1..][i].value.weight <= 0.0)
  {
    var t := hs[1..];
    if exists i :: 0 <= i < |hs| && hs[i].Some? && hs[i].value.weight > 0.0 && PresentBefore(hs, i) {
      var i :| 0 <= i < |hs| && hs[i].Some? && hs[i].value.weight > 0.0 && PresentBefore(hs, i);
      assert t[i - 1] == hs[i];
      assert PresentBefore(t, i - 1) by {
        forall j | 0 <= j < i - 1
          ensures t[j].Some?
        {
          assert t[j] == hs[j + 1];
        }
      }
    }
    if exists i :: 0 <= i < |t| && t[i].Some? && t[i].value.weight > 0.0 && PresentBefore(t, i) {
      var i :| 0 <= i < |t| && t[i].Some? && t[i].value.weight > 0.0 && PresentBefore(t, i);
      assert hs[i + 1] == t[i];
      assert PresentBefore(hs, i + 1) by {
        forall j | 0 <= j < i + 1
          ensures hs[j].Some?
        {
          if j > 0 {
            assert hs[j] == t[j - 1];
          }
        }
      }
    }
    if forall i :: 0 <= i < |t| ==> t[i].Some? && t[i].value.weight <= 0.0 {
      forall i | 0 <= i < |hs|
        ensures hs[i].Some? && hs[i].value.weight <= 0.0
      {
        if i > 0 {
          assert hs[i] == t[i - 1];
        }
      }
    }
  }

  /** No holding is missing. */
  predicate AllPresent(hs: seq<Option<Holding>>) {
    forall i :: 0 <= i < |hs| ==> hs[i].Some?
  }

  /** The holdings of a list without missing entries. */
  function Present(hs: seq<Option<Holding>>): (r: seq<Holding>)
    requires AllPresent(hs)
    ensures |r| == |hs| && forall i :: 0 <= i < |hs| ==> hs[i] == Some(r[i])
  {
    seq(|hs|, i requires 0 <= i < |hs| => hs[i].value)
  }

  /** The codes of the holdings, in order (`holdings.map(h => h.code)`). */
  function Codes(hs: seq<Holding>): (cs: seq<string>)
    ensures |cs| == |hs| && forall i :: 0 <= i < |hs| ==> cs[i] == hs[i].code
  {
    seq(|hs|, i requires 0 <= i < |hs| => hs[i].code)
  }

  /** `marketItem.growthRate || 0`: NaN counts as no change. */
  function Growth(q: Quote): (g: real)
    ensures q.growthRate.Some? ==> g == q.growthRate.value
    ensures q.growthRate.None? ==> g == 0.0
  {
    q.growthRate.GetOr(0.0)
  }

  /** A holding's share of the change: its quote's growth as a fraction,
      times its weight; nothing when it has no quote. */
  function Contribution(h: Holding, quotes: map<string, Quote>): (c: real)
    ensures h.code !in quotes ==> c == 0.0
    ensures h.code in quotes ==> c * 100.0 == Growth(quotes[h.code]) * h.weight
  {
    if h.code in quotes then Growth(quotes[h.code]) / 100.0 * h.weight else 0.0
  }

  /** `totalWeightedChange`: the contributions of every quoted holding,
      before any row is filtered out. */
  function TotalWeightedChange(hs: seq<Holding>, quotes: map<string, Quote>): real
  {
    if |hs| == 0 then 0.0
    else TotalWeightedChange(hs[..|hs| - 1], quotes) + Contribution(hs[|hs| - 1], quotes)
  }

  /** No holding has a quote. */
  predicate NoneQuoted(hs: seq<Holding>, quotes: map<string, Quote>) {
    forall i :: 0 <= i < |hs| ==> hs[i].code !in quotes
  }

  /** Holdings without a quote add nothing to the weighted change. */
  lemma {:induction false} UnquotedAddNothing(hs: seq<Holding>, quotes: map<string, Quote>)
    requires NoneQuoted(hs, quotes)
    ensures TotalWeightedChange(hs, quotes) == 0.0
  {
    if |hs| > 0 {
      UnquotedAddNothing(hs[..|hs| - 1], quotes);
    }
  }

  /** Every row's weight is non-negative. */
  predicate NonNegativeWeights(ds: seq<Detail>) {
    forall i :: 0 <= i < |ds| ==> ds[i].weight >= 0.0
  }

  /** A quote that becomes a detail row: it has a name and a positive price. */
  predicate Kept(q: Quote) {
    Truthy(q.name) && q.price > 0.0
  }

  /** The detail row of a quoted holding. */
  function DetailOf(h: Holding, q: Quote): (d: Detail)
    ensures d.code == h.code && d.weight == h.weight && d.name == q.name && d.price == q.price && d.change == Growth(q)
  {
    Detail(h.code, q.name, q.price, Growth(q), h.weight)
  }

  /** The detail rows that survive the filter, in holding order. */
  function Details(hs: seq<Holding>, quotes: map<string, Quote>): (ds: seq<Detail>)
    ensures |ds| <= |hs|
    ensures forall i :: 0 <= i < |ds| ==> ds[i].code in quotes && Kept(quotes[ds[i].code])
  {
    if |hs| == 0 then []
    else
      var front := Details(hs[..|hs| - 1], quotes);
      var h := hs[|hs| - 1];
      if h.code in quotes && Kept(quotes[h.code]) then front + [DetailOf(h, quotes[h.code])] else front
  }

  /** The weight the detail rows account for. */
  function KnownWeight(ds: seq<Detail>): (k: real)
    ensures NonNegativeWeights(ds) ==> k >= 0.0
  {
    if |ds| == 0 then 0.0 else KnownWeight(ds[..|ds| - 1]) + ds[|ds| - 1].weight
  }

  /** One row's known weight is its weight. */
  lemma KnownWeightOne(d: Detail)
    ensures KnownWeight([d]) == d.weight
  {
    assert [d][..0] == [];
  }

  /** Below this known weight the estimate is not trusted. */
  const MinKnownWeight: real := 0.05

  /** The divisor of the weighted change: the known weight, or 1 when that is
      below the threshold. It is never zero. */
  function Denominator(known: real): (d: real)
    ensures d >= MinKnownWeight
    ensures known >= MinKnownWeight ==> d == known
    ensures known < MinKnownWeight ==> d == 1.0
  {
    if known < MinKnownWeight then 1.0 else known
  }

  /** Steps 3 and 4 of `calculateRealtimeEstimate`, once the quotes are in:
      no surviving row or too little known weight with a direct estimate at
      hand gives the direct estimate; otherwise the weighted change is divided
      by the known weight (or by 1) and applied to the previous NAV. */
  function Combine(prevNav: real, direct: Option<DirectEstimate>, hs: seq<Holding>, quotes: map<string, Quote>): (r: Estimate)
    ensures !r.Rejected?
    ensures |Details(hs, quotes)| == 0 ==> r == Direct(direct)
    ensures r.Weighted? <==> |Details(hs, quotes)| > 0 && (KnownWeight(Details(hs, quotes)) >= MinKnownWeight || direct.None?)
    ensures r.Direct? ==> r.direct == direct
    ensures r.Weighted? ==>
      r == Renormalised(prevNav, TotalWeightedChange(hs, quotes), Denominator(KnownWeight(Details(hs, quotes))), Details(hs, quotes))
  {
    var details := Details(hs, quotes);
    if |details| == 0 then Direct(direct)
    else
      var known := KnownWeight(details);
      if known < MinKnownWeight && direct.Some? then Direct(direct)
      else
        Renormalised(prevNav, TotalWeightedChange(hs, quotes), Denominator(known), details)
  }

  /** The weighted change `w` spread over the divisor `d` and applied to the
      previous NAV. */
  function Renormalised(prevNav: real, w: real, d: real, details: seq<Detail>): (r: Estimate)
    requires d > 0.0
    ensures r.Weighted? && r.details == details
    ensures r.growthRate * d == 100.0 * w
    ensures r.estimatedNav == prevNav * (1.0 + r.growthRate / 100.0)
  {
    var g := w / d;
    Weighted(prevNav * (1.0 + g), g * 100.0, details)
  }

  /** `calculateRealtimeEstimate(fundCode, prevNav)` once the direct estimate
      and the holdings are in: without a positive weight the direct estimate
      is the answer, whatever it is; a missing holding or a failed quote
      request rejects; otherwise the quotes of the holdings' codes are
      combined. */
  function CalculateRealtimeEstimate(prevNav: real, direct: Option<DirectEstimate>, holdings: seq<Option<Holding>>,
                                     quoteSource: string -> Result<string>, clock: string): (r: Estimate)
    ensures |holdings| == 0 ==> r == Direct(direct)
    ensures (forall i :: 0 <= i < |holdings| ==> holdings[i].Some? && holdings[i].value.weight <= 0.0) ==> r == Direct(direct)
    ensures AnyPositiveWeight(holdings).Failed? ==> r.Rejected?
    ensures AnyPositiveWeight(holdings) == Ok(true) && !AllPresent(holdings) ==> r.Rejected?
    ensures AnyPositiveWeight(holdings) == Ok(true) && AllPresent(holdings) ==>
      var quotes := FetchFundValuations(Codes(Present(holdings)), quoteSource, clock);
      && (quotes.Failed? <==> r.Rejected?)
      && (quotes.Ok? ==> r == Combine(prevNav, direct, Present(holdings), quotes.value))
  {
    match AnyPositiveWeight(holdings)
    case Failed => Rejected
    case Ok(usable) =>
      if !usable then Direct(direct)
      else if !AllPresent(holdings) then Rejected
      else
        var hs := Present(holdings);
        match FetchFundValuations(Codes(hs), quoteSource, clock)
        case Failed => Rejected
        case Ok(quotes) => Combine(prevNav, direct, hs, quotes)
  }

  // ---------------------------------------------------------------------
  // Properties of the engine

  /** Once some holding has a positive weight, a missing holding anywhere
      rejects: before the positive one `some` trips over it, after it `map`
      does. */
  lemma NullHoldingRejects(prevNav: real, direct: Option<DirectEstimate>, holdings: seq<Option<Holding>>,
                           quoteSource: string -> Result<string>, clock: string, i: nat, j: nat)
    requires i < |holdings| && holdings[i].Some? && holdings[i].value.weight > 0.0
    requires j < |holdings| && holdings[j].None?
    ensures CalculateRealtimeEstimate(prevNav, direct, holdings, quoteSource, clock) == Rejected
  {
    assert !AllPresent(holdings);
    assert AnyPositiveWeight(holdings) != Ok(false);
  }

  /** The rows of two runs of holdings are the rows of each, in order. */
  lemma {:induction false} DetailsConcat(a: seq<Holding>, b: seq<Holding>, quotes: map<string, Quote>)
    ensures Details(a + b, quotes) == Details(a, quotes) + Details(b, quotes)
    ensures TotalWeightedChange(a + b, quotes) == TotalWeightedChange(a, quotes) + TotalWeightedChange(b, quotes)
    decreases |b|
  {
    if |b| == 0 {
      assert a + b == a;
    } else {
      var front := b[..|b| - 1];
      assert (a + b)[..|a + b| - 1] == a + front;
      assert (a + b)[|a + b| - 1] == b[|b| - 1];
      DetailsConcat(a, front, quotes);
    }
  }

  /** When every holding is quoted and kept, the rows are exactly the
      holdings' rows, one per holding and in holding order. */
  lemma {:induction false} DetailsInOrder(hs: seq<Holding>, quotes: map<string, Quote>)
    requires forall i :: 0 <= i < |hs| ==> hs[i].code in quotes && Kept(quotes[hs[i].code])
    ensures |Details(hs, quotes)| == |hs|
    ensures forall i :: 0 <= i < |hs| ==> Details(hs, quotes)[i] == DetailOf(hs[i], quotes[hs[i].code])
    decreases |hs|
  {
    if |hs| > 0 {
      var n := |hs| - 1;
      var front := hs[..n];
      assert forall i :: 0 <= i < n ==> front[i] == hs[i];
      DetailsInOrder(front, quotes);
      var ds := Details(front, quotes);
      assert Details(hs, quotes) == ds + [DetailOf(hs[n], quotes[hs[n].code])];
    }
  }

  /** A holding produces a row when its code is quoted and its quote is
      kept; every row comes from such a holding. */
  predicate RowOf(hs: seq<Holding>, quotes: map<string, Quote>, d: Detail) {
    exists i :: 0 <= i < |hs| && hs[i].code in quotes && Kept(quotes[hs[i].code]) && d == DetailOf(hs[i], quotes[hs[i].code])
  }

  /** The rows are exactly the rows of the quoted, kept holdings. */
  lemma {:induction false} DetailsMembers(hs: seq<Holding>, quotes: map<string, Quote>, d: Detail)
    ensures d in Details(hs, quotes) <==> RowOf(hs, quotes, d)
    decreases |hs|
  {
    if |hs| > 0 {
      var n := |hs| - 1;
      var front := hs[..n];
      DetailsMembers(front, quotes, d);
      if RowOf(front, quotes, d) {
        var i :| 0 <= i < n && front[i].code in quotes && Kept(quotes[front[i].code]) && d == DetailOf(front[i], quotes[front[i].code]);
        assert hs[i] == front[i];
      }
    }
  }

  /** With every holding quoted and kept and no negative weight, the summed
      weighted change lies between the smallest and the largest growth,
      scaled by the known weight. */
  lemma {:induction false} WeightedSumBounds(hs: seq<Holding>, quotes: map<string, Quote>, lo: real, hi: real)
    requires forall i :: 0 <= i < |hs| ==> hs[i].code in quotes && Kept(quotes[hs[i].code]) && hs[i].weight >= 0.0
    requires forall i :: 0 <= i < |hs| ==> lo <= Growth(quotes[hs[i].code]) <= hi
    ensures Within(lo, hi, KnownWeight(Details(hs, quotes)), 100.0 * TotalWeightedChange(hs, quotes))
    decreases |hs|
  {
    if |hs| > 0 {
      var n := |hs| - 1;
      var front := hs[..n];
      assert forall i :: 0 <= i < n ==> front[i] == hs[i];
      WeightedSumBounds(front, quotes, lo, hi);
      assert hs[n].code in quotes && Kept(quotes[hs[n].code]) && hs[n].weight >= 0.0;
      assert lo <= Growth(quotes[hs[n].code]) <= hi;
      BoundsStep(hs, quotes, lo, hi);
    } else {
      NoHoldingsBounds(hs, quotes, lo, hi);
    }
  }

  /** `s` lies between `lo` and `hi` times the weight `k`. */
  predicate Within(lo: real, hi: real, k: real, s: real) {
    lo * k <= s <= hi * k
  }

  lemma NoHoldingsBounds(hs: seq<Holding>, quotes: map<string, Quote>, lo: real, hi: real)
    requires |hs| == 0
    ensures KnownWeight(Details(hs, quotes)) == 0.0 && TotalWeightedChange(hs, quotes) == 0.0
    ensures Within(lo, hi, KnownWeight(Details(hs, quotes)), 100.0 * TotalWeightedChange(hs, quotes))
  {
    assert Details(hs, quotes) == [];
  }

  /** The inductive step of `WeightedSumBounds`: bounds on all but the last
      holding extend to all of them. */
  lemma BoundsStep(hs: seq<Holding>, quotes: map<string, Quote>, lo: real, hi: real)
    requires |hs| > 0 && hs[|hs| - 1].code in quotes && Kept(quotes[hs[|hs| - 1].code]) && hs[|hs| - 1].weight >= 0.0
    requires lo <= Growth(quotes[hs[|hs| - 1].code]) <= hi
    requires Within(lo, hi, KnownWeight(Details(hs[..|hs| - 1], quotes)), 100.0 * TotalWeightedChange(hs[..|hs| - 1], quotes))
    ensures Within(lo, hi, KnownWeight(Details(hs, quotes)), 100.0 * TotalWeightedChange(hs, quotes))
  {
    var front := hs[..|hs| - 1];
    var h := hs[|hs| - 1];
    LastKeptStep(hs, quotes);
    AddBounds(lo, hi, KnownWeight(Details(front, quotes)), 100.0 * TotalWeightedChange(front, quotes),
              Growth(quotes[h.code]), h.weight, KnownWeight(Details(hs, quotes)), 100.0 * TotalWeightedChange(hs, quotes));
  }

  /** What a last, kept holding adds to the known weight and to the
      weighted change. */
  lemma LastKeptStep(hs: seq<Holding>, quotes: map<string, Quote>)
    requires |hs| > 0 && hs[|hs| - 1].code in quotes && Kept(quotes[hs[|hs| - 1].code])
    ensures KnownWeight(Details(hs, quotes)) == KnownWeight(Details(hs[..|hs| - 1], quotes)) + hs[|hs| - 1].weight
    ensures 100.0 * TotalWeightedChange(hs, quotes) ==
      100.0 * TotalWeightedChange(hs[..|hs| - 1], quotes) + Growth(quotes[hs[|hs| - 1].code]) * hs[|hs| - 1].weight
  {
    var h := hs[|hs| - 1];
    LastKeptWeight(Details(hs[..|hs| - 1], quotes), DetailOf(h, quotes[h.code]), Details(hs, quotes));
    LastQuotedChange(hs, quotes);
  }

  /** The known weight of two runs of rows is the sum of theirs (the
      `reduce` adds the weights one by one). */
  lemma {:induction false} KnownWeightConcat(a: seq<Detail>, b: seq<Detail>)
    ensures KnownWeight(a + b) == KnownWeight(a) + KnownWeight(b)
    decreases |b|
  {
    if |b| > 0 {
      var front := b[..|b| - 1];
      KnownWeightConcat(a, front);
      LastKeptWeight(a + front, b[|b| - 1], a + b);
      LastKeptWeight(front, b[|b| - 1], b);
    } else {
      assert a + b == a;
    }
  }

  /** One more row adds its weight to the known weight. */
  lemma LastKeptWeight(ds: seq<Detail>, d: Detail, all: seq<Detail>)
    requires all == ds + [d]
    ensures KnownWeight(all) == KnownWeight(ds) + d.weight
  {
    assert all[..|ds|] == ds;
  }

  /** A last, quoted holding adds its growth times its weight to a hundred
      times the weighted change. */
  lemma LastQuotedChange(hs: seq<Holding>, quotes: map<string, Quote>)
    requires |hs| > 0 && hs[|hs| - 1].code in quotes
    ensures 100.0 * TotalWeightedChange(hs, quotes) ==
      100.0 * TotalWeightedChange(hs[..|hs| - 1], quotes) + Growth(quotes[hs[|hs| - 1].code]) * hs[|hs| - 1].weight
  {
    var h := hs[|hs| - 1];
    TotalStep(hs, quotes);
    ContributionOf(h, quotes);
    LastChange(TotalWeightedChange(hs[..|hs| - 1], quotes), Contribution(h, quotes), TotalWeightedChange(hs, quotes),
               Growth(quotes[h.code]), h.weight);
  }

  /** The weighted change adds the last holding's contribution to the rest's. */
  lemma TotalStep(hs: seq<Holding>, quotes: map<string, Quote>)
    requires |hs| > 0
    ensures TotalWeightedChange(hs, quotes) == TotalWeightedChange(hs[..|hs| - 1], quotes) + Contribution(hs[|hs| - 1], quotes)
  {
  }

  /** A quoted holding contributes its growth times its weight, over a hundred. */
  lemma ContributionOf(h: Holding, quotes: map<string, Quote>)
    requires h.code in quotes
    ensures Contribution(h, quotes) * 100.0 == Growth(quotes[h.code]) * h.weight
  {
  }

  /** One more contribution `c` with `100·c = g·w` adds `g·w` to a hundred
      times the sum. */
  lemma LastChange(w0: real, c: real, w: real, g: real, weight: real)
    requires w == w0 + c && c * 100.0 == g * weight
    ensures 100.0 * w == 100.0 * w0 + g * weight
  {
  }

  /** Adding a term `g·w` with `g` in `[lo, hi]` keeps a sum between `lo` and
      `hi` times its weight. */
  lemma AddBounds(lo: real, hi: real, k0: real, s0: real, g: real, w: real, k: real, s: real)
    requires Within(lo, hi, k0, s0) && w >= 0.0 && lo <= g <= hi
    requires k == k0 + w && s == s0 + g * w
    ensures Within(lo, hi, k, s)
  {
    assert (g - lo) * w >= 0.0;
    assert (hi - g) * w >= 0.0;
  }

  /** The renormalised growth rate is a weighted average: when every holding
      is quoted and kept, no weight is negative and the known weight reaches
      the threshold, it lies within the range of the holdings' growth rates. */
  lemma GrowthWithinRange(prevNav: real, direct: Option<DirectEstimate>, hs: seq<Holding>,
                          quotes: map<string, Quote>, lo: real, hi: real)
    requires forall i :: 0 <= i < |hs| ==> hs[i].code in quotes && Kept(quotes[hs[i].code]) && hs[i].weight >= 0.0
    requires forall i :: 0 <= i < |hs| ==> lo <= Growth(quotes[hs[i].code]) <= hi
    requires KnownWeight(Details(hs, quotes)) >= MinKnownWeight
    ensures Combine(prevNav, direct, hs, quotes).Weighted?
    ensures lo <= Combine(prevNav, direct, hs, quotes).growthRate <= hi
  {
    assert |Details(hs, quotes)| > 0;
    WeightedSumBounds(hs, quotes, lo, hi);
    WeightedWithin(prevNav, direct, hs, quotes, lo, hi);
  }

  /** Above the threshold, a weighted change within `lo` and `hi` times the
      known weight gives a growth rate within `lo` and `hi`. */
  lemma WeightedWithin(prevNav: real, direct: Option<DirectEstimate>, hs: seq<Holding>,
                       quotes: map<string, Quote>, lo: real, hi: real)
    requires |Details(hs, quotes)| > 0 && KnownWeight(Details(hs, quotes)) >= MinKnownWeight
    requires Within(lo, hi, KnownWeight(Details(hs, quotes)), 100.0 * TotalWeightedChange(hs, quotes))
    ensures Combine(prevNav, direct, hs, quotes).Weighted?
    ensures lo <= Combine(prevNav, direct, hs, quotes).growthRate <= hi
  {
    CombineAboveThreshold(prevNav, direct, hs, quotes);
    RenormalisedRate(prevNav, TotalWeightedChange(hs, quotes), KnownWeight(Details(hs, quotes)), Details(hs, quotes), lo, hi);
  }

  /** At or above the threshold the estimate is the weighted change over the
      known weight itself. */
  lemma CombineAboveThreshold(prevNav: real, direct: Option<DirectEstimate>, hs: seq<Holding>, quotes: map<string, Quote>)
    requires |Details(hs, quotes)| > 0 && KnownWeight(Details(hs, quotes)) >= MinKnownWeight
    ensures Combine(prevNav, direct, hs, quotes) ==
      Renormalised(prevNav, TotalWeightedChange(hs, quotes), KnownWeight(Details(hs, quotes)), Details(hs, quotes))
  {
    assert Denominator(KnownWeight(Details(hs, quotes))) == KnownWeight(Details(hs, quotes));
  }

  /** Spreading a weighted change `w` with `100·w` within `lo` and `hi`
      times a positive divisor `k` gives a rate within `lo` and `hi`. */
  lemma RenormalisedRate(prevNav: real, w: real, k: real, details: seq<Detail>, lo: real, hi: real)
    requires k > 0.0 && Within(lo, hi, k, 100.0 * w)
    ensures lo <= Renormalised(prevNav, w, k, details).growthRate <= hi
  {
    var r := Renormalised(prevNav, w, k, details);
    BoundByPositive(r.growthRate, k, lo, hi);
  }

  lemma BoundByPositive(x: real, k: real, lo: real, hi: real)
    requires k > 0.0 && Within(lo, hi, k, x * k)
    ensures lo <= x <= hi
  {
  }

  /** The weighted estimate from its ingredients, for computing examples. */
  lemma CombineWeighted(prevNav: real, direct: Option<DirectEstimate>, hs: seq<Holding>, quotes: map<string, Quote>,
                        ds: seq<Detail>, k: real, w: real)
    requires Details(hs, quotes) == ds && |ds| > 0 && KnownWeight(ds) == k && TotalWeightedChange(hs, quotes) == w
    requires k >= MinKnownWeight || direct.None?
    ensures Combine(prevNav, direct, hs, quotes) == Weighted(prevNav * (1.0 + w / Denominator(k)), w / Denominator(k) * 100.0, ds)
  {
    var r := Combine(prevNav, direct, hs, quotes);
    assert r.Weighted?;
    assert r == Renormalised(prevNav, w, Denominator(k), ds);
  }

  /** A quote with a price and the growth given; its name is `name`. */
  function SampleQuote(code: string, name: string, growth: real): Quote {
    Quote(code, code, Some(name), 10.0, Some(10.0), Some(growth), "EOD")
  }

  /** A row dropped by the name filter still adds its change: two half
      weights both up 2 %, one quote without a name, give 4 %, not 2 %. */
  lemma FilteredRowsStillCount()
    ensures var hs := [Holding("sh600000", 0.5), Holding("sz000001", 0.5)];
      var quotes := map["sh600000" := SampleQuote("sh600000", "A", 2.0), "sz000001" := SampleQuote("sz000001", "", 2.0)];
      Combine(1.0, None, hs, quotes) == Weighted(1.04, 4.0, [Detail("sh600000", Some("A"), 10.0, 2.0, 0.5)])
  {
    var a, b := Holding("sh600000", 0.5), Holding("sz000001", 0.5);
    var quotes := map["sh600000" := SampleQuote("sh600000", "A", 2.0), "sz000001" := SampleQuote("sz000001", "", 2.0)];
    var ds := [Detail("sh600000", Some("A"), 10.0, 2.0, 0.5)];
    TwoHoldings(a, b, quotes);
    assert Details([a], quotes) == ds;
    assert Details([b], quotes) == [];
    assert Contribution(a, quotes) == 0.01 && Contribution(b, quotes) == 0.01;
    assert ds[..0] == [];
    CombineWeighted(1.0, None, [a, b], quotes, ds, 0.5, 0.02);
  }

  /** The rows and the weighted change of two holdings. */
  lemma TwoHoldings(a: Holding, b: Holding, quotes: map<string, Quote>)
    ensures Details([a, b], quotes) == Details([a], quotes) + Details([b], quotes)
    ensures TotalWeightedChange([a, b], quotes) == Contribution(a, quotes) + Contribution(b, quotes)
  {
    SingleHolding(a, quotes);
    SingleHolding(b, quotes);
    assert [a, b][..1] == [a];
  }

  /** One holding of 90 % up 1 % on a previous NAV of 3.8: the known weight
      is 0.9, so the fund is estimated up 1 %, at 3.838. */
  lemma RenormalisedExample()
    ensures var hs := [Holding("sz000001", 0.9)];
      var quotes := map["sz000001" := SampleQuote("sz000001", "A", 1.0)];
      Combine(3.8, None, hs, quotes) == Weighted(3.838, 1.0, [Detail("sz000001", Some("A"), 10.0, 1.0, 0.9)])
  {
    var hs := [Holding("sz000001", 0.9)];
    var quotes := map["sz000001" := SampleQuote("sz000001", "A", 1.0)];
    var ds := [Detail("sz000001", Some("A"), 10.0, 1.0, 0.9)];
    SingleHolding(hs[0], quotes);
    assert ds[..0] == [];
    CombineWeighted(3.8, None, hs, quotes, ds, 0.9, 0.009);
  }

  /** Known weight below 5 %: the direct estimate when there is one,
      otherwise the unscaled weighted change (divisor 1). */
  lemma ThresholdExample(e: DirectEstimate)
    ensures var hs := [Holding("sz000001", 0.03)];
      var quotes := map["sz000001" := SampleQuote("sz000001", "A", 2.0)];
      && Combine(1.0, Some(e), hs, quotes) == Direct(Some(e))
      && Combine(1.0, None, hs, quotes) == Weighted(1.0006, 0.06, [Detail("sz000001", Some("A"), 10.0, 2.0, 0.03)])
  {
    var hs := [Holding("sz000001", 0.03)];
    var quotes := map["sz000001" := SampleQuote("sz000001", "A", 2.0)];
    var ds := [Detail("sz000001", Some("A"), 10.0, 2.0, 0.03)];
    SingleHolding(hs[0], quotes);
    assert ds[..0] == [];
    CombineWeighted(1.0, None, hs, quotes, ds, 0.03, 0.0006);
  }

  /** The rows and the weighted change of a single holding. */
  lemma SingleHolding(h: Holding, quotes: map<string, Quote>)
    ensures Details([h], quotes) == if h.code in quotes && Kept(quotes[h.code]) then [DetailOf(h, quotes[h.code])] else []
    ensures TotalWeightedChange([h], quotes) == Contribution(h, quotes)
  {
    assert [h][..0] == [];
  }

  // ---------------------------------------------------------------------
  // The holdings' quote query

  /** The quotes asked for a fund's holdings are their codes, each once, in
      order of first occurrence: normalising them again adds no candidate. */
  lemma HoldingsQuery(hs: seq<Holding>)
    requires forall i :: 0 <= i < |hs| ==> GuessPrefix(hs[i].code) == Single(hs[i].code)
    ensures QueryCodes(Codes(hs)) == Dedup(Codes(hs))
  {
    var cs := Codes(hs);
    var lists := CandidateLists(cs);
    forall i | 0 <= i < |cs|
      ensures lists[i] == Singletons(cs)[i]
    {
      assert GuessPrefix(cs[i]).All() == [cs[i]];
    }
    assert lists == Singletons(cs);
    FlattenSingletons(cs);
  }

  // ---------------------------------------------------------------------
  // One estimate end to end

  /** The upstream services, as functions of what they are asked. */
  datatype Upstreams = Upstreams(
    primary: string -> PrimaryReply,
    fallback: string -> FallbackReply,
    direct: string -> DirectReply,
    decode: string -> Option<GzFields>,
    quotes: string -> Result<string>,
    clock: string)

  /** `calculateRealtimeEstimate(fundCode, prevNav)` with the holdings cache
      threaded through: the estimate and the cache afterwards. */
  function EstimateFund(cache: map<string, seq<Option<Holding>>>, fundCode: string, prevNav: real, up: Upstreams)
    : (r: (Estimate, map<string, seq<Option<Holding>>>))
    ensures r.1 == FetchHoldings(cache, fundCode, up.primary, up.fallback).cache
    ensures fundCode in cache ==> r.1 == cache
    ensures r.0 == CalculateRealtimeEstimate(prevNav, FetchEastMoneyValuation(fundCode, up.direct, up.decode),
                                             FetchHoldings(cache, fundCode, up.primary, up.fallback).holdings, up.quotes, up.clock)
  {
    var direct := FetchEastMoneyValuation(fundCode, up.direct, up.decode);
    var resolved := FetchHoldings(cache, fundCode, up.primary, up.fallback);
    (CalculateRealtimeEstimate(prevNav, direct, resolved.holdings, up.quotes, up.clock), resolved.cache)
  }

  /** Asking twice with the same upstreams gives the same estimate and
      leaves the cache as the first call left it: a stored result is read
      back, an empty one was never stored. */
  lemma EstimateTwice(cache: map<string, seq<Option<Holding>>>, fundCode: string, prevNav: real, up: Upstreams)
    ensures var first := EstimateFund(cache, fundCode, prevNav, up);
      EstimateFund(first.1, fundCode, prevNav, up) == first
  {
    var first := FetchHoldings(cache, fundCode, up.primary, up.fallback);
    if fundCode !in cache && |first.holdings| > 0 {
      SecondLookupHits(cache, fundCode, up.primary, up.fallback);
    }
  }
}
