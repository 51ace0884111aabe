/** The market-code normaliser: a bare numeric code becomes one qualified
    code, or an ordered pair of candidates when the market is ambiguous. */
module StockUtils {
  import opened Text

  /** The namespaces a qualified code can carry. */
  datatype Market = Shanghai | Shenzhen | Beijing | HongKong | OpenEndedFund

  /** The two-letter prefix of each namespace. */
  function Tag(m: Market): (t: string)
    ensures |t| == 2 && 'a' <= t[0] <= 'z' && 'a' <= t[1] <= 'z'
  {
    match m
    case Shanghai => "sh"
    case Shenzhen => "sz"
    case Beijing => "bj"
    case HongKong => "hk"
    case OpenEndedFund => "jj"
  }

  /** What `guessPrefix` returns: a string, or an array of candidates. */
  datatype Guess = Single(code: string) | Candidates(codes: seq<string>) {

    /** The codes to query: the one code, or every candidate in order (what
        `flatMap` makes of the result). */
    function All(): seq<string> {
      match this
      case Single(c) => [c]
      case Candidates(cs) => cs
    }
  }

  /** A non-empty code of digits only: `code && /^\d+$/.test(code)`. */
  predicate IsBare(code: string) {
    |code| > 0 && AllDigits(code)
  }

  /** `guessPrefix(code)`. */
  function GuessPrefix(code: string): (g: Guess)
    ensures !IsBare(code) ==> g == Single(code)
    ensures g.Candidates? <==> IsBare(code) && |code| == 6 && (StartsWith(code, "00") || StartsWith(code, "16"))
    ensures g.Candidates? ==> g.codes == [Tag(Shenzhen) + code, Tag(OpenEndedFund) + code]
    ensures forall c <- g.All() :: c == code || (|c| == |code| + 2 && c[2..] == code && exists m :: c[..2] == Tag(m))
  {
    if !IsBare(code) then Single(code)
    else if |code| == 6 then SixDigitGuess(code)
    else if |code| == 5 then
      Single(Qualify(HongKong, code))
    else
      Single(code)
  }

  /** The rules for six-digit codes, in the order `guessPrefix` tests
      them. */
  function SixDigitGuess(code: string): (g: Guess)
    requires |code| == 6
    ensures g.Candidates? <==> StartsWith(code, "00") || StartsWith(code, "16")
    ensures g.Candidates? ==> g.codes == [Tag(Shenzhen) + code, Tag(OpenEndedFund) + code]
    ensures g.Single? ==> |g.code| == 8 && g.code[2..] == code && exists m :: g.code[..2] == Tag(m)
  {
    if StartsWith(code, "50") || StartsWith(code, "51") || StartsWith(code, "60") || StartsWith(code, "68") then
      Single(Qualify(Shanghai, code))
    else if StartsWith(code, "00") then
      Candidates([Qualify(Shenzhen, code), Qualify(OpenEndedFund, code)])
    else if StartsWith(code, "30") then
      Single(Qualify(Shenzhen, code))
    else if StartsWith(code, "16") then
      Candidates([Qualify(Shenzhen, code), Qualify(OpenEndedFund, code)])
    else if StartsWith(code, "15") then
      Single(Qualify(Shenzhen, code))
    else if StartsWith(code, "83") || StartsWith(code, "87") || StartsWith(code, "43") then
      Single(Qualify(Beijing, code))
    else
      Single(Qualify(OpenEndedFund, code))
  }

  /** The code in namespace `m`. */
  function Qualify(m: Market, code: string): (c: string)
    ensures |c| == |code| + 2 && c[..2] == Tag(m) && c[2..] == code
  {
    Tag(m) + code
  }

  /** The first two digits of six-digit codes of each exchange, and of
      codes listed both on the Shenzhen exchange and as open-ended funds. The
      sets are disjoint, so the order in which the rules are tried does not
      matter. */
  const ShanghaiHeads: set<string> := {"50", "51", "60", "68"}
  const ShenzhenHeads: set<string> := {"30", "15"}
  const BeijingHeads: set<string> := {"83", "87", "43"}
  const DualHeads: set<string> := {"00", "16"}

  /** The namespace of a six-digit code that is not dual-listed, by its
      first two digits; open-ended fund by default. */
  function HeadMarket(head: string): Market {
    if head in ShanghaiHeads then Shanghai
    else if head in ShenzhenHeads then Shenzhen
    else if head in BeijingHeads then Beijing
    else OpenEndedFund
  }

  /** The six-digit rules agree with the head tables: a dual head gives the
      Shenzhen and fund candidates in that order, any other head the single
      code in the namespace its table names. */
  lemma SixDigitRules(code: string)
    requires IsBare(code) && |code| == 6
    ensures GuessPrefix(code) ==
      if code[..2] in DualHeads then Candidates([Tag(Shenzhen) + code, Tag(OpenEndedFund) + code])
      else Single(Tag(HeadMarket(code[..2])) + code)
  {
    assert GuessPrefix(code) == SixDigitGuess(code);
    var head := code[..2];
    if head in DualHeads {
      DualHeadRule(code);
    } else if head in ShanghaiHeads {
      MarketHeadRule(code, Shanghai, ShanghaiHeads);
    } else if head in ShenzhenHeads {
      MarketHeadRule(code, Shenzhen, ShenzhenHeads);
    } else if head in BeijingHeads {
      MarketHeadRule(code, Beijing, BeijingHeads);
    } else {
      OtherHeadRule(code);
    }
  }

  lemma DualHeadRule(code: string)
    requires |code| == 6 && code[..2] in DualHeads
    ensures SixDigitGuess(code) == Candidates([Tag(Shenzhen) + code, Tag(OpenEndedFund) + code])
  {
    HeadRules(code);
  }

  lemma MarketHeadRule(code: string, m: Market, heads: set<string>)
    requires |code| == 6 && code[..2] in heads
    requires || (m == Shanghai && heads == ShanghaiHeads)
             || (m == Shenzhen && heads == ShenzhenHeads)
             || (m == Beijing && heads == BeijingHeads)
    ensures SixDigitGuess(code) == Single(Tag(m) + code)
  {
    HeadRules(code);
  }

  lemma OtherHeadRule(code: string)
    requires |code| == 6
    requires code[..2] !in DualHeads && code[..2] !in ShanghaiHeads && code[..2] !in ShenzhenHeads && code[..2] !in BeijingHeads
    ensures SixDigitGuess(code) == Single(Tag(OpenEndedFund) + code)
  {
    HeadRules(code);
  }

  /** Each test of the first two digits is a comparison of the head. */
  lemma HeadRules(code: string)
    requires |code| == 6
    ensures StartsWith(code, "50") <==> code[..2] == "50"
    ensures StartsWith(code, "51") <==> code[..2] == "51"
    ensures StartsWith(code, "60") <==> code[..2] == "60"
    ensures StartsWith(code, "68") <==> code[..2] == "68"
    ensures StartsWith(code, "00") <==> code[..2] == "00"
    ensures StartsWith(code, "30") <==> code[..2] == "30"
    ensures StartsWith(code, "16") <==> code[..2] == "16"
    ensures StartsWith(code, "15") <==> code[..2] == "15"
    ensures StartsWith(code, "83") <==> code[..2] == "83"
    ensures StartsWith(code, "87") <==> code[..2] == "87"
    ensures StartsWith(code, "43") <==> code[..2] == "43"
  {
  }

  /** Codes of other lengths: five digits are Hong Kong codes, any other
      length passes through. */
  lemma OtherLengths(code: string)
    requires IsBare(code) && |code| != 6
    ensures |code| == 5 ==> GuessPrefix(code) == Single(Tag(HongKong) + code)
    ensures |code| != 5 ==> GuessPrefix(code) == Single(code)
  {
  }

  /** Normalising any produced code again leaves it as it is: a qualified
      code starts with a letter and so is not bare. */
  lemma {:induction false} GuessPrefixIdempotent(code: string)
    ensures forall c <- GuessPrefix(code).All() :: GuessPrefix(c) == Single(c)
  {
    forall c | c in GuessPrefix(code).All()
      ensures GuessPrefix(c) == Single(c)
    {
      if c != code {
        assert 'a' <= c[0] <= 'z' by {
          var m :| c[..2] == Tag(m);
          assert c[0] == c[..2][0];
        }
        assert !IsBare(c);
      }
    }
  }
}
