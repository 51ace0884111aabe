/** The quote client: builds the batched query for a list of codes and parses
    the quote feed's `;`-separated `v_<code>="f0~f1~…"` records into a map from
    full code to quote. */
module FundService {
  import opened Wrappers
  import opened Text
  import opened Seqs
  import opened Numbers
  import opened Patterns
  import opened StockUtils

  /** One parsed quote, stored under its full code. `nav` and `estimatedNav`,
      the fields kept for older callers, are the members `Nav` and
      `EstimatedNav`. */
  datatype Quote = Quote(
    code: string,
    shortCode: string,
    name: Option<string>,
    price: real,
    prevClose: Option<real>,
    growthRate: Option<real>,
    updateTime: string)
  {
    /** `nav`: the previous close. */
    function Nav(): Option<real> {
      prevClose
    }

    /** `estimatedNav`: the price. */
    function EstimatedNav(): real {
      price
    }
  }

  /** The growth rate is the percentage change from the previous close when
      that is a positive number, and 0 when it is not. */
  predicate GrowthConsistent(q: Quote) {
    && (q.prevClose.Some? && q.prevClose.value > 0.0 && q.growthRate.Some? ==>
          q.growthRate.value * q.prevClose.value == (q.price - q.prevClose.value) * 100.0)
    && (q.prevClose.None? || q.prevClose.value <= 0.0 ==> q.growthRate == Some(0.0))
  }

  // ---------------------------------------------------------------------
  // The batched query

  /** The normalised candidates of every code, in input order. */
  function CandidateLists(codes: seq<string>): (r: seq<seq<string>>)
    ensures |r| == |codes|
    ensures forall i :: 0 <= i < |codes| ==> r[i] == GuessPrefix(codes[i]).All()
  {
    seq(|codes|, i requires 0 <= i < |codes| => GuessPrefix(codes[i]).All())
  }

  /** The codes the batch asks for: every candidate of every input code, each
      once, in order of first occurrence. */
  function QueryCodes(codes: seq<string>): (q: seq<string>)
    ensures Distinct(q)
    ensures forall i, c :: 0 <= i < |codes| && c in GuessPrefix(codes[i]).All() ==> c in q
    ensures forall c <- q :: exists i :: 0 <= i < |codes| && c in GuessPrefix(codes[i]).All()
    ensures InFirstOccurrenceOrder(q, Flatten(CandidateLists(codes)))
  {
    var lists := CandidateLists(codes);
    DedupKeepsFirstOccurrenceOrder(Flatten(lists));
    Dedup(Flatten(lists))
  }

  /** An ambiguous code followed by a Shanghai code: the first code's two
      candidates in order, then the second code's one (for instance
      `000001, 600519` asks for `sz000001, jj000001, sh600519`). */
  lemma QueryOfTwo(a: string, b: string)
    requires IsBare(a) && |a| == 6 && a[..2] == "00"
    requires IsBare(b) && |b| == 6 && b[..2] == "60"
    ensures QueryCodes([a, b]) == [Tag(Shenzhen) + a, Tag(OpenEndedFund) + a, Tag(Shanghai) + b]
  {
    var x, y, z := Tag(Shenzhen) + a, Tag(OpenEndedFund) + a, Tag(Shanghai) + b;
    assert GuessPrefix(a).All() == [x, y] by {
      assert a[..2] in DualHeads;
      SixDigitRules(a);
    }
    assert GuessPrefix(b).All() == [z] by {
      assert b[..2] !in DualHeads && HeadMarket(b[..2]) == Shanghai;
      SixDigitRules(b);
    }
    var lists := CandidateLists([a, b]);
    assert lists[0] == [x, y] && lists[1] == [z];
    FlattenPair(lists);
    assert [x, y] + [z] == [x, y, z];
    assert x[..2] == "sz" && y[..2] == "jj" && z[..2] == "sh";
    ThreeDistinct(x, y, z);
    DedupOfDistinct([x, y, z]);
  }

  lemma ThreeDistinct(x: string, y: string, z: string)
    requires |x| >= 2 && |y| >= 2 && |z| >= 2
    requires x[..2] == "sz" && y[..2] == "jj" && z[..2] == "sh"
    ensures Distinct([x, y, z])
  {
    assert x[0] != y[0] && x[1] != z[1] && y[0] != z[0];
  }

  /** The query string of `fetchFundValuations`, or None when the code list is
      empty and no request is made. Splitting the query on commas gives back
      the queried codes when no input code holds a comma. */
  function BuildQuery(codes: seq<string>): (q: Option<string>)
    ensures q.None? <==> |codes| == 0
    ensures q.Some? && (forall c <- codes :: ',' !in c) ==> Split(q.value, ',') == QueryCodes(codes)
  {
    if |codes| == 0 then None
    else
      var parts := QueryCodes(codes);
      QueryParts(codes);
      Some(Join(parts, ','))
  }

  lemma QueryParts(codes: seq<string>)
    requires |codes| > 0
    ensures (forall c <- codes :: ',' !in c) ==> Split(Join(QueryCodes(codes), ','), ',') == QueryCodes(codes)
  {
    var parts := QueryCodes(codes);
    assert GuessPrefix(codes[0]).All()[0] in parts;
    if forall c <- codes :: ',' !in c {
      forall p <- parts
        ensures ',' !in p
      {
        var i :| 0 <= i < |codes| && p in GuessPrefix(codes[i]).All();
        CandidateChars(codes[i], p);
      }
      SplitJoin(parts, ',');
    }
  }

  /** A candidate holds only the code's characters and a letter prefix. */
  lemma CandidateChars(code: string, c: string)
    requires c == code || (|c| == |code| + 2 && c[2..] == code && exists m :: c[..2] == Tag(m))
    requires ',' !in code
    ensures ',' !in c
  {
    if c != code {
      assert c == c[..2] + c[2..];
      var m :| c[..2] == Tag(m);
    }
  }

  // ---------------------------------------------------------------------
  // One record

  /** The text `v_<code>="<data>"` occurs in `line` at index `i` as the
      pattern `v_([a-zA-Z0-9]+)="(.*)"` would match it. */
  predicate RecordAt(line: string, i: nat, code: string, data: string) {
    && |code| > 0 && AllAlnum(code) && NoLineTerminator(data)
    && OccursAt(line, "v_" + code + "=\"" + data + "\"", i)
  }

  /** The record pattern matched at index `i`: the longest alphanumeric code,
      then `="`, then everything up to the last `"` before the line ends. */
  function MatchAt(line: string, i: nat): (m: Option<(string, string)>)
    requires i <= |line|
    ensures m.Some? ==> RecordAt(line, i, m.value.0, m.value.1)
    ensures m.Some? ==> forall p :: i + |m.value.0| + 4 <= p < |line| && line[p] == '"' && NoLineTerminator(line[i + |m.value.0| + 4..p]) ==>
                          p <= i + |m.value.0| + 4 + |m.value.1|
  {
    if i + 2 <= |line| && line[i] == 'v' && line[i + 1] == '_' then
      var j := AlnumRun(line, i + 2);
      if j > i + 2 && j + 2 <= |line| && line[j] == '=' && line[j + 1] == '"' then
        match GreedyCapture(line, j + 2, '"')
        case Some(k) =>
          MatchAtSound(line, i, j, k);
          Some((line[i + 2..j], line[j + 2..k]))
        case None => None
      else None
    else None
  }

  lemma MatchAtSound(line: string, i: nat, j: nat, k: nat)
    requires i + 2 < j && j + 2 <= k < |line|
    requires line[i] == 'v' && line[i + 1] == '_' && line[j] == '=' && line[j + 1] == '"' && line[k] == '"'
    requires AllAlnum(line[i + 2..j]) && NoLineTerminator(line[j + 2..k])
    ensures RecordAt(line, i, line[i + 2..j], line[j + 2..k])
  {
    var code := line[i + 2..j];
    var data := line[j + 2..k];
    var text := "v_" + code + "=\"" + data + "\"";
    assert |text| == k + 1 - i;
    forall p | 0 <= p < |text|
      ensures line[i..k + 1][p] == text[p]
    {
      if p < 2 {
      } else if p < j - i {
        assert text[p] == code[p - 2];
      } else if p < j - i + 2 {
      } else if p < k - i {
        assert text[p] == data[p - (j - i + 2)];
      }
    }
    assert line[i..k + 1] == text;
  }

  /** The leftmost match at or after index `i`. */
  function MatchFrom(line: string, i: nat): (m: Option<(string, string)>)
    requires i <= |line|
    ensures m.Some? ==> exists p :: i <= p <= |line| && RecordAt(line, p, m.value.0, m.value.1)
    ensures m.Some? ==> exists p :: i <= p <= |line| && MatchAt(line, p) == m && NoMatchIn(line, i, p)
    ensures m.None? ==> NoMatchIn(line, i, |line| + 1)
    decreases |line| - i
  {
    match MatchAt(line, i)
    case Some(m) =>
      assert NoMatchIn(line, i, i);
      Some(m)
    case None =>
      NoMatchStep(line, i);
      if i == |line| then None else MatchFrom(line, i + 1)
  }

  /** No match at `i` extends every match-free range that starts just after it. */
  lemma NoMatchStep(line: string, i: nat)
    requires i <= |line| && MatchAt(line, i).None?
    ensures forall p :: i + 1 <= p <= |line| + 1 && NoMatchIn(line, i + 1, p) ==> NoMatchIn(line, i, p)
    ensures NoMatchIn(line, i, i + 1)
  {
  }

  /** The pattern matches at no index in `[i, p)`. */
  predicate NoMatchIn(line: string, i: nat, p: nat)
    requires p <= |line| + 1
  {
    forall q :: i <= q < p ==> MatchAt(line, q).None?
  }

  /** `line.match(/v_([a-zA-Z0-9]+)="(.*)"/)`: the code and the data of the
      leftmost match. */
  function MatchRecord(line: string): (m: Option<(string, string)>)
    ensures m.Some? ==> exists p :: 0 <= p <= |line| && RecordAt(line, p, m.value.0, m.value.1)
  {
    MatchFrom(line, 0)
  }

  /** The match is the leftmost occurrence of the pattern, and there is one
      whenever the pattern occurs anywhere in the line. */
  lemma MatchRecordLeftmost(line: string)
    ensures MatchRecord(line).Some? ==> exists p :: 0 <= p <= |line| && RecordAt(line, p, MatchRecord(line).value.0, MatchRecord(line).value.1)
                                                    && forall q, code, data :: 0 <= q < p ==> !RecordAt(line, q, code, data)
    ensures MatchRecord(line).None? ==> forall q, code, data :: 0 <= q <= |line| ==> !RecordAt(line, q, code, data)
  {
    var m := MatchRecord(line);
    if m.Some? {
      var p :| 0 <= p <= |line| && MatchAt(line, p) == m && NoMatchIn(line, 0, p);
      assert RecordAt(line, p, m.value.0, m.value.1);
      NoMatchNoRecord(line, 0, p);
    } else {
      NoMatchNoRecord(line, 0, |line| + 1);
    }
  }

  /** Where matching fails at every index, the pattern occurs at none. */
  lemma NoMatchNoRecord(line: string, i: nat, p: nat)
    requires p <= |line| + 1 && NoMatchIn(line, i, p)
    ensures forall q, code, data :: i <= q < p ==> !RecordAt(line, q, code, data)
  {
    forall q, code, data | i <= q < p && RecordAt(line, q, code, data)
      ensures MatchAt(line, q).Some?
    {
      MatchAtComplete(line, q, code, data);
    }
  }

  /** Wherever the pattern occurs, matching at that index succeeds, with
      that code. */
  lemma MatchAtComplete(line: string, i: nat, code: string, data: string)
    requires RecordAt(line, i, code, data)
    ensures MatchAt(line, i).Some? && MatchAt(line, i).value.0 == code
  {
    var text := "v_" + code + "=\"" + data + "\"";
    var j := i + 2 + |code|;
    var k := j + 2 + |data|;
    assert k + 1 == i + |text| <= |line|;
    forall p | 0 <= p < |text|
      ensures line[i + p] == text[p]
    {
      assert line[i..i + |text|][p] == text[p];
    }
    forall q | 0 <= q < |code|
      ensures line[i + 2..j][q] == code[q]
    {
      assert text[2 + q] == code[q];
    }
    forall q | 0 <= q < |data|
      ensures line[j + 2..k][q] == data[q]
    {
      assert text[j + 2 - i + q] == data[q];
    }
    assert line[i + 2..j] == code;
    assert line[j + 2..k] == data;
    assert line[i] == 'v' && line[i + 1] == '_';
    assert line[j] == text[j - i] == '=';
    assert line[j + 1] == text[j + 1 - i] == '"';
    assert line[k] == text[k - i] == '"';
    AlnumRunOf(line, i + 2, j);
    var g := GreedyCapture(line, j + 2, '"');
    assert g.Some?;
  }

  /** The pattern is found whenever it occurs somewhere in the line. */
  lemma {:induction false} MatchFromComplete(line: string, i: nat, p: nat, code: string, data: string)
    requires i <= p && RecordAt(line, p, code, data)
    ensures MatchFrom(line, i).Some?
    decreases p - i
  {
    if MatchAt(line, i).None? {
      if i == p {
        MatchAtComplete(line, p, code, data);
      } else {
        MatchFromComplete(line, i + 1, p, code, data);
      }
    }
  }

  /** A line that is exactly one record yields its code and its data. */
  lemma MatchRecordExact(code: string, data: string)
    requires |code| > 0 && AllAlnum(code) && NoLineTerminator(data)
    ensures MatchRecord("v_" + code + "=\"" + data + "\"") == Some((code, data))
  {
    var line := "v_" + code + "=\"" + data + "\"";
    var j := 2 + |code|;
    var k := |line| - 1;
    assert line[2..j] == code;
    assert line[j + 2..k] == data;
    assert line[0] == 'v' && line[1] == '_' && line[j] == '=' && line[j + 1] == '"' && line[k] == '"';
    AlnumRunOf(line, 2, j);
    GreedyToEnd(line, j + 2, '"');
    MatchAtValue(line, 0, j, k);
  }

  /** The match at `i` when the code runs to `j` and the capture to `k`. */
  lemma MatchAtValue(line: string, i: nat, j: nat, k: nat)
    requires i + 2 < j && j + 2 <= k < |line|
    requires line[i] == 'v' && line[i + 1] == '_' && line[j] == '=' && line[j + 1] == '"'
    requires AlnumRun(line, i + 2) == j && GreedyCapture(line, j + 2, '"') == Some(k)
    ensures MatchAt(line, i) == Some((line[i + 2..j], line[j + 2..k]))
  {
  }

  /** The marker of a record for an unknown code. */
  const NoMatchMarker: string := "v_pv_none_match"

  /** The code and the `~`-separated fields of one `;`-separated segment, or
      None when the segment is blank, is the no-match marker or does not hold
      the record pattern. */
  function RecordFields(segment: string): (r: Option<(string, seq<string>)>)
    ensures r.Some? ==> |r.value.0| > 0 && AllAlnum(r.value.0) && |r.value.1| >= 1
    ensures r.Some? ==> exists p, data :: RecordAt(Trim(segment), p, r.value.0, data) && r.value.1 == Split(data, '~')
    ensures r.Some? ==> MatchRecord(Trim(segment)).Some? && MatchRecord(Trim(segment)).value.0 == r.value.0
                        && r.value.1 == Split(MatchRecord(Trim(segment)).value.1, '~')
    ensures Trim(segment) == [] || Contains(Trim(segment), NoMatchMarker) ==> r.None?
  {
    var line := Trim(segment);
    if line == [] || Contains(line, NoMatchMarker) then None
    else
      match MatchRecord(line)
      case None => None
      case Some((code, data)) => Some((code, Split(data, '~')))
  }

  /** Every segment that holds the record pattern, and is not the no-match
      marker, yields fields. */
  lemma RecordFieldsComplete(segment: string, p: nat, code: string, data: string)
    requires RecordAt(Trim(segment), p, code, data) && !Contains(Trim(segment), NoMatchMarker)
    ensures RecordFields(segment).Some?
  {
    MatchFromComplete(Trim(segment), 0, p, code, data);
  }

  /** Field `i`, or None past the end (JavaScript's `undefined`). */
  function Field(parts: seq<string>, i: nat): (f: Option<string>)
    ensures f.Some? <==> i < |parts|
    ensures f.Some? ==> f.value == parts[i]
  {
    if i < |parts| then Some(parts[i]) else None
  }

  /** Records under a `jj` code are open-ended-fund records. */
  predicate IsFundCode(code: string) {
    StartsWith(code, Tag(OpenEndedFund))
  }

  /** A fund record: bare code at 0, name at 1, latest NAV at 5 (parsed as
      `nav`), its date at 8. The feed gives no intraday change for funds, so
      the previous close is the NAV and the growth rate is 0. */
  function FundQuote(code: string, parts: seq<string>, nav: Option<real>): (q: Quote)
    requires |parts| >= 1
    ensures GrowthConsistent(q)
    ensures q.code == code && q.shortCode == parts[0] && q.name == Field(parts, 1)
    ensures q.prevClose == nav && q.price == nav.GetOr(0.0) && q.growthRate == Some(0.0)
    ensures q.updateTime == if 8 < |parts| && parts[8] != "" then parts[8] else "EOD"
  {
    var date := Field(parts, 8);
    Quote(code, parts[0], Field(parts, 1), nav.GetOr(0.0), nav, Some(0.0),
          if date.Some? && date.value != "" then date.value else "EOD")
  }

  /** An equity record: name at 1, bare code at 2, price at 3 and previous
      close at 4 (parsed as `price` and `prev`); the growth rate is the
      percentage change when the previous close is positive (NaN when the
      price is not a number), 0 otherwise. */
  function EquityQuote(code: string, parts: seq<string>, price: Option<real>, prev: Option<real>, clock: string): (q: Quote)
    requires |parts| >= 5
    ensures GrowthConsistent(q)
    ensures q.code == code && q.shortCode == parts[2] && q.name == Some(parts[1])
    ensures q.prevClose == prev && q.price == price.GetOr(0.0)
    ensures q.growthRate.None? <==> prev.Some? && prev.value > 0.0 && price.None?
    ensures q.updateTime == clock
  {
    var growth :=
      if prev.Some? && prev.value > 0.0 then
        if price.Some? then Some(ChangePercent(price.value, prev.value)) else None
      else Some(0.0);
    Quote(code, parts[2], Some(parts[1]), price.GetOr(0.0), prev, growth, clock)
  }

  /** `((price - prev) / prev) * 100` */
  function ChangePercent(price: real, prev: real): (r: real)
    requires prev > 0.0
    ensures r * prev == (price - prev) * 100.0
  {
    (price - prev) / prev * 100.0
  }

  /** An entry whose quote is stored under its own code, a non-empty
      alphanumeric one, and whose growth rate agrees with its prices. */
  predicate WellKeyed(e: Option<(string, Quote)>) {
    e.Some? ==> e.value.1.code == e.value.0 && GrowthConsistent(e.value.1) && |e.value.0| > 0 && AllAlnum(e.value.0)
  }

  /** One segment's entry: its full code and quote, or None when the segment
      is dropped (no record, or an equity record of fewer than five fields). */
  function ParseRecord(segment: string, clock: string): (r: Option<(string, Quote)>)
    ensures r.Some? <==> RecordFields(segment).Some? && (IsFundCode(RecordFields(segment).value.0) || |RecordFields(segment).value.1| >= 5)
    ensures r.Some? ==> r.value.0 == RecordFields(segment).value.0
    ensures WellKeyed(r)
  {
    match RecordFields(segment)
    case None => None
    case Some((code, parts)) =>
      if IsFundCode(code) then Some((code, FundQuote(code, parts, ParseFloatOpt(Field(parts, 5)))))
      else if |parts| < 5 then None
      else Some((code, EquityQuote(code, parts, ParseFloat(parts[3]), ParseFloat(parts[4]), clock)))
  }

  /** The record line for a full code and its fields. */
  function RecordLine(code: string, fields: seq<string>): string {
    "v_" + code + "=\"" + Join(fields, '~') + "\""
  }

  /** Parsing a rendered equity record, with any white space around it (the
      feed puts a line break before every record after the first), gives
      back its code and the quote of its fields. */
  lemma EquityRecordRoundTrip(ws: string, code: string, fields: seq<string>, ws2: string, clock: string)
    requires forall i :: 0 <= i < |ws| ==> IsSpace(ws[i])
    requires forall i :: 0 <= i < |ws2| ==> IsSpace(ws2[i])
    requires |code| > 0 && AllAlnum(code) && !IsFundCode(code)
    requires |fields| >= 5 && forall f <- fields :: '~' !in f && NoLineTerminator(f)
    requires !Contains(RecordLine(code, fields), NoMatchMarker)
    ensures ParseRecord(ws + RecordLine(code, fields) + ws2, clock) ==
      Some((code, EquityQuote(code, fields, ParseFloat(fields[3]), ParseFloat(fields[4]), clock)))
  {
    RecordLineFields(ws, code, fields, ws2);
  }

  /** Parsing a rendered fund record, with any white space around it, gives
      back its code and the quote of its fields. */
  lemma FundRecordRoundTrip(ws: string, code: string, fields: seq<string>, ws2: string, clock: string)
    requires forall i :: 0 <= i < |ws| ==> IsSpace(ws[i])
    requires forall i :: 0 <= i < |ws2| ==> IsSpace(ws2[i])
    requires |code| > 0 && AllAlnum(code) && IsFundCode(code)
    requires |fields| >= 1 && forall f <- fields :: '~' !in f && NoLineTerminator(f)
    requires !Contains(RecordLine(code, fields), NoMatchMarker)
    ensures ParseRecord(ws + RecordLine(code, fields) + ws2, clock) ==
      Some((code, FundQuote(code, fields, ParseFloatOpt(Field(fields, 5)))))
  {
    RecordLineFields(ws, code, fields, ws2);
  }

  /** A rendered record's segment, with any white space around it, gives
      back its code and fields. */
  lemma RecordLineFields(ws: string, code: string, fields: seq<string>, ws2: string)
    requires forall i :: 0 <= i < |ws| ==> IsSpace(ws[i])
    requires forall i :: 0 <= i < |ws2| ==> IsSpace(ws2[i])
    requires |code| > 0 && AllAlnum(code)
    requires |fields| >= 1 && forall f <- fields :: '~' !in f && NoLineTerminator(f)
    requires !Contains(RecordLine(code, fields), NoMatchMarker)
    ensures RecordFields(ws + RecordLine(code, fields) + ws2) == Some((code, fields))
  {
    var line := RecordLine(code, fields);
    var data := Join(fields, '~');
    RecordLineMatch(code, fields);
    TrimPadded(ws, line, ws2);
    assert forall i :: 0 <= i < |fields| ==> '~' !in fields[i];
    SplitJoin(fields, '~');
    assert RecordFields(ws + line + ws2) == Some((code, Split(data, '~')));
  }

  /** A rendered record is already trimmed and matches as a whole. */
  lemma RecordLineMatch(code: string, fields: seq<string>)
    requires |code| > 0 && AllAlnum(code)
    requires forall f <- fields :: NoLineTerminator(f)
    ensures |RecordLine(code, fields)| > 0
    ensures !IsSpace(RecordLine(code, fields)[0]) && !IsSpace(RecordLine(code, fields)[|RecordLine(code, fields)| - 1])
    ensures Trim(RecordLine(code, fields)) == RecordLine(code, fields)
    ensures MatchRecord(RecordLine(code, fields)) == Some((code, Join(fields, '~')))
  {
    var data := Join(fields, '~');
    var line := "v_" + code + "=\"" + data + "\"";
    assert line == RecordLine(code, fields);
    JoinKeepsLines(fields, '~');
    assert line[0] == 'v' && line[|line| - 1] == '"';
    assert !IsSpace(line[0]) && !IsSpace(line[|line| - 1]);
    MatchRecordExact(code, data);
  }

  /** Joining lines with a separator that is not a line terminator gives a line. */
  lemma {:induction false} JoinKeepsLines(parts: seq<string>, sep: char)
    requires !IsLineTerminator(sep) && forall p <- parts :: NoLineTerminator(p)
    ensures NoLineTerminator(Join(parts, sep))
    decreases |parts|
  {
    if |parts| == 1 {
      assert parts[0] in parts;
    } else if |parts| > 1 {
      assert forall p <- parts[1..] :: p in parts;
      JoinKeepsLines(parts[1..], sep);
      var rest := Join(parts[1..], sep);
      var s := parts[0] + [sep] + rest;
      assert Join(parts, sep) == s;
      assert NoLineTerminator(parts[0]) by {
        assert parts[0] in parts;
      }
      forall i | 0 <= i < |s|
        ensures !IsLineTerminator(s[i])
      {
        if i < |parts[0]| {
          assert s[i] == parts[0][i];
        } else if i == |parts[0]| {
          assert s[i] == sep;
        } else {
          assert s[i] == rest[i - |parts[0]| - 1];
        }
      }
    }
  }

  // ---------------------------------------------------------------------
  // The whole response

  /** The entry of every segment, in order. */
  function Entries(segments: seq<string>, clock: string): (es: seq<Option<(string, Quote)>>)
    ensures |es| == |segments|
    ensures forall i :: 0 <= i < |segments| ==> es[i] == ParseRecord(segments[i], clock)
  {
    seq(|segments|, i requires 0 <= i < |segments| => ParseRecord(segments[i], clock))
  }

  /** No later entry is stored under the same code as entry `i`. */
  predicate LastOfKey(entries: seq<Option<(string, Quote)>>, i: nat)
    requires i < |entries| && entries[i].Some?
  {
    forall j :: i < j < |entries| && entries[j].Some? ==> entries[j].value.0 != entries[i].value.0
  }

  /** The entries stored one after another into a map: each code ends up
      with the quote of its last entry. */
  function Collect(entries: seq<Option<(string, Quote)>>): (r: map<string, Quote>)
    ensures forall k <- r :: exists i :: 0 <= i < |entries| && entries[i] == Some((k, r[k]))
    ensures forall i :: 0 <= i < |entries| && entries[i].Some? && LastOfKey(entries, i) ==>
      entries[i].value.0 in r && r[entries[i].value.0] == entries[i].value.1
  {
    if |entries| == 0 then map[]
    else
      var front := entries[..|entries| - 1];
      var acc := Collect(front);
      assert forall i :: 0 <= i < |front| ==> front[i] == entries[i];
      match entries[|entries| - 1]
      case None => acc
      case Some((k, q)) => acc[k := q]
  }

  /** `parseTencentData(text)` */
  function ParseTencentData(text: string, clock: string): (r: map<string, Quote>)
    ensures forall k <- r :: r[k].code == k && GrowthConsistent(r[k]) && |k| > 0 && AllAlnum(k)
  {
    var r := Collect(Entries(Split(text, ';'), clock));
    EntriesSound(Split(text, ';'), clock, r);
    r
  }

  lemma EntriesSound(segments: seq<string>, clock: string, r: map<string, Quote>)
    requires r == Collect(Entries(segments, clock))
    ensures forall k <- r :: r[k].code == k && GrowthConsistent(r[k]) && |k| > 0 && AllAlnum(k)
  {
    var es := Entries(segments, clock);
    forall k <- r
      ensures r[k].code == k && GrowthConsistent(r[k]) && |k| > 0 && AllAlnum(k)
    {
      var i :| 0 <= i < |es| && es[i] == Some((k, r[k]));
      assert WellKeyed(es[i]);
    }
  }

  /** Parsing two responses joined by `;` is parsing each, the second's
      entries replacing the first's under the same code. */
  lemma ParseConcat(a: string, b: string, clock: string)
    ensures ParseTencentData(a + ";" + b, clock) == ParseTencentData(a, clock) + ParseTencentData(b, clock)
  {
    assert a + ";" + b == a + [';'] + b;
    SplitAround(a, b, ';');
    var xs := Split(a, ';');
    var ys := Split(b, ';');
    assert Entries(xs + ys, clock) == Entries(xs, clock) + Entries(ys, clock);
    CollectConcat(Entries(xs, clock), Entries(ys, clock));
  }

  lemma {:induction false} CollectConcat(xs: seq<Option<(string, Quote)>>, ys: seq<Option<(string, Quote)>>)
    ensures Collect(xs + ys) == Collect(xs) + Collect(ys)
    decreases |ys|
  {
    if |ys| == 0 {
      assert xs + ys == xs;
    } else {
      var front := ys[..|ys| - 1];
      var last := ys[|ys| - 1];
      assert ys == front + [last];
      assert xs + ys == (xs + front) + [last];
      CollectConcat(xs, front);
      CollectSnoc(xs + front, last);
      CollectSnoc(front, last);
      if last.Some? {
        UpdateUnion(Collect(xs), Collect(front), last.value.0, last.value.1);
      }
    }
  }

  /** Storing one more entry. */
  lemma CollectSnoc(es: seq<Option<(string, Quote)>>, e: Option<(string, Quote)>)
    ensures Collect(es + [e]) == if e.Some? then Collect(es)[e.value.0 := e.value.1] else Collect(es)
  {
    assert (es + [e])[..|es + [e]| - 1] == es;
  }

  lemma UpdateUnion<K, V>(a: map<K, V>, b: map<K, V>, k: K, v: V)
    ensures (a + b)[k := v] == a + b[k := v]
  {
  }

  /** A response of one well-formed record and one malformed one has exactly
      one entry. */
  lemma OneValidOneMalformed(good: string, bad: string, clock: string)
    requires ';' !in good && ';' !in bad
    requires ParseRecord(good, clock).Some? && ParseRecord(bad, clock).None?
    ensures ParseTencentData(good + ";" + bad, clock).Keys == {ParseRecord(good, clock).value.0}
  {
    ParseConcat(good, bad, clock);
    ParseSingle(good, clock);
    ParseSingle(bad, clock);
  }

  /** A response without `;` is one segment. */
  lemma ParseSingle(segment: string, clock: string)
    requires ';' !in segment
    ensures ParseTencentData(segment, clock) ==
      match ParseRecord(segment, clock)
      case None => map[]
      case Some((k, q)) => map[k := q]
  {
    assert Split(segment, ';') == [segment];
    var es := Entries([segment], clock);
    assert es == [] + [es[0]];
    CollectSnoc([], es[0]);
  }

  // ---------------------------------------------------------------------
  // Fetching

  /** `fetchFundValuations(codes)`: an empty list gives an empty map without
      a request; otherwise the quote source is asked for the query and its
      text, when it answers, is parsed. A failed request fails the call. */
  function FetchFundValuations(codes: seq<string>, source: string -> Result<string>, clock: string): (r: Result<map<string, Quote>>)
    ensures |codes| == 0 ==> r == Ok(map[])
    ensures r.Failed? <==> |codes| > 0 && source(BuildQuery(codes).value).Failed?
    ensures r.Ok? ==> forall k <- r.value :: r.value[k].code == k && GrowthConsistent(r.value[k])
    ensures r.Ok? && |codes| > 0 ==> r.value == ParseTencentData(source(BuildQuery(codes).value).value, clock)
  {
    match BuildQuery(codes)
    case None => Ok(map[])
    case Some(query) =>
      match source(query)
      case Failed => Failed
      case Ok(text) => Ok(ParseTencentData(text, clock))
  }

  /** `fetchFundValuation(code)`: the entry stored under exactly `code`, if any. */
  function FetchFundValuation(code: string, source: string -> Result<string>, clock: string): (r: Result<Option<Quote>>)
    ensures r.Failed? <==> source(BuildQuery([code]).value).Failed?
    ensures r.Ok? && r.value.Some? ==> r.value.value.code == code
    ensures r.Ok? ==> (r.value.Some? <==> code in FetchFundValuations([code], source, clock).value)
    ensures r.Ok? && r.value.Some? ==> r.value.value == FetchFundValuations([code], source, clock).value[code]
  {
    match FetchFundValuations([code], source, clock)
    case Failed => Failed
    case Ok(quotes) => Ok(if code in quotes then Some(quotes[code]) else None)
  }

  /** A qualified code is asked for as it is. */
  lemma QueryOfQualified(code: string)
    requires |code| > 0 && !IsBare(code)
    ensures BuildQuery([code]) == Some(code)
  {
    assert CandidateLists([code]) == [[code]];
    FlattenOne([code]);
    DedupOfDistinct([code]);
  }

  /** Asking for a qualified equity code whose record comes back gives that
      record's quote. */
  lemma FetchEquityRecord(code: string, fields: seq<string>, source: string -> Result<string>, clock: string)
    requires |code| > 0 && AllAlnum(code) && !IsBare(code) && !IsFundCode(code)
    requires |fields| >= 5 && forall f <- fields :: '~' !in f && NoLineTerminator(f)
    requires ';' !in RecordLine(code, fields) && !Contains(RecordLine(code, fields), NoMatchMarker)
    requires source(code) == Ok(RecordLine(code, fields))
    ensures FetchFundValuation(code, source, clock) ==
      Ok(Some(EquityQuote(code, fields, ParseFloat(fields[3]), ParseFloat(fields[4]), clock)))
  {
    QueryOfQualified(code);
    var line := RecordLine(code, fields);
    assert ParseRecord(line, clock) == Some((code, EquityQuote(code, fields, ParseFloat(fields[3]), ParseFloat(fields[4]), clock))) by {
      EquityRecordRoundTrip("", code, fields, "", clock);
      Unpadded(line);
    }
    ParseSingle(line, clock);
  }

  /** A reply that is only the no-match marker gives no quote. */
  lemma FetchUnknown(code: string, source: string -> Result<string>, clock: string, reply: string)
    requires |code| > 0 && !IsBare(code)
    requires ';' !in reply && Contains(Trim(reply), NoMatchMarker)
    requires source(code) == Ok(reply)
    ensures FetchFundValuation(code, source, clock) == Ok(None)
  {
    QueryOfQualified(code);
    ParseSingle(reply, clock);
  }

  /** Two segments in the feed's layout, each holding one record under its
      own code, give exactly those two entries. */
  lemma ReplyOfTwo(s1: string, s2: string, clock: string, k1: string, q1: Quote, k2: string, q2: Quote)
    requires ';' !in s1 && ';' !in s2
    requires ParseRecord(s1, clock) == Some((k1, q1)) && ParseRecord("\n" + s2, clock) == Some((k2, q2))
    requires k1 != k2
    ensures ParseTencentData(s1 + ";\n" + s2 + ";\n", clock) == map[k1 := q1, k2 := q2]
  {
    assert ParseTencentData(s1, clock) == map[k1 := q1] by {
      ParseSingle(s1, clock);
    }
    LastSegment(s2, clock, k2, q2);
    ReplyOfTwoShape(s1, s2);
    ParseConcat(s1, "\n" + s2 + ";\n", clock);
    MapOfTwo(k1, q1, k2, q2);
  }

  /** A segment after a line break, closed by `;` and the reply's final line
      break, gives its one entry. */
  lemma LastSegment(s2: string, clock: string, k2: string, q2: Quote)
    requires ';' !in s2 && ParseRecord("\n" + s2, clock) == Some((k2, q2))
    ensures ParseTencentData("\n" + s2 + ";\n", clock) == map[k2 := q2]
  {
    var b := "\n" + s2;
    assert ';' !in b;
    ParseSingle(b, clock);
    ParseThenBlank(b, clock);
  }

  lemma ReplyOfTwoShape(a: string, l: string)
    ensures a + ";\n" + l + ";\n" == a + ";" + (("\n" + l) + ";\n")
  {
  }

  lemma MapOfTwo<K, V>(k1: K, v1: V, k2: K, v2: V)
    requires k1 != k2
    ensures map[k1 := v1] + map[k2 := v2] == map[k1 := v1, k2 := v2]
  {
  }

  /** The line break after a reply's last `;` adds no entry. */
  lemma ParseThenBlank(segment: string, clock: string)
    requires ';' !in segment
    ensures ParseTencentData(segment + ";\n", clock) == ParseTencentData(segment, clock)
  {
    BlankReply("\n", clock);
    assert segment + ";\n" == segment + ";" + "\n" by {
      ThenBreak(segment);
    }
    ParseConcat(segment, "\n", clock);
    MapUnionEmpty(ParseTencentData(segment, clock));
  }

  lemma ThenBreak(segment: string)
    ensures segment + ";\n" == segment + ";" + "\n"
  {
  }

  lemma MapUnionEmpty<K, V>(m: map<K, V>)
    ensures m + map[] == m
  {
  }

  /** A reply of white space only has no entry. */
  lemma BlankReply(text: string, clock: string)
    requires forall i :: 0 <= i < |text| ==> IsSpace(text[i])
    ensures ParseTencentData(text, clock) == map[]
  {
    assert ';' !in text;
    assert Trim(text) == [];
    ParseSingle(text, clock);
  }
}
