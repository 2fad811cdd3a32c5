/**
 * The modem's parser of AT command responses, as the machine it is: `__at_res_parse` carries a
 * state through tail calls, collects one parameter at a time in `parse_buf`, and fills
 * `at_res_list`. The end of the text stands for its terminating zero.
 */
module AtGrammar {
  import opened Bytes

  const AT_MAX_PARAMS := 42
  const PARSE_BUF := 129

  /** The size of the result list in bytes: 42 structures of 144. */
  const LIST_BYTES := AT_MAX_PARAMS * 144

  type Text = seq<byte>

  const NUL: byte := 0x00
  const LF: byte := 0x0A
  const CR: byte := 0x0D
  const SPACE: byte := 0x20
  const QUOTE: byte := 0x22
  const PLUS: byte := 0x2B
  const COMMA: byte := 0x2C
  const MINUS: byte := 0x2D
  const ZERO: byte := 0x30

  datatype Value = NoValue | Int(v: int) | Str(s: Text)

  datatype Mode = Ignore | InInt | InStr | Ready | AfterStr

  datatype Parser = Parser(mode: Mode, buf: Text, list: seq<Value>, idx: nat, count: nat)

  /** `Fault`: the code would write or read outside its arrays. */
  datatype Outcome = Running(p: Parser) | Done(p: Parser) | Failed(code: int) | Fault

  predicate IsDigit(c: byte)
  {
    ZERO <= c <= ZERO + 9
  }

  predicate IsSign(c: byte)
  {
    c == PLUS || c == MINUS
  }

  predicate IsEnd(c: byte)
  {
    c == NUL || c == CR || c == LF
  }

  predicate IsPrintable(c: byte)
  {
    0x20 <= c <= 0x7E
  }

  // The grammar, apart from the parser's own tests

  predicate AllDigits(s: Text)
  {
    forall i :: 0 <= i < |s| ==> 0x30 <= s[i] <= 0x39
  }

  /** Printable and no quote. */
  predicate AllPlain(s: Text)
  {
    forall i :: 0 <= i < |s| ==> 0x20 <= s[i] <= 0x7E && s[i] != 0x22
  }

  /** No space, which would end the prefix, and no terminating zero. */
  predicate IsPrefix(s: Text)
  {
    forall i :: 0 <= i < |s| ==> s[i] != SPACE && s[i] != NUL
  }

  function DigitsValue(s: Text): nat
    requires AllDigits(s)
  {
    if s == [] then 0 else 10 * DigitsValue(s[..|s| - 1]) + (s[|s| - 1] - ZERO)
  }

  /** An optional sign and digits. */
  predicate IsNumber(s: Text)
  {
    s != [] && (s[0] == 0x2B || s[0] == 0x2D || 0x30 <= s[0] <= 0x39) && AllDigits(s[1..])
  }

  /** `atoi` on what the parser collects. */
  function AtoI(s: Text): int
    requires IsNumber(s)
  {
    if s[0] == MINUS then -(DigitsValue(s[1..]) as int)
    else if s[0] == PLUS then DigitsValue(s[1..])
    else
      assert forall i :: 0 < i < |s| ==> s[i] == s[1..][i - 1];
      DigitsValue(s)
  }

  // The machine

  function Finish(p: Parser): Outcome
  {
    Done(p.(count := p.idx))
  }

  function Collect(p: Parser, c: byte, mode: Mode): Outcome
  {
    if |p.buf| < PARSE_BUF then Running(p.(buf := p.buf + [c], mode := mode)) else Fault
  }

  /** A parameter is complete: store it, clear the buffer. */
  function Put(p: Parser, v: Value): (q: Parser)
    requires p.idx < |p.list|
  {
    p.(list := p.list[p.idx := v], buf := [], idx := p.idx + 1)
  }

  predicate Storable(p: Parser)
  {
    p.idx < |p.list| && |p.buf| < PARSE_BUF
  }

  predicate SignOnly(p: Parser)
  {
    |p.buf| == 1 && IsSign(p.buf[0])
  }

  /** The switch over state and byte. */
  function Branch(p: Parser, c: byte): Outcome
  {
    match p.mode
    case Ignore =>
      if c == NUL then Finish(p)
      else if c == SPACE then Running(p.(mode := Ready))
      else Running(p)
    case Ready =>
      if IsEnd(c) then Finish(p)
      else if c == SPACE then Failed(-5)
      else if c == COMMA then Running(p.(idx := p.idx + 1))
      else if IsSign(c) || IsDigit(c) then Collect(p, c, InInt)
      else if c == QUOTE then Running(p.(mode := InStr))
      else Failed(-3001)
    case AfterStr =>
      if IsEnd(c) then Finish(p)
      else if c == COMMA then Running(p.(mode := Ready))
      else Failed(-4001)
    case InStr =>
      if c == QUOTE then if Storable(p) then Running(Put(p, Str(p.buf)).(mode := AfterStr)) else Fault
      else if IsPrintable(c) then Collect(p, c, InStr)
      else Failed(-2001)
    case InInt =>
      if c == COMMA then
        if SignOnly(p) then Failed(-1001)
        else if Storable(p) && IsNumber(p.buf) then Running(Put(p, Int(AtoI(p.buf))).(mode := Ready)) else Fault
      else if IsEnd(c) then
        if SignOnly(p) then Failed(-1002)
        else if Storable(p) && IsNumber(p.buf) then Finish(Put(p, Int(AtoI(p.buf)))) else Fault
      else if IsDigit(c) then Collect(p, c, InInt)
      else Failed(-1004)
  }

  /** The test before the tail call compares the index with the list's size in bytes. */
  function Guarded(o: Outcome): Outcome
  {
    if o.Running? && o.p.idx > LIST_BYTES then Failed(-9002) else o
  }

  function Step(p: Parser, c: byte): Outcome
  {
    Guarded(Branch(p, c))
  }

  /** Through a text that does not end the parse. */
  function Scan(p: Parser, text: Text): Outcome
    decreases |text|
  {
    if text == [] then Running(p)
    else
      match Step(p, text[0])
      case Running(q) => Scan(q, text[1..])
      case other => other
  }

  /** Through the text and its terminating zero. */
  function Parse(p: Parser, text: Text): Outcome
  {
    match Scan(p, text)
    case Running(q) => Step(q, NUL)
    case other => other
  }

  function Cleared(): Parser
  {
    Parser(Ignore, [], seq(AT_MAX_PARAMS, _ => NoValue), 0, 0)
  }

  lemma {:induction false} ScanConcat(p: Parser, s: Text, t: Text)
    ensures Scan(p, s + t) == match Scan(p, s) case Running(q) => Scan(q, t) case other => other
    decreases |s|
  {
    if s == [] {
      assert s + t == t;
    } else {
      assert (s + t)[1..] == s[1..] + t;
      if Step(p, s[0]).Running? {
        ScanConcat(Step(p, s[0]).p, s[1..], t);
      }
    }
  }

  lemma ParseConcat(p: Parser, s: Text, q: Parser, t: Text)
    requires Scan(p, s) == Running(q)
    ensures Parse(p, s + t) == Parse(q, t)
  {
    ScanConcat(p, s, t);
  }

  /** The code of a failure tells in which state and by which byte the text was refused, or that the index grew too large. */
  lemma CodeTellsPlace(p: Parser, c: byte)
    requires Step(p, c).Failed?
    ensures var code := Step(p, c).code;
            match p.mode
            case Ignore => code == -9002
            case Ready =>
              code == if c == 0x20 then -5
                      else if c == 0x2C || c == 0x22 || IsSign(c) || IsDigit(c) then -9002 else -3001
            case AfterStr => code == if c == 0x2C then -9002 else -4001
            case InStr => code == if 0x20 <= c <= 0x7E then -9002 else -2001
            case InInt =>
              code == if 0x30 <= c <= 0x39 then -9002
                      else if c == 0x2C then if SignOnly(p) then -1001 else -9002
                      else if c == 0x00 || c == 0x0D || c == 0x0A then -1002 else -1004
  {
  }

  /** No failure looks like success. */
  lemma {:induction false} FailureIsNegative(p: Parser, text: Text)
    ensures Parse(p, text).Failed? ==> Parse(p, text).code < 0
    decreases |text|
  {
    if text != [] && Step(p, text[0]).Running? {
      FailureIsNegative(Step(p, text[0]).p, text[1..]);
    }
  }

  // Rendered parameters

  datatype Field = Empty | Number(text: Text) | Quoted(text: Text)
  {
    /** What the grammar allows, of any length. */
    predicate Valid()
    {
      match this
      case Empty => true
      case Number(t) => IsNumber(t) && (IsSign(t[0]) ==> |t| > 1)
      case Quoted(t) => AllPlain(t)
    }

    /** As field number `k` it has an entry in the list, and room in the buffer for its terminating zero. */
    predicate Fits(k: nat)
    {
      Empty? || (k < AT_MAX_PARAMS && |text| < PARSE_BUF)
    }

    function Text(): Text
    {
      match this
      case Empty => []
      case Number(t) => t
      case Quoted(t) => [QUOTE] + t + [QUOTE]
    }

    function Value(): Value
      requires Valid()
    {
      match this
      case Empty => NoValue
      case Number(t) => Int(AtoI(t))
      case Quoted(t) => Str(t)
    }
  }

  function Join(fields: seq<Field>): Text
  {
    if fields == [] then []
    else if |fields| == 1 then fields[0].Text()
    else fields[0].Text() + [COMMA] + Join(fields[1..])
  }

  predicate AllValid(fields: seq<Field>)
  {
    forall k :: 0 <= k < |fields| ==> fields[k].Valid()
  }

  lemma {:induction false} PrefixIsIgnored(p: Parser, prefix: Text)
    requires p.mode == Ignore && p.idx == 0 && IsPrefix(prefix)
    ensures Scan(p, prefix) == Running(p)
  {
    if prefix != [] {
      PrefixIsIgnored(p, prefix[1..]);
    }
  }

  lemma {:induction false} DigitsAreCollected(p: Parser, digits: Text)
    requires p.mode == InInt && AllDigits(digits) && |p.buf| <= PARSE_BUF && p.idx <= LIST_BYTES
    ensures Scan(p, digits) == if |p.buf + digits| <= PARSE_BUF then Running(p.(buf := p.buf + digits)) else Fault
    decreases |digits|
  {
    if digits == [] {
      assert p.buf + digits == p.buf;
    } else if |p.buf| < PARSE_BUF {
      DigitsAreCollected(p.(buf := p.buf + [digits[0]]), digits[1..]);
      assert p.buf + [digits[0]] + digits[1..] == p.buf + digits;
    }
  }

  lemma {:induction false} CharsAreCollected(p: Parser, s: Text)
    requires p.mode == InStr && AllPlain(s) && |p.buf| <= PARSE_BUF && p.idx <= LIST_BYTES
    ensures Scan(p, s) == if |p.buf + s| <= PARSE_BUF then Running(p.(buf := p.buf + s)) else Fault
    decreases |s|
  {
    if s == [] {
      assert p.buf + s == p.buf;
    } else if |p.buf| < PARSE_BUF {
      CharsAreCollected(p.(buf := p.buf + [s[0]]), s[1..]);
      assert p.buf + [s[0]] + s[1..] == p.buf + s;
    }
  }

  /** Between two fields. */
  predicate AtField(p: Parser)
  {
    p.mode == Ready && p.buf == [] && |p.list| == AT_MAX_PARAMS && p.idx <= LIST_BYTES
  }

  lemma NumberIsCollected(p: Parser, t: Text)
    requires AtField(p) && Number(t).Valid()
    ensures Scan(p, t) == if |t| <= PARSE_BUF then Running(p.(mode := InInt, buf := t)) else Fault
  {
    var q := p.(mode := InInt, buf := [t[0]]);
    assert [] + [t[0]] == [t[0]];
    DigitsAreCollected(q, t[1..]);
    assert [t[0]] + t[1..] == t;
  }

  lemma ScanOne(p: Parser, c: byte)
    ensures Scan(p, [c]) == Step(p, c)
  {
  }

  lemma QuotedIsStored(p: Parser, t: Text)
    requires AtField(p) && Quoted(t).Valid()
    ensures Scan(p, Quoted(t).Text()) ==
            if Quoted(t).Fits(p.idx) then Running(Put(p, Str(t)).(mode := AfterStr)) else Fault
  {
    var q := p.(mode := InStr);
    var r := q.(buf := t);
    ScanOne(p, QUOTE);
    ScanConcat(p, [QUOTE], t);
    CharsAreCollected(q, t);
    assert q.buf + t == t;
    assert Scan(p, [QUOTE] + t) == if |t| <= PARSE_BUF then Running(r) else Fault;
    ScanConcat(p, [QUOTE] + t, [QUOTE]);
    if |t| <= PARSE_BUF {
      ScanOne(r, QUOTE);
    }
    if Quoted(t).Fits(p.idx) {
      assert Put(r, Str(t)).(mode := AfterStr) == Put(p, Str(t)).(mode := AfterStr);
    }
  }

  /** The state after a field that fits: an empty one leaves its entry as it was. */
  function Taken(p: Parser, f: Field): Parser
    requires AtField(p) && f.Valid() && f.Fits(p.idx)
  {
    if f.Empty? then p.(idx := p.idx + 1) else Put(p, f.Value())
  }

  /** A field and the comma after it. */
  lemma FieldThenComma(p: Parser, f: Field)
    requires AtField(p) && f.Valid()
    ensures Scan(p, f.Text() + [COMMA]) == if f.Fits(p.idx) then Guarded(Running(Taken(p, f))) else Fault
  {
    match f
    case Empty =>
      assert f.Text() + [COMMA] == [COMMA];
      ScanOne(p, COMMA);
    case Number(t) => NumberThenComma(p, t);
    case Quoted(t) => QuotedThenComma(p, t);
  }

  lemma NumberThenComma(p: Parser, t: Text)
    requires AtField(p) && Number(t).Valid()
    ensures Scan(p, t + [COMMA]) == if Number(t).Fits(p.idx) then Guarded(Running(Put(p, Int(AtoI(t))))) else Fault
  {
    ScanConcat(p, t, [COMMA]);
    NumberIsCollected(p, t);
    if |t| <= PARSE_BUF {
      var q := p.(mode := InInt, buf := t);
      ScanOne(q, COMMA);
      if Number(t).Fits(p.idx) {
        assert Put(q, Int(AtoI(t))).(mode := Ready) == Put(p, Int(AtoI(t)));
      }
    }
  }

  lemma QuotedThenComma(p: Parser, t: Text)
    requires AtField(p) && Quoted(t).Valid()
    ensures Scan(p, Quoted(t).Text() + [COMMA]) ==
            if Quoted(t).Fits(p.idx) then Guarded(Running(Put(p, Str(t)))) else Fault
  {
    ScanConcat(p, Quoted(t).Text(), [COMMA]);
    QuotedIsStored(p, t);
    if Quoted(t).Fits(p.idx) {
      var q := Put(p, Str(t)).(mode := AfterStr);
      ScanOne(q, COMMA);
      assert q.(mode := Ready) == Put(p, Str(t));
    }
  }

  /** The last field and the end of the text: a trailing empty field is not counted. */
  lemma LastField(p: Parser, f: Field)
    requires AtField(p) && f.Valid()
    ensures var r := Parse(p, f.Text());
            if f.Fits(p.idx) then
              r.Done? && r.p.buf == [] && r.p.list == Taken(p, f).list && r.p.count == p.idx + if f.Empty? then 0 else 1
            else r == Fault
  {
    match f
    case Empty =>
    case Number(t) => NumberIsCollected(p, t);
    case Quoted(t) => QuotedIsStored(p, t);
  }

  function TrailingEmpty(fields: seq<Field>): nat
  {
    if fields != [] && fields[|fields| - 1].Empty? then 1 else 0
  }

  /** Field number `idx` and those after it, as far as the index may grow. */
  predicate AllFit(fields: seq<Field>, idx: nat)
  {
    forall k :: 0 <= k < |fields| && idx + k <= LIST_BYTES ==> fields[k].Fits(idx + k)
  }

  lemma FitsSplit(fields: seq<Field>, idx: nat)
    requires fields != [] && idx <= LIST_BYTES
    ensures AllFit(fields, idx) <==> fields[0].Fits(idx) && AllFit(fields[1..], idx + 1)
  {
    if fields[0].Fits(idx) && AllFit(fields[1..], idx + 1) {
      forall k | 0 <= k < |fields| && idx + k <= LIST_BYTES
        ensures fields[k].Fits(idx + k)
      {
        assert k > 0 ==> fields[k] == fields[1..][k - 1];
      }
    }
    if AllFit(fields, idx) {
      forall k | 0 <= k < |fields[1..]| && idx + 1 + k <= LIST_BYTES
        ensures fields[1..][k].Fits(idx + 1 + k)
      {
        assert fields[1..][k] == fields[k + 1];
      }
    }
  }

  /** `after` is `before` with the values of the nonempty fields from entry `idx` on. */
  ghost predicate Stored(before: seq<Value>, idx: nat, fields: seq<Field>, after: seq<Value>)
    requires AllValid(fields)
  {
    |after| == |before| &&
    forall j :: 0 <= j < |before| ==>
      after[j] == if idx <= j < idx + |fields| && !fields[j - idx].Empty? then fields[j - idx].Value() else before[j]
  }

  /** The outcome of the rest of a response, for every list of fields. */
  ghost predicate Outcomes(p: Parser, fields: seq<Field>, r: Outcome)
    requires AllValid(fields)
  {
    if !AllFit(fields, p.idx) then r == Fault
    else if p.idx + |fields| > LIST_BYTES + 1 then r == Failed(-9002)
    else
      r.Done? && r.p.buf == [] && r.p.count == p.idx + |fields| - TrailingEmpty(fields) &&
      Stored(p.list, p.idx, fields, r.p.list)
  }

  lemma StoredNext(before: seq<Value>, idx: nat, fields: seq<Field>, after: seq<Value>)
    requires fields != [] && AllValid(fields) && AllValid(fields[1..]) && fields[0].Fits(idx) && |before| == AT_MAX_PARAMS
    requires Stored(if fields[0].Empty? then before else before[idx := fields[0].Value()], idx + 1, fields[1..], after)
    ensures Stored(before, idx, fields, after)
  {
  }

  lemma {:induction false} FieldsAreParsed(p: Parser, fields: seq<Field>)
    requires AtField(p) && AllValid(fields)
    ensures Outcomes(p, fields, Parse(p, Join(fields)))
    decreases |fields|
  {
    if fields != [] {
      var f, rest := fields[0], fields[1..];
      FitsSplit(fields, p.idx);
      if rest == [] {
        LastField(p, f);
      } else {
        FieldThenComma(p, f);
        ScanConcat(p, f.Text() + [COMMA], Join(rest));
        if f.Fits(p.idx) && p.idx < LIST_BYTES {
          FieldsAreParsed(Taken(p, f), rest);
          NextOutcome(p, fields, Parse(p, Join(fields)));
        }
      }
    }
  }

  lemma NextOutcome(p: Parser, fields: seq<Field>, r: Outcome)
    requires AtField(p) && |fields| > 1 && AllValid(fields) && AllValid(fields[1..]) && fields[0].Fits(p.idx)
    requires Outcomes(Taken(p, fields[0]), fields[1..], r)
    ensures Outcomes(p, fields, r)
  {
    FitsSplit(fields, p.idx);
    assert fields[1..][|fields| - 2] == fields[|fields| - 1];
    if r.Done? {
      StoredNext(p.list, p.idx, fields, r.p.list);
    }
  }

  /** What entry `j` of the list shows. */
  function Entry(fields: seq<Field>, j: nat): Value
    requires AllValid(fields)
  {
    if j < |fields| then fields[j].Value() else NoValue
  }

  /** After any prefix without a space. */
  function Response(prefix: Text, fields: seq<Field>): Text
  {
    prefix + [SPACE] + Join(fields)
  }

  lemma ResponseOutcome(prefix: Text, fields: seq<Field>)
    requires IsPrefix(prefix) && AllValid(fields)
    ensures Outcomes(Cleared(), fields, Parse(Cleared(), Response(prefix, fields)))
  {
    var p := Cleared();
    PrefixIsIgnored(p, prefix);
    ScanConcat(p, prefix, [SPACE]);
    ScanOne(p, SPACE);
    ParseConcat(p, prefix + [SPACE], p.(mode := Ready), Join(fields));
    FieldsAreParsed(p.(mode := Ready), fields);
  }

  /**
   * The parser leaves its arrays if and only if one of the first 6049 fields is too long for the buffer, or not
   * empty and behind entry 41.
   */
  lemma FaultsExactlyWhen(prefix: Text, fields: seq<Field>)
    requires IsPrefix(prefix) && AllValid(fields)
    ensures Parse(Cleared(), Response(prefix, fields)) == Fault <==>
            exists k :: 0 <= k < |fields| && k <= 6048 && !fields[k].Empty? && (k >= 42 || |fields[k].text| > 128)
  {
    ResponseOutcome(prefix, fields);
    if !AllFit(fields, 0) {
      var k :| 0 <= k < |fields| && k <= LIST_BYTES && !fields[k].Fits(k);
    }
  }

  /** Otherwise it fails if and only if there are more than 6049 fields, and else stores them all in order. */
  lemma ResponseIsParsed(prefix: Text, fields: seq<Field>)
    requires IsPrefix(prefix) && AllValid(fields)
    ensures var r := Parse(Cleared(), Response(prefix, fields));
            r != Fault ==>
              if |fields| > 6049 then r == Failed(-9002)
              else
                r.Done? && r.p.buf == [] && r.p.count == |fields| - TrailingEmpty(fields) &&
                r.p.list == seq(42, j requires 0 <= j => Entry(fields, j))
  {
    ResponseOutcome(prefix, fields);
  }
}
