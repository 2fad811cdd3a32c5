/**
 * Which texts the parser accepts: those of the grammar and no others. A text ends at its terminating zero, and behind
 * the prefix also at a carriage return or line feed outside quotes.
 */
module AtLanguage {
  import opened AtGrammar

  predicate EndsText(tail: Text)
  {
    tail == [] || tail[0] == 0x00 || tail[0] == 0x0D || tail[0] == 0x0A
  }

  // What follows the end of the line

  lemma {:induction false} StaysBehindPrefix(p: Parser, text: Text)
    requires p.mode != Ignore
    ensures Scan(p, text).Running? ==> Scan(p, text).p.mode != Ignore
    decreases |text|
  {
    if text != [] && Step(p, text[0]).Running? {
      StaysBehindPrefix(Step(p, text[0]).p, text[1..]);
    }
  }

  lemma LineEnds(p: Parser, tail: Text)
    requires p.mode != Ignore && p.mode != InStr && EndsText(tail)
    ensures Parse(p, tail) == Parse(p, [])
  {
    if tail != [] {
      assert Step(p, tail[0]) == Step(p, NUL) && !Step(p, NUL).Running?;
    }
  }

  /** The result of a response does not depend on what the modem sends behind the end of its line. */
  lemma TailIsIgnored(prefix: Text, fields: seq<Field>, tail: Text)
    requires IsPrefix(prefix) && AllValid(fields) && EndsText(tail)
    ensures Parse(Cleared(), Response(prefix, fields) + tail) == Parse(Cleared(), Response(prefix, fields))
  {
    var p, text := Cleared(), Response(prefix, fields);
    ScanConcat(p, text, tail);
    if Scan(p, text).Running? {
      var q := Scan(p, text).p;
      BehindPrefix(prefix, fields);
      ResponseIsParsed(prefix, fields);
      assert q.mode != InStr;
      LineEnds(q, tail);
    }
  }

  lemma BehindPrefix(prefix: Text, fields: seq<Field>)
    requires IsPrefix(prefix)
    ensures var r := Scan(Cleared(), Response(prefix, fields)); r.Running? ==> r.p.mode != Ignore
  {
    var p := Cleared();
    PrefixIsIgnored(p, prefix);
    ScanConcat(p, prefix, [SPACE]);
    ScanOne(p, SPACE);
    ScanConcat(p, prefix + [SPACE], Join(fields));
    StaysBehindPrefix(p.(mode := Ready), Join(fields));
  }

  // Nothing else is accepted

  /** What is left behind a field: the end, or a comma and a text that is accepted from state `after`. */
  ghost predicate GoesOn(rest: Text, after: Parser)
  {
    EndsText(rest) || (rest[0] == COMMA && AtField(after) && Parse(after, rest[1..]).Done?)
  }

  ghost predicate Collecting(p: Parser, mode: Mode)
  {
    p.mode == mode && |p.list| == AT_MAX_PARAMS && p.idx <= LIST_BYTES
  }

  lemma {:induction false} NumberAccepted(p: Parser, text: Text) returns (digits: Text, rest: Text, after: Parser)
    requires Collecting(p, InInt) && IsNumber(p.buf) && Parse(p, text).Done?
    ensures text == digits + rest && Number(p.buf + digits).Valid() && GoesOn(rest, after)
    decreases |text|
  {
    after := p;
    if text == [] || EndsText(text) || text[0] == COMMA {
      digits, rest := [], text;
      assert p.buf + digits == p.buf;
      if text != [] && text[0] == COMMA {
        after := Step(p, COMMA).p;
      }
    } else {
      var q := Step(p, text[0]).p;
      assert q.buf[1..] == p.buf[1..] + [text[0]];
      digits, rest, after := NumberAccepted(q, text[1..]);
      assert q.buf + digits == p.buf + ([text[0]] + digits);
      digits := [text[0]] + digits;
    }
  }

  lemma AfterQuote(p: Parser, rest: Text) returns (after: Parser)
    requires Collecting(p, AfterStr) && p.buf == [] && Parse(p, rest).Done?
    ensures GoesOn(rest, after)
  {
    after := p;
    if !EndsText(rest) {
      after := Step(p, rest[0]).p;
    }
  }

  lemma {:induction false} StringAccepted(p: Parser, text: Text) returns (s: Text, rest: Text, after: Parser)
    requires Collecting(p, InStr) && Parse(p, text).Done?
    ensures text == s + [QUOTE] + rest && AllPlain(s) && GoesOn(rest, after)
    decreases |text|
  {
    assert text != [];
    var q := Step(p, text[0]).p;
    if text[0] == QUOTE {
      s, rest := [], text[1..];
      after := AfterQuote(q, rest);
    } else {
      s, rest, after := StringAccepted(q, text[1..]);
      assert text == [text[0]] + (s + [QUOTE] + rest);
      s := [text[0]] + s;
    }
  }

  /** One field and what is left behind it. */
  lemma FieldAccepted(p: Parser, text: Text) returns (f: Field, rest: Text, after: Parser)
    requires AtField(p) && Parse(p, text).Done?
    ensures text == f.Text() + rest && f.Valid() && GoesOn(rest, after)
  {
    f, rest, after := Empty, text, p;
    if !EndsText(text) {
      var q := Step(p, text[0]).p;
      if text[0] == COMMA {
        after := q;
      } else if text[0] == QUOTE {
        var s;
        s, rest, after := StringAccepted(q, text[1..]);
        f := Quoted(s);
        assert text == [QUOTE] + (s + [QUOTE] + rest);
      } else {
        var digits;
        digits, rest, after := NumberAccepted(q, text[1..]);
        f := Number([text[0]] + digits);
        assert q.buf == [text[0]];
        assert text == [text[0]] + (digits + rest);
      }
    }
  }

  lemma {:induction false} FieldsAccepted(p: Parser, text: Text) returns (fields: seq<Field>, tail: Text)
    requires AtField(p) && Parse(p, text).Done?
    ensures fields != [] && AllValid(fields) && EndsText(tail) && text == Join(fields) + tail
    decreases |text|
  {
    var f, rest, after := FieldAccepted(p, text);
    if EndsText(rest) {
      fields, tail := [f], rest;
    } else {
      var more;
      more, tail := FieldsAccepted(after, rest[1..]);
      fields := [f] + more;
      JoinFirst(f, more);
      Regroup(f.Text(), rest, [COMMA], Join(more), tail);
    }
  }

  lemma JoinFirst(f: Field, more: seq<Field>)
    requires more != [] && f.Valid() && AllValid(more)
    ensures AllValid([f] + more) && Join([f] + more) == f.Text() + [COMMA] + Join(more)
  {
    assert ([f] + more)[1..] == more;
  }

  lemma Regroup(a: Text, rest: Text, comma: Text, b: Text, tail: Text)
    requires |comma| == 1 && rest != [] && rest[0] == comma[0] && rest[1..] == b + tail
    ensures a + rest == a + comma + b + tail
  {
    assert rest == comma + (b + tail);
  }

  /** A prefix, a space, fields of the grammar, and the end. */
  ghost predicate IsResponse(text: Text, prefix: Text, fields: seq<Field>, tail: Text)
  {
    IsPrefix(prefix) && AllValid(fields) && EndsText(tail) && text == Response(prefix, fields) + tail
  }

  /** No space before the terminating zero, so no parameters. */
  predicate IsSilent(text: Text)
  {
    exists n :: 0 <= n <= |text| && IsPrefix(text[..n]) && (n == |text| || text[n] == NUL)
  }

  lemma {:induction false} PrefixAccepted(p: Parser, text: Text) returns (n: nat)
    requires p.mode == Ignore && p.idx == 0
    ensures n <= |text| && IsPrefix(text[..n]) && (n < |text| ==> text[n] == NUL || text[n] == SPACE)
    ensures Parse(p, text) == if n == |text| || text[n] == NUL then Finish(p) else Parse(p.(mode := Ready), text[n + 1..])
    decreases |text|
  {
    if text == [] || text[0] == NUL || text[0] == SPACE {
      n := 0;
    } else {
      n := PrefixAccepted(p, text[1..]);
      assert text[..n + 1] == [text[0]] + text[1..][..n];
      assert n < |text[1..]| ==> text[n + 2..] == text[1..][n + 1..];
      n := n + 1;
    }
  }

  /** The fields can be stored: none outside the arrays, and no index beyond what the parser allows. */
  predicate Manageable(fields: seq<Field>)
  {
    |fields| <= LIST_BYTES + 1 &&
    forall k :: 0 <= k < |fields| && !fields[k].Empty? ==> k < AT_MAX_PARAMS && |fields[k].text| < PARSE_BUF
  }

  lemma SilentExactlyWhen(text: Text, n: nat)
    requires n <= |text| && IsPrefix(text[..n]) && (n < |text| ==> text[n] == NUL || text[n] == SPACE)
    ensures IsSilent(text) <==> n == |text| || text[n] == NUL
  {
    if IsSilent(text) && n < |text| {
      var m :| 0 <= m <= |text| && IsPrefix(text[..m]) && (m == |text| || text[m] == NUL);
      assert n < m ==> text[..m][n] == text[n];
      assert m < n ==> text[..n][m] == NUL;
    }
  }

  /** A text of the grammar that can be stored. */
  ghost predicate Readable(text: Text)
  {
    exists prefix, fields, tail :: IsResponse(text, prefix, fields, tail) && Manageable(fields)
  }

  lemma OnlyResponses(text: Text, n: nat)
    requires n < |text| && IsPrefix(text[..n]) && text[n] == SPACE
    requires Parse(Cleared(), text).Done? && Parse(Cleared().(mode := Ready), text[n + 1..]).Done?
    ensures Readable(text)
  {
    var fields, tail := FieldsAccepted(Cleared().(mode := Ready), text[n + 1..]);
    assert text == text[..n] + [SPACE] + text[n + 1..];
    assert IsResponse(text, text[..n], fields, tail);
    ResponseAccepted(text, text[..n], fields, tail);
  }

  lemma ReadableIsAccepted(text: Text)
    requires Readable(text)
    ensures Parse(Cleared(), text).Done?
  {
    var prefix, fields, tail :| IsResponse(text, prefix, fields, tail) && Manageable(fields);
    ResponseAccepted(text, prefix, fields, tail);
  }

  /** The parser accepts a text if and only if it holds no parameters or is a response of the grammar that can be stored. */
  lemma AcceptedExactlyWhen(text: Text)
    ensures Parse(Cleared(), text).Done? <==> IsSilent(text) || Readable(text)
  {
    var n := PrefixAccepted(Cleared(), text);
    SilentExactlyWhen(text, n);
    if Parse(Cleared(), text).Done? && !IsSilent(text) {
      OnlyResponses(text, n);
    }
    if Readable(text) {
      ReadableIsAccepted(text);
    }
  }

  lemma ResponseAccepted(text: Text, prefix: Text, fields: seq<Field>, tail: Text)
    requires IsResponse(text, prefix, fields, tail)
    ensures Parse(Cleared(), text).Done? <==> Manageable(fields)
  {
    TailIsIgnored(prefix, fields, tail);
    FaultsExactlyWhen(prefix, fields);
    ResponseIsParsed(prefix, fields);
  }

  // Numbers

  /** A plus sign and leading zeros do not change a number, and a minus sign negates it. */
  lemma SignsAndZeros(digits: Text)
    requires digits != [] && AllDigits(digits)
    ensures AtoI(digits) == AtoI([PLUS] + digits) == AtoI([ZERO] + digits) == -AtoI([MINUS] + digits)
  {
    assert ([PLUS] + digits)[1..] == digits && ([MINUS] + digits)[1..] == digits;
    LeadingZero(digits);
  }

  lemma {:induction false} LeadingZero(digits: Text)
    requires AllDigits(digits)
    ensures DigitsValue([ZERO] + digits) == DigitsValue(digits)
    decreases |digits|
  {
    var n := |digits|;
    if n == 0 {
      assert DigitsValue([ZERO]) == 10 * DigitsValue([ZERO][..0]);
      assert [ZERO] + digits == [ZERO];
    } else {
      LeadingZero(digits[..n - 1]);
      assert ([ZERO] + digits)[..n] == [ZERO] + digits[..n - 1];
    }
  }
}
