/** Rendering parameters as the modem does and parsing them gives the parameters back. */
module AtRoundTrip {
  import opened AtGrammar
  import opened AtLanguage

  datatype Param = PEmpty | PInt(n: int) | PStr(s: Text)
  {
    /** A C `int`, or printable text without quotes. */
    predicate Valid()
    {
      match this
      case PEmpty => true
      case PInt(n) => -0x8000_0000 <= n < 0x8000_0000
      case PStr(s) => AllPlain(s)
    }

    function Value(): Value
    {
      match this
      case PEmpty => NoValue
      case PInt(n) => Int(n)
      case PStr(s) => Str(s)
    }

    function ToField(): Field
    {
      match this
      case PEmpty => Empty
      case PInt(n) => Number(IntText(n))
      case PStr(s) => Quoted(s)
    }
  }

  function DigitsText(n: nat): Text
  {
    if n < 10 then [ZERO + n] else DigitsText(n / 10) + [ZERO + n % 10]
  }

  function IntText(n: int): Text
  {
    if n < 0 then [MINUS] + DigitsText(-n) else DigitsText(n)
  }

  lemma {:induction false} DigitsRoundTrip(n: nat)
    ensures DigitsText(n) != [] && AllDigits(DigitsText(n)) && DigitsValue(DigitsText(n)) == n
  {
    var t := DigitsText(n);
    if n < 10 {
      assert t[..0] == [];
    } else {
      DigitsRoundTrip(n / 10);
      assert t[..|t| - 1] == DigitsText(n / 10);
    }
  }

  function Pow10(k: nat): nat
  {
    if k == 0 then 1 else 10 * Pow10(k - 1)
  }

  lemma {:induction false} DigitsLength(n: nat, k: nat)
    requires k > 0 && n < Pow10(k)
    ensures |DigitsText(n)| <= k
  {
    if n >= 10 {
      assert k > 1 by { assert Pow10(1) == 10 * Pow10(0); }
      DigitsLength(n / 10, k - 1);
    }
  }

  lemma TenDigits()
    ensures Pow10(10) == 10_000_000_000
  {
  }

  lemma IntRoundTrip(n: int)
    requires PInt(n).Valid()
    ensures Number(IntText(n)).Valid() && |IntText(n)| < PARSE_BUF && AtoI(IntText(n)) == n
  {
    var m: nat := if n < 0 then -n else n;
    var d, t := DigitsText(m), IntText(n);
    DigitsRoundTrip(m);
    TenDigits();
    DigitsLength(m, 10);
    if n < 0 {
      assert t[1..] == d;
    } else {
      assert IsDigit(d[0]) && AllDigits(d[1..]);
    }
  }

  function Fields(ps: seq<Param>): (fs: seq<Field>)
    ensures |fs| == |ps|
    ensures forall k :: 0 <= k < |ps| ==> fs[k] == ps[k].ToField()
  {
    seq(|ps|, k requires 0 <= k < |ps| => ps[k].ToField())
  }

  predicate AllParamsValid(ps: seq<Param>)
  {
    forall k :: 0 <= k < |ps| ==> ps[k].Valid()
  }

  /** What the list shows once every parameter is stored. */
  function Listed(ps: seq<Param>): seq<Value>
  {
    seq(AT_MAX_PARAMS, j requires 0 <= j => if j < |ps| then ps[j].Value() else NoValue)
  }

  lemma FieldsHaveValues(ps: seq<Param>)
    requires AllParamsValid(ps)
    ensures AllValid(Fields(ps))
    ensures forall k :: 0 <= k < |ps| ==> ps[k].ToField().Value() == ps[k].Value()
    ensures forall k :: 0 <= k < |ps| && ps[k].PInt? ==> |Fields(ps)[k].text| < PARSE_BUF
  {
    forall k | 0 <= k < |ps| && ps[k].PInt?
      ensures ps[k].ToField().Valid() && ps[k].ToField().Value() == ps[k].Value() && |Fields(ps)[k].text| < PARSE_BUF
    {
      IntRoundTrip(ps[k].n);
    }
  }

  /** Every string has room in the parse buffer for its terminating zero. */
  predicate AllShort(ps: seq<Param>)
  {
    forall k :: 0 <= k < |ps| && ps[k].PStr? ==> |ps[k].s| <= 128
  }

  /**
   * For every list of at most 42 parameters that fit the buffer, the parser stores each one with its type and
   * value, in order, and leaves the rest of the list clear and the parse buffer empty, whatever follows the line.
   */
  lemma ParametersAreStored(prefix: Text, ps: seq<Param>, tail: Text)
    requires IsPrefix(prefix) && AllParamsValid(ps) && |ps| <= AT_MAX_PARAMS && AllShort(ps) && EndsText(tail)
    ensures var r := Parse(Cleared(), Response(prefix, Fields(ps)) + tail);
            r.Done? && r.p.buf == [] && r.p.list == Listed(ps)
  {
    FieldsHaveValues(ps);
    FaultsExactlyWhen(prefix, Fields(ps));
    ResponseIsParsed(prefix, Fields(ps));
    TailIsIgnored(prefix, Fields(ps), tail);
  }

  /**
   * For every list of parameters, and whatever follows the end of their line: their number comes back if and only if
   * all are stored and the last is not empty.
   */
  lemma AtResponseRoundTrip(prefix: Text, ps: seq<Param>, tail: Text)
    requires IsPrefix(prefix) && AllParamsValid(ps) && EndsText(tail)
    ensures var r := Parse(Cleared(), Response(prefix, Fields(ps)) + tail);
            (r.Done? && r.p.count == |ps| <==>
               |ps| <= 42 && AllShort(ps) && (ps == [] || !ps[|ps| - 1].PEmpty?)) &&
            (r.Done? && r.p.count == |ps| ==> r.p.buf == [] && r.p.list == Listed(ps))
  {
    var fs, r := Fields(ps), Parse(Cleared(), Response(prefix, Fields(ps)));
    FieldsHaveValues(ps);
    TailIsIgnored(prefix, fs, tail);
    FaultsExactlyWhen(prefix, fs);
    ResponseIsParsed(prefix, fs);
    if r.Done? && r.p.count == |ps| && ps != [] {
      var k := |ps| - 1;
      assert !fs[k].Empty?;
      assert k < AT_MAX_PARAMS;
    }
    if r.Done? && |ps| <= AT_MAX_PARAMS {
      forall k | 0 <= k < |ps| && ps[k].PStr?
        ensures |ps[k].s| <= 128
      {
        assert fs[k] == Quoted(ps[k].s);
      }
    }
    if |ps| <= AT_MAX_PARAMS && AllShort(ps) {
      ParametersAreStored(prefix, ps, tail);
    }
  }
}
