/** `at_res_parse` over its static buffer and result list. */
module AtParsers {
  import opened Bytes
  import opened Options
  import opened AtGrammar

  class AtParser {
    const parseBuf: array<byte>
    const list: array<Value>
    var count: nat

    /** The buffer is zero from `n` on, so its text ends there. */
    ghost predicate Holds(n: nat)
      reads parseBuf
    {
      parseBuf.Length == PARSE_BUF && n <= PARSE_BUF && forall k :: n <= k < PARSE_BUF ==> parseBuf[k] == NUL
    }

    ghost function State(mode: Mode, n: nat, idx: nat): Parser
      reads this, parseBuf, list
      requires Holds(n)
    {
      Parser(mode, parseBuf[..n], list[..], idx, count)
    }

    constructor ()
      ensures Holds(0) && list.Length == AT_MAX_PARAMS && fresh(parseBuf) && fresh(list)
    {
      parseBuf := new byte[PARSE_BUF](_ => NUL);
      list := new Value[AT_MAX_PARAMS](_ => NoValue);
      count := 0;
    }

    /** `at_res_clear` */
    method AtResClear()
      modifies this, list
      ensures count == 0 && list[..] == seq(list.Length, _ => NoValue)
    {
      count := 0;
      for i := 0 to list.Length
        invariant count == 0 && forall k :: 0 <= k < i ==> list[k] == NoValue
      {
        list[i] := NoValue;
      }
    }

    method ClearBuf()
      requires parseBuf.Length == PARSE_BUF
      modifies parseBuf
      ensures Holds(0)
    {
      for i := 0 to PARSE_BUF
        invariant forall k :: 0 <= k < i ==> parseBuf[k] == NUL
      {
        parseBuf[i] := NUL;
      }
    }

    method CollectByte(c: byte, n: nat, ghost mode: Mode, idx: nat, ghost mode': Mode)
      requires Holds(n) && n < PARSE_BUF
      modifies parseBuf
      ensures Holds(n + 1)
      ensures Running(State(mode', n + 1, idx)) == Collect(old(State(mode, n, idx)), c, mode')
    {
      parseBuf[n] := c;
      assert parseBuf[..n + 1] == old(parseBuf[..n]) + [c];
    }

    method PutValue(v: Value, n: nat, idx: nat, ghost mode: Mode)
      requires Holds(n) && idx < list.Length
      modifies parseBuf, list
      ensures Holds(0) && State(mode, 0, idx + 1) == Put(old(State(mode, n, idx)), v)
    {
      list[idx] := v;
      ClearBuf();
    }

    /** The branch for a byte inside a number. */
    method InNumber(c: byte, n: nat, idx: nat) returns (n': nat, idx': nat, mode': Mode, code: Option<int>)
      requires Holds(n) && Branch(State(InInt, n, idx), c) != Fault
      modifies this, parseBuf, list
      ensures Holds(n') && Result(State(mode', n', idx'), code) == Branch(old(State(InInt, n, idx)), c)
      ensures code != Some(0) ==> count == old(count)
    {
      n', idx', mode', code := n, idx, InInt, None;
      if c == COMMA || IsEnd(c) {
        if n == 1 && IsSign(parseBuf[0]) {
          code := Some(if c == COMMA then -1001 else -1002);
        } else {
          PutValue(Int(AtoI(parseBuf[..n])), n, idx, InInt);
          n', idx' := 0, idx + 1;
          if c == COMMA {
            mode' := Ready;
          } else {
            count := idx';
            code := Some(0);
          }
        }
      } else if IsDigit(c) {
        CollectByte(c, n, InInt, idx, InInt);
        n' := n + 1;
      } else {
        code := Some(-1004);
      }
    }

    /** The branch for a byte inside quotes. */
    method InQuotes(c: byte, n: nat, idx: nat) returns (n': nat, idx': nat, mode': Mode, code: Option<int>)
      requires Holds(n) && Branch(State(InStr, n, idx), c) != Fault
      modifies this, parseBuf, list
      ensures Holds(n') && Result(State(mode', n', idx'), code) == Branch(old(State(InStr, n, idx)), c)
      ensures count == old(count)
    {
      n', idx', mode', code := n, idx, InStr, None;
      if c == QUOTE {
        PutValue(Str(parseBuf[..n]), n, idx, InStr);
        n', idx', mode' := 0, idx + 1, AfterStr;
      } else if IsPrintable(c) {
        CollectByte(c, n, InStr, idx, InStr);
        n' := n + 1;
      } else {
        code := Some(-2001);
      }
    }

    /** The branches between parameters. */
    method Between(c: byte, n: nat, idx: nat, mode: Mode) returns (n': nat, idx': nat, mode': Mode, code: Option<int>)
      requires Holds(n) && mode != InInt && mode != InStr && Branch(State(mode, n, idx), c) != Fault
      modifies this, parseBuf
      ensures Holds(n') && Result(State(mode', n', idx'), code) == Branch(old(State(mode, n, idx)), c)
      ensures code != Some(0) ==> count == old(count)
    {
      n', idx', mode', code := n, idx, mode, None;
      if c == NUL || (mode != Ignore && IsEnd(c)) {
        count := idx;
        code := Some(0);
      } else {
        match mode
        case Ignore =>
          if c == SPACE {
            mode' := Ready;
          }
        case AfterStr =>
          if c == COMMA {
            mode' := Ready;
          } else {
            code := Some(-4001);
          }
        case Ready =>
          if c == SPACE {
            code := Some(-5);
          } else if c == COMMA {
            idx' := idx + 1;
          } else if IsSign(c) || IsDigit(c) {
            CollectByte(c, n, mode, idx, InInt);
            n', mode' := n + 1, InInt;
          } else if c == QUOTE {
            mode' := InStr;
          } else {
            code := Some(-3001);
          }
      }
    }

    /** `__at_res_parse`: one byte, then the rest of the text. */
    method ParseFrom(text: seq<byte>, at: nat, n: nat, idx: nat, mode: Mode) returns (code: int)
      requires Holds(n) && at <= |text| && Parse(State(mode, n, idx), text[at..]) != Fault
      modifies this, parseBuf, list
      ensures match Parse(old(State(mode, n, idx)), text[at..])
              case Done(q) => code == 0 && list[..] == q.list && count == q.count && (q.buf == [] ==> Holds(0))
              case Failed(e) => code == e && count == old(count)
              case _ => false
      decreases |text| - at
    {
      var c := if at < |text| then text[at] else NUL;
      assert at < |text| ==> text[at..][1..] == text[at + 1..];
      ghost var p := State(mode, n, idx);
      EndIsFinal(p);
      var n', idx', mode', r;
      if mode == InInt {
        n', idx', mode', r := InNumber(c, n, idx);
      } else if mode == InStr {
        n', idx', mode', r := InQuotes(c, n, idx);
      } else {
        n', idx', mode', r := Between(c, n, idx, mode);
      }
      if r.Some? {
        code := r.value;
        assert code == 0 ==> Step(p, c) == Done(State(mode', n', idx'));
      } else if idx' > LIST_BYTES {
        code := -9002;
      } else {
        code := ParseFrom(text, at + 1, n', idx', mode');
      }
    }

    /** `at_res_parse`: every failure is reported as -EINVAL. */
    method AtResParse(response: seq<byte>) returns (ret: int)
      requires Holds(0) && list.Length == AT_MAX_PARAMS && Parse(Cleared(), response) != Fault
      modifies this, parseBuf, list
      ensures match Parse(Cleared(), response)
              case Done(q) => ret == 0 && list[..] == q.list && count == q.count && (q.buf == [] ==> Holds(0))
              case Failed(_) => ret == -EINVAL && count == 0
              case _ => false
    {
      AtResClear();
      assert State(Ignore, 0, 0) == Cleared();
      assert response[0..] == response;
      FailureIsNegative(Cleared(), response);
      var code := ParseFrom(response, 0, 0, 0, Ignore);
      ret := if code != 0 then -EINVAL else 0;
    }
  }

  const EINVAL := 22

  /** The outcome that a return code stands for. */
  function Result(p: Parser, code: Option<int>): Outcome
  {
    match code
    case None => Running(p)
    case Some(e) => if e == 0 then Done(p) else Failed(e)
  }

  /** The terminating zero always ends the parse. */
  lemma EndIsFinal(p: Parser)
    ensures !Step(p, NUL).Running?
  {
  }
}
