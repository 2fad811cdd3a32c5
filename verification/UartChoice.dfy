/** How `task_gw_uart_tx` picks a link for a packet, given which modems report that they are connected. */
module UartChoice {
  import opened Options
  import opened PortTable

  datatype Readiness = Readiness(uart1: bool, uart2: bool, uart3: bool)
  {
    predicate Ready(u: Uart)
    {
      match u
      case Uart1 => uart1
      case Uart2 => uart2
      case Uart3 => uart3
      case NoUart => false
    }
  }

  /** The link whose turn it is. */
  function Turn(cntr: nat): Uart
  {
    if cntr % 3 == 0 then Uart3 else if cntr % 3 == 2 then Uart2 else Uart1
  }

  /** The fallback order. */
  function Rotate(u: Uart): Uart
  {
    match u
    case Uart3 => Uart1
    case Uart2 => Uart3
    case _ => Uart2
  }

  /** No link when all three tests fail. After a fallback test succeeds the code rotates once more. */
  function Choose(cntr: nat, ready: Readiness): Option<Uart>
  {
    var u := Turn(cntr);
    if ready.Ready(u) then Some(u)
    else if ready.Ready(Rotate(u)) then Some(Rotate(Rotate(u)))
    else if ready.Ready(Rotate(Rotate(u))) then Some(Rotate(Rotate(Rotate(u))))
    else None
  }

  /** `cntr` after a packet has gone out on `u`. */
  function CntrAfter(u: Uart): nat
  {
    if u == Uart3 then 2 else if u == Uart2 then 1 else 0
  }

  /** The three links in the order in which a packet tries them. */
  function Order(cntr: nat): (Uart, Uart, Uart)
  {
    match cntr % 3
    case 0 => (Uart3, Uart1, Uart2)
    case 2 => (Uart2, Uart3, Uart1)
    case _ => (Uart1, Uart2, Uart3)
  }

  /** With the first link not ready, a packet goes out on the link after the ready one: past the second, or past the third back to the first. */
  lemma ChoiceTable(cntr: nat, ready: Readiness)
    ensures var (first, second, third) := Order(cntr);
            Choose(cntr, ready) ==
            if ready.Ready(first) then Some(first)
            else if ready.Ready(second) then Some(third)
            else if ready.Ready(third) then Some(first)
            else None
  {
  }

  /** A packet is dropped exactly when no modem is ready. */
  lemma DroppedExactlyWhenNoneReady(cntr: nat, ready: Readiness)
    ensures Choose(cntr, ready).None? <==> !ready.uart1 && !ready.uart2 && !ready.uart3
  {
  }

  /**
   * The link chosen is not always a ready one: it is ready exactly when the first choice was, or when
   * both of the others are.
   */
  lemma ChosenIsReadyExactlyWhen(cntr: nat, ready: Readiness)
    requires Choose(cntr, ready).Some?
    ensures var u := Turn(cntr);
            ready.Ready(Choose(cntr, ready).value) <==>
            ready.Ready(u) || (ready.Ready(Rotate(u)) && ready.Ready(Rotate(Rotate(u))))
  {
  }

  /** With only UART1 ready on UART3's turn, the packet goes to UART2, which is not ready. */
  lemma NotReadyChosen()
    ensures var ready := Readiness(true, false, false);
            Choose(0, ready) == Some(Uart2) && !ready.Ready(Uart2)
  {
  }

  // Fairness

  /** Three links in turn: `cntr` after one packet is two more modulo three, so the turns repeat 3, 2, 1. */
  function TurnAfter(cntr: nat, k: nat): Uart
  {
    Turn(cntr + 2 * k)
  }

  function Count(u: Uart, uarts: seq<Uart>): nat
  {
    if uarts == [] then 0
    else Count(u, uarts[..|uarts| - 1]) + if uarts[|uarts| - 1] == u then 1 else 0
  }

  ghost predicate RoundRobin(cntr: nat, uarts: seq<Uart>)
  {
    forall k :: 0 <= k < |uarts| ==> uarts[k] == TurnAfter(cntr, k)
  }

  lemma CountLast(u: Uart, uarts: seq<Uart>, last: Uart)
    ensures Count(u, uarts + [last]) == Count(u, uarts) + if last == u then 1 else 0
  {
  }

  /** Whole turns serve every link once. */
  lemma {:induction false} RoundRobinCounts(cntr: nat, uarts: seq<Uart>, u: Uart)
    requires RoundRobin(cntr, uarts) && u != NoUart
    ensures |uarts| <= 3 * Count(u, uarts) + 2 && 3 * Count(u, uarts) <= |uarts| + 2
  {
    var n := |uarts|;
    if n >= 3 {
      var c, x, y, z := uarts[..n - 3], uarts[n - 3], uarts[n - 2], uarts[n - 1];
      RoundRobinCounts(cntr, c, u);
      ThreeTurns(cntr, n - 3, u);
      CountLast(u, c, x);
      CountLast(u, c + [x], y);
      CountLast(u, c + [x] + [y], z);
      assert uarts == c + [x] + [y] + [z];
    } else {
      FewTurns(cntr, uarts, u);
    }
  }

  lemma FewTurns(cntr: nat, uarts: seq<Uart>, u: Uart)
    requires RoundRobin(cntr, uarts) && u != NoUart && |uarts| < 3
    ensures Count(u, uarts) <= if uarts == [] then 0 else 1
  {
    if uarts != [] {
      CountLast(u, [], uarts[0]);
      if |uarts| == 1 {
        assert uarts == [] + [uarts[0]];
      } else {
        ThreeTurns(cntr, 0, u);
        CountLast(u, [] + [uarts[0]], uarts[1]);
        assert uarts == [] + [uarts[0]] + [uarts[1]];
      }
    }
  }

  lemma ThreeTurns(cntr: nat, k: nat, u: Uart)
    requires u != NoUart
    ensures var hits := (w: Uart) => if w == u then 1 else 0;
            hits(TurnAfter(cntr, k)) + hits(TurnAfter(cntr, k + 1)) + hits(TurnAfter(cntr, k + 2)) == 1
  {
  }

  /** The load of two links never differs by more than one packet. */
  lemma RoundRobinIsFair(cntr: nat, uarts: seq<Uart>, u: Uart, v: Uart)
    requires RoundRobin(cntr, uarts) && u != NoUart && v != NoUart
    ensures Count(u, uarts) <= Count(v, uarts) + 1
  {
    RoundRobinCounts(cntr, uarts, u);
    RoundRobinCounts(cntr, uarts, v);
  }
}
