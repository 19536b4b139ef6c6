/** How the generator spreads the DMA channels over the master ports of its crossbar. */
module DmaXbar {

  import opened IntegerFacts

  /** The number of ports that get a full share of `k` channels, one less when they would leave nothing for the rest. */
  function FullPorts(channels: nat, k: nat, ports: nat): int
    requires k >= 1
  {
    var quotient := channels / k;
    if quotient < ports && quotient * k == channels then quotient - 1 else quotient
  }

  /** What is left for the first port after the full ones when each later port gets one channel. */
  function Remainder(channels: nat, k: nat, ports: nat): int
    requires k >= 1
  {
    channels - k * FullPorts(channels, k, ports) - (ports - FullPorts(channels, k, ports) - 1)
  }

  function Share(channels: nat, k: nat, ports: nat, i: int): int
    requires k >= 1
  {
    if i < FullPorts(channels, k, ports) then k
    else if i == FullPorts(channels, k, ports) then Remainder(channels, k, ports)
    else 1
  }

  function Shares(channels: nat, k: nat, ports: nat, n: nat): (r: seq<int>)
    requires k >= 1
    ensures |r| == n
  {
    if n == 0 then [] else Shares(channels, k, ports, n - 1) + [Share(channels, k, ports, n - 1)]
  }

  lemma {:induction false} SharesAt(channels: nat, k: nat, ports: nat, n: nat, i: nat)
    requires k >= 1 && i < n
    ensures Shares(channels, k, ports, n)[i] == Share(channels, k, ports, i)
  {
    if i < n - 1 {
      SharesAt(channels, k, ports, n - 1, i);
    }
  }

  /**
   * The shares in numbers. The full ports are as many as `k` goes into the channels, or one less when that comes out
   * even before the ports are used up; the port after them gets what leaves one channel for each later port.
   */
  lemma ShareInNumbers(channels: nat, k: nat, ports: nat, i: nat)
    requires k >= 1 && i < ports
    ensures var q := channels / k;
      var full := if q < ports && q * k == channels then q - 1 else q;
      Shares(channels, k, ports, ports)[i] ==
      if i < full then k else if i == full then channels - k * full - (ports - 1 - full) else 1
  {
    SharesAt(channels, k, ports, ports, i);
  }

  function Sum(s: seq<int>): int {
    if s == [] then 0 else Sum(s[..|s| - 1]) + s[|s| - 1]
  }

  lemma FullPortsBounds(channels: nat, k: nat, ports: nat)
    requires channels >= 1 && k >= 1 && ports >= 2
    ensures FullPorts(channels, k, ports) >= 0
    ensures FullPorts(channels, k, ports) < ports ==> 1 <= channels - k * FullPorts(channels, k, ports) <= k
    ensures FullPorts(channels, k, ports) >= ports ==> k * ports <= channels
  {
    DivBounds(channels, k);
    var q := channels / k;
    Commute(q, k);
    MinusTimes(q, 1, k);
    Commute(q - 1, k);
    if q >= ports {
      MulMonotone(ports, q, k);
    }
  }

  /** The shares up to `n`, added up. */
  lemma {:induction false} SumOfShares(channels: nat, k: nat, ports: nat, n: nat)
    requires channels >= 1 && k >= 1 && ports >= 2 && n <= ports
    ensures Sum(Shares(channels, k, ports, n))
      == SumForm(k, n, FullPorts(channels, k, ports), Remainder(channels, k, ports))
  {
    FullPortsBounds(channels, k, ports);
    if n > 0 {
      SumOfShares(channels, k, ports, n - 1);
      OneShareMore(channels, k, ports, n);
      NextSum(k, n, FullPorts(channels, k, ports), Remainder(channels, k, ports));
    }
  }

  /** The closed form of the sums, for `full` full shares and the remainder `rest`. */
  function SumForm(k: nat, n: nat, full: int, rest: int): int {
    if n <= full then k * n else k * full + rest + (n - full - 1)
  }

  lemma NextSum(k: nat, n: nat, full: int, rest: int)
    requires n > 0 && full >= 0
    ensures SumForm(k, n, full, rest)
         == SumForm(k, n - 1, full, rest) + if n - 1 < full then k else if n - 1 == full then rest else 1
  {
    Successor(n - 1, k);
    Commute(n, k);
    Commute(n - 1, k);
  }

  lemma OneShareMore(channels: nat, k: nat, ports: nat, n: nat)
    requires k >= 1 && n > 0
    ensures Sum(Shares(channels, k, ports, n))
      == Sum(Shares(channels, k, ports, n - 1)) + Share(channels, k, ports, n - 1)
  {
    assert Shares(channels, k, ports, n)[..n - 1] == Shares(channels, k, ports, n - 1);
  }

  /** The loop: full shares first, then whatever keeps one channel for each later port. */
  method Split(channels: nat, k: nat, ports: nat) returns (gen: seq<int>, accepted: bool)
    requires channels >= 1 && k >= 1 && ports >= 2
    ensures gen == Shares(channels, k, ports, ports)
    ensures accepted <==> Sum(gen) == channels && 0 !in gen
  {
    var full := channels / k;
    if full < ports && full * k == channels {
      full := full - 1;
    }
    var last := k * full;
    gen := [];
    FullPortsBounds(channels, k, ports);
    var i: nat := 0;
    while i < ports
      invariant i <= ports && gen == Shares(channels, k, ports, i)
      invariant last == if i <= full then k * full else channels - (ports - i)
    {
      if i < full {
        gen := gen + [k];
      } else {
        var rest := channels - last;
        var share := if rest <= rest - (ports - i - 1) then rest else rest - (ports - i - 1);
        gen := gen + [share];
        last := last + share;
      }
      i := i + 1;
    }
    accepted := Sum(gen) == channels && 0 !in gen;
  }

  /** Every port gets between one channel and a full share, and all channels are dealt out. */
  ghost predicate Dealt(gen: seq<int>, channels: nat, k: nat) {
    Sum(gen) == channels && forall i :: 0 <= i < |gen| ==> 1 <= gen[i] <= k
  }

  /** The check after the loop: it only looks at the sum and for zeros. */
  lemma AcceptedIff(channels: nat, k: nat, ports: nat)
    requires channels >= 1 && k >= 1 && ports >= 2
    ensures var gen := Shares(channels, k, ports, ports);
      (Sum(gen) == channels && 0 !in gen) <==>
      if FullPorts(channels, k, ports) < ports then Remainder(channels, k, ports) != 0 else channels == k * ports
  {
    FullPortsBounds(channels, k, ports);
    SumOfShares(channels, k, ports, ports);
    var gen := Shares(channels, k, ports, ports);
    var full := FullPorts(channels, k, ports);
    forall i | 0 <= i < ports
      ensures gen[i] == Share(channels, k, ports, i)
    {
      SharesAt(channels, k, ports, ports, i);
    }
    if full < ports && Remainder(channels, k, ports) == 0 {
      assert gen[full] == 0;
    }
  }

  /**
   * The split deals out properly exactly when the channels fill the ports, or the channels left after the full
   * ports cover the remaining ports.
   */
  lemma DealtIff(channels: nat, k: nat, ports: nat)
    requires channels >= 1 && k >= 1 && ports >= 2
    ensures Dealt(Shares(channels, k, ports, ports), channels, k) <==>
      var full := FullPorts(channels, k, ports);
      if full < ports then channels - k * full >= ports - full else channels == k * ports
  {
    FullPortsBounds(channels, k, ports);
    SumOfShares(channels, k, ports, ports);
    var gen := Shares(channels, k, ports, ports);
    var full := FullPorts(channels, k, ports);
    forall i | 0 <= i < ports
      ensures gen[i] == Share(channels, k, ports, i)
    {
      SharesAt(channels, k, ports, ports, i);
    }
    if full < ports {
      assert gen[full] == Remainder(channels, k, ports);
    }
  }

  /** Five channels in shares of four over four ports: the check accepts a share of minus one. */
  lemma NegativeShareAccepted()
    ensures var gen := Shares(5, 4, 4, 4);
      gen == [4, -1, 1, 1] && Sum(gen) == 5 && 0 !in gen && !Dealt(gen, 5, 4)
  {
    assert FullPorts(5, 4, 4) == 1;
    assert Shares(5, 4, 4, 1) == [4];
    assert Shares(5, 4, 4, 2) == [4, -1];
    assert Shares(5, 4, 4, 3) == [4, -1, 1];
    AcceptedIff(5, 4, 4);
    assert Shares(5, 4, 4, 4)[1] == -1;
  }
}
