/** Totals of the bytes that a peripheral reports to the host. */
module Credit {
  function Total(reports: seq<nat>): nat {
    if reports == [] then 0 else reports[0] + Total(reports[1..])
  }

  lemma {:induction false} TotalSnoc(reports: seq<nat>, n: nat)
    ensures Total(reports + [n]) == Total(reports) + n
  {
    if reports == [] {
      assert [n][1..] == [] && [] + [n] == [n];
    } else {
      assert (reports + [n])[1..] == reports[1..] + [n];
      TotalSnoc(reports[1..], n);
    }
  }
}
