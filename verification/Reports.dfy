/** When the wallet's report of insufficient balance agrees with the balance it shows. */
module BalanceReports {
  import opened Types
  import opened UtxoSpec
  import opened Admission
  import opened Conservation
  import opened WalletModel
  import Balances

  /** In no order is any beginning of the listing worth more, in 64 bits, than the whole. */
  ghost predicate NoneAhead(m: Index) {
    forall order, n :: OrderOf(m, order) && 0 < n <= |Listing(m, order)| ==>
      Wrap(PickSum(Listing(m, order)[..n])) <= Wrap(Total(m))
  }

  /** The report is right, for an index and every amount and order, exactly if a transfer is refused when `GetBalance`
      is below the amount. */
  ghost predicate ReportRight(m: Index) {
    forall order, amount: int :: OrderOf(m, order) ==>
      (Reaches(Listing(m, order), amount) <==> Wrap(Total(m)) >= amount)
  }

  lemma {:induction false} AllReaches(m: Index, order: seq<Bytes>, amount: int)
    requires OrderOf(m, order) && Wrap(Total(m)) >= amount
    ensures Reaches(Listing(m, order), amount)
  {
    var all := Listing(m, order);
    ListingTotal(m, order);
    assert all[..|all|] == all;
  }

  /** The step between: the report is right exactly if nothing is ever ahead of the total. */
  lemma {:induction false} ReportRightNoneAhead(m: Index)
    ensures ReportRight(m) <==> NoneAhead(m)
  {
    if NoneAhead(m) {
      forall order, amount: int | OrderOf(m, order)
        ensures Reaches(Listing(m, order), amount) <==> Wrap(Total(m)) >= amount
      {
        ListingTotal(m, order);
        if Wrap(Total(m)) >= amount {
          AllReaches(m, order, amount);
        }
      }
    }
    if ReportRight(m) {
      forall order, n | OrderOf(m, order) && 0 < n <= |Listing(m, order)|
        ensures Wrap(PickSum(Listing(m, order)[..n])) <= Wrap(Total(m))
      {
        var amount := Wrap(PickSum(Listing(m, order)[..n]));
        assert Reaches(Listing(m, order), amount);
      }
    }
  }

  lemma {:induction false} ListingHeld(m: Index, order: seq<Bytes>)
    requires forall id :: id in order ==> id in m
    ensures forall i :: 0 <= i < |Listing(m, order)| ==>
              Listing(m, order)[i].id in m && Listing(m, order)[i].entry in m[Listing(m, order)[i].id]
  {
    if order != [] {
      assert order == order[..|order| - 1] + [order[|order| - 1]];
      ListingHeld(m, order[..|order| - 1]);
    }
  }

  lemma {:induction false} PicksNonNegative(m: Index, picks: seq<Pick>)
    requires Balances.NonNegative(m)
    requires forall i :: 0 <= i < |picks| ==> picks[i].id in m && picks[i].entry in m[picks[i].id]
    ensures PickSum(picks) >= 0
  {
    if picks != [] {
      PicksNonNegative(m, picks[..|picks| - 1]);
    }
  }

  lemma {:induction false} BeginningSum(m: Index, all: seq<Pick>, n: nat)
    requires Balances.NonNegative(m) && n <= |all|
    requires forall i :: 0 <= i < |all| ==> all[i].id in m && all[i].entry in m[all[i].id]
    ensures 0 <= PickSum(all[..n]) <= PickSum(all)
  {
    PicksNonNegative(m, all[..n]);
    PicksNonNegative(m, all[n..]);
    PickSumConcat(all[..n], all[n..]);
    assert all[..n] + all[n..] == all;
  }

  lemma {:induction false} BeginningWithin(m: Index, order: seq<Bytes>, n: nat)
    requires Balances.NonNegative(m) && OrderOf(m, order) && n <= |Listing(m, order)|
    ensures 0 <= PickSum(Listing(m, order)[..n]) <= Total(m)
  {
    ListingTotal(m, order);
    ListingHeld(m, order);
    BeginningSum(m, Listing(m, order), n);
  }

  // ---------- a condition on the entries ----------

  /** Another entry holds something to pick. */
  ghost predicate Beside(m: Index, id: Bytes) {
    exists other :: other in m && other != id && m[other] != []
  }

  /** No tail of an entry has a negative sum; the whole of an entry that is the only one does not matter. */
  ghost predicate TailsHold(m: Index) {
    forall id, k: nat :: id in m && k < |m[id]| && (k > 0 || Beside(m, id)) ==> EntrySum(m[id][k..]) >= 0
  }

  ghost predicate BeginningsWithin(m: Index) {
    forall order, n :: OrderOf(m, order) && 0 < n <= |Listing(m, order)| ==>
      PickSum(Listing(m, order)[..n]) <= Total(m)
  }

  lemma {:induction false} ListingSome(m: Index, order: seq<Bytes>)
    ensures Listing(m, order) != [] <==> exists id :: id in order && Lookup(m, id) != []
  {
    if order != [] {
      var front, last := order[..|order| - 1], order[|order| - 1];
      assert order == front + [last];
      ListingSome(m, front);
      if Listing(m, front) != [] {
        var id :| id in front && Lookup(m, id) != [];
        assert id in order;
      }
    }
  }

  lemma {:induction false} PicksTail(id: Bytes, entry: seq<IndexedOutput>, k: nat)
    requires k <= |entry|
    ensures PickSum(PicksOf(id, entry)[k..]) == EntrySum(entry[k..])
  {
    assert PicksOf(id, entry)[k..] == PicksOf(id, entry[k..]);
    PicksOfSum(id, entry[k..]);
  }

  /** The picks that come before those of the last entry. */
  function Before(m: Index, order: seq<Bytes>): (picks: seq<Pick>)
    requires order != []
    ensures Listing(m, order) == picks + PicksOf(order[|order| - 1], Lookup(m, order[|order| - 1]))
  {
    Listing(m, order[..|order| - 1])
  }

  /** What is left of a listing after a beginning with the last entry's first `k` outputs at its end. */
  lemma {:induction false} RestOfLast(m: Index, order: seq<Bytes>, k: nat)
    requires order != [] && k <= |Lookup(m, order[|order| - 1])|
    ensures var all, n := Listing(m, order), |Before(m, order)| + k;
            n <= |all| && PickSum(all[n..]) == EntrySum(Lookup(m, order[|order| - 1])[k..])
  {
    var all, first, id := Listing(m, order), Before(m, order), order[|order| - 1];
    assert all[|first| + k..] == PicksOf(id, Lookup(m, id))[k..];
    PicksTail(id, Lookup(m, id), k);
  }

  lemma {:induction false} TwoParts(all: seq<Pick>, n: nat)
    requires n <= |all|
    ensures PickSum(all[..n]) + PickSum(all[n..]) == PickSum(all)
  {
    PickSumConcat(all[..n], all[n..]);
    assert all[..n] + all[n..] == all;
  }

  /** An order that meets `id` last. */
  lemma {:induction false} LastInOrder(m: Index, id: Bytes) returns (order: seq<Bytes>)
    requires id in m
    ensures OrderOf(m, order) && order != [] && order[|order| - 1] == id
  {
    var front := SomeOrder(m.Keys - {id});
    ListsConcat(front, m.Keys - {id}, [id], {id});
    assert m.Keys - {id} + {id} == m.Keys;
    order := front + [id];
  }

  lemma {:induction false} SomethingBefore(m: Index, order: seq<Bytes>)
    requires OrderOf(m, order) && order != [] && Beside(m, order[|order| - 1])
    ensures Before(m, order) != []
  {
    var n := |order| - 1;
    var other :| other in m && other != order[n] && m[other] != [];
    assert other in order && order == order[..n] + [order[n]];
    assert other in order[..n] && Lookup(m, other) != [];
    ListingSome(m, order[..n]);
  }

  /** A beginning and the tail it leaves are worth the total. */
  lemma {:induction false} BeginningAndTail(m: Index, order: seq<Bytes>, k: nat)
    requires OrderOf(m, order) && order != [] && k <= |Lookup(m, order[|order| - 1])|
    ensures var all, n := Listing(m, order), |Before(m, order)| + k;
            n <= |all| && PickSum(all[..n]) + EntrySum(Lookup(m, order[|order| - 1])[k..]) == Total(m)
  {
    RestOfLast(m, order, k);
    var all, n := Listing(m, order), |Before(m, order)| + k;
    assert PickSum(all) == Total(m) by {
      ListingTotal(m, order);
    }
    assert PickSum(all[..n]) + PickSum(all[n..]) == PickSum(all) by {
      TwoParts(all, n);
    }
  }

  lemma {:induction false} BeginningAt(m: Index, order: seq<Bytes>, n: nat)
    requires BeginningsWithin(m) && OrderOf(m, order) && 0 < n <= |Listing(m, order)|
    ensures PickSum(Listing(m, order)[..n]) <= Total(m)
  {
  }

  lemma {:induction false} TailNeeded(m: Index, id: Bytes, k: nat)
    requires BeginningsWithin(m) && id in m && k < |m[id]| && (k > 0 || Beside(m, id))
    ensures EntrySum(m[id][k..]) >= 0
  {
    var order := LastInOrder(m, id);
    assert Lookup(m, id) == m[id];
    BeginningAndTail(m, order, k);
    if k == 0 {
      SomethingBefore(m, order);
    }
    BeginningAt(m, order, |Before(m, order)| + k);
  }

  lemma {:induction false} TailAt(m: Index, id: Bytes, k: nat)
    requires TailsHold(m) && k <= |Lookup(m, id)| && (k > 0 || Beside(m, id))
    ensures EntrySum(Lookup(m, id)[k..]) >= 0
  {
    if k < |Lookup(m, id)| {
      assert EntrySum(m[id][k..]) >= 0;
    }
  }

  /** What a beginning leaves when it stops before the last entry. */
  lemma {:induction false} RestBeforeLast(m: Index, order: seq<Bytes>, n: nat)
    requires order != [] && n <= |Before(m, order)|
    ensures n <= |Listing(m, order)|
    ensures PickSum(Listing(m, order)[n..])
            == PickSum(Before(m, order)[n..]) + EntrySum(Lookup(m, order[|order| - 1])[0..])
  {
    var first, id := Before(m, order), order[|order| - 1];
    var picks := PicksOf(id, Lookup(m, id));
    assert (first + picks)[n..] == first[n..] + picks;
    PickSumConcat(first[n..], picks);
    PicksTail(id, Lookup(m, id), 0);
    assert picks[0..] == picks;
  }

  lemma {:induction false} ListsFront(order: seq<Bytes>, keys: set<Bytes>)
    requires order != [] && Lists(order, keys)
    ensures Lists(order[..|order| - 1], keys - {order[|order| - 1]}) && order[|order| - 1] in keys
  {
    var n := |order| - 1;
    assert order == order[..n] + [order[n]];
  }

  /** Tails are enough: what is left of any listing after a beginning is made of tails. */
  lemma {:induction false} TailsEnough(m: Index, order: seq<Bytes>, keys: set<Bytes>, n: nat)
    requires TailsHold(m) && Lists(order, keys) && keys <= m.Keys && 0 < n <= |Listing(m, order)|
    ensures PickSum(Listing(m, order)[n..]) >= 0
    decreases |order|
  {
    if order != [] {
      var front, id, first := order[..|order| - 1], order[|order| - 1], |Before(m, order)|;
      ListsFront(order, keys);
      if first > 0 {
        BesideLast(m, front, keys - {id}, id);
      }
      if n >= first {
        RestOfLast(m, order, n - first);
        TailAt(m, id, n - first);
      } else {
        RestBeforeLast(m, order, n);
        TailsEnough(m, front, keys - {id}, n);
        TailAt(m, id, 0);
      }
    }
  }

  lemma {:induction false} BesideLast(m: Index, front: seq<Bytes>, keys: set<Bytes>, id: Bytes)
    requires Lists(front, keys) && keys <= m.Keys && id !in keys && Listing(m, front) != []
    ensures Beside(m, id)
  {
    ListingSome(m, front);
    var other :| other in front && Lookup(m, other) != [];
    assert other in m && other != id && m[other] != [];
  }

  /** A transfer is ahead of the balance in some order exactly if a tail of some entry has a negative sum. */
  lemma {:induction false} BeginningsWithinIff(m: Index)
    ensures BeginningsWithin(m) <==> TailsHold(m)
  {
    if BeginningsWithin(m) {
      forall id, k: nat | id in m && k < |m[id]| && (k > 0 || Beside(m, id)) ensures EntrySum(m[id][k..]) >= 0 {
        TailNeeded(m, id, k);
      }
    }
    if TailsHold(m) {
      forall order, n | OrderOf(m, order) && 0 < n <= |Listing(m, order)|
        ensures PickSum(Listing(m, order)[..n]) <= Total(m)
      {
        TailsEnough(m, order, m.Keys, n);
        TwoParts(Listing(m, order), n);
        ListingTotal(m, order);
      }
    }
  }

  // ---------- sums within 64 bits ----------

  ghost predicate SumsFit(m: Index) {
    forall order, n :: OrderOf(m, order) && 0 <= n <= |Listing(m, order)| ==> Fits(PickSum(Listing(m, order)[..n]))
  }

  lemma {:induction false} TotalFits(m: Index)
    requires SumsFit(m)
    ensures Fits(Total(m)) && Wrap(Total(m)) == Total(m)
  {
    var order := SomeOrder(m.Keys);
    var all := Listing(m, order);
    ListingTotal(m, order);
    assert all[..|all|] == all;
    assert Fits(PickSum(all[..|all|]));
    WrapFacts(Total(m), 0);
  }

  /** Main theorem on the report: with sums within 64 bits, "not enough balance" agrees with `GetBalance`, for every
      amount and in every order, exactly if no tail of an entry has a negative sum. */
  lemma {:induction false} ReportRightIff(m: Index)
    requires SumsFit(m)
    ensures ReportRight(m) <==> TailsHold(m)
  {
    TotalFits(m);
    forall order, n | OrderOf(m, order) && 0 < n <= |Listing(m, order)|
      ensures Wrap(PickSum(Listing(m, order)[..n])) == PickSum(Listing(m, order)[..n])
    {
      WrapFacts(PickSum(Listing(m, order)[..n]), 0);
    }
    assert NoneAhead(m) <==> BeginningsWithin(m);
    ReportRightNoneAhead(m);
    BeginningsWithinIff(m);
  }

  function Abs(x: int): int {
    if x < 0 then -x else x
  }

  /** The index with all values taken as positive. */
  function Absolute(m: Index): Index {
    map id | id in m :: AbsoluteEntry(m[id])
  }

  function AbsoluteOutput(e: IndexedOutput): IndexedOutput {
    e.(output := e.output.(value := Abs(e.output.value)))
  }

  function AbsoluteEntry(entry: seq<IndexedOutput>): (r: seq<IndexedOutput>)
    ensures |r| == |entry|
  {
    seq(|entry|, i requires 0 <= i < |entry| => AbsoluteOutput(entry[i]))
  }

  lemma {:induction false} AbsolutePicks(m: Index, order: seq<Bytes>, n: nat)
    requires n <= |Listing(m, order)|
    ensures |Listing(Absolute(m), order)| == |Listing(m, order)|
    ensures Abs(PickSum(Listing(m, order)[..n])) <= PickSum(Listing(Absolute(m), order)[..n])
  {
    ListingAbsolute(m, order);
    SumAbsolute(Listing(m, order)[..n], Listing(Absolute(m), order)[..n]);
  }

  lemma {:induction false} ListingAbsolute(m: Index, order: seq<Bytes>)
    ensures var a, b := Listing(m, order), Listing(Absolute(m), order);
            |a| == |b| && forall i :: 0 <= i < |a| ==> b[i].entry.output.value == Abs(a[i].entry.output.value)
  {
    if order != [] {
      ListingAbsolute(m, order[..|order| - 1]);
    }
  }

  lemma {:induction false} SumAbsolute(a: seq<Pick>, b: seq<Pick>)
    requires |a| == |b| && forall i :: 0 <= i < |a| ==> b[i].entry.output.value == Abs(a[i].entry.output.value)
    ensures Abs(PickSum(a)) <= PickSum(b)
  {
    if a != [] {
      SumAbsolute(a[..|a| - 1], b[..|b| - 1]);
    }
  }

  /** All sums are within 64 bits if the magnitudes of the outputs add up to less than the limit. */
  lemma {:induction false} MagnitudesFit(m: Index)
    requires Total(Absolute(m)) < TWO63
    ensures SumsFit(m)
  {
    var absolute := Absolute(m);
    forall id: Bytes, e: IndexedOutput | id in absolute && e in absolute[id] ensures e.output.value >= 0 {}
    forall order, n | OrderOf(m, order) && 0 <= n <= |Listing(m, order)|
      ensures Fits(PickSum(Listing(m, order)[..n]))
    {
      AbsolutePicks(m, order, n);
      assert absolute.Keys == m.Keys;
      BeginningWithin(absolute, order, n);
    }
  }

  lemma {:induction false} NonNegativeTails(m: Index)
    requires Balances.NonNegative(m)
    ensures TailsHold(m)
  {
    forall id, k: nat | id in m && k < |m[id]| && (k > 0 || Beside(m, id)) ensures EntrySum(m[id][k..]) >= 0 {
      Balances.PrefixSum(m[id][k..], |m[id]| - k);
      assert m[id][k..][..|m[id]| - k] == m[id][k..];
    }
  }

  /** So it is right without negative values and with a balance within 64 bits. */
  lemma {:induction false} NonNegativeReportRight(m: Index)
    requires Balances.NonNegative(m) && Fits(Total(m))
    ensures ReportRight(m)
  {
    forall order, n | OrderOf(m, order) && 0 <= n <= |Listing(m, order)|
      ensures Fits(PickSum(Listing(m, order)[..n]))
    {
      BeginningWithin(m, order, n);
    }
    NonNegativeTails(m);
    ReportRightIff(m);
  }

  /** Negative values defeat the report: with outputs of 5 and -5 in one transaction the balance is 0, and still a
      transfer of 5 is sent. */
  lemma {:induction false} NegativeBalanceExample(id: Bytes, script: LockingScript)
    ensures var e, e' := IndexedOutput(TxOutput(5, script), 0), IndexedOutput(TxOutput(-5, script), 1);
            var m: Index := map[id := [e, e']];
            Total(m) == 0 && OrderOf(m, [id]) && Reaches(Listing(m, [id]), 5) && !ReportRight(m)
  {
    var e, e' := IndexedOutput(TxOutput(5, script), 0), IndexedOutput(TxOutput(-5, script), 1);
    var entry := [e, e'];
    var m: Index := map[id := entry];
    assert EntrySum(entry) == 0 by {
      assert entry[..1] == [e] && [e][..0] == [];
      assert EntrySum([e]) == EntrySum([]) + 5;
    }
    assert m.Keys == {id} && TotalOver(m, {id} - {id}) == 0;
    TotalPick(m, {id}, id);
    var all := Listing(m, [id]);
    assert all == PicksOf(id, entry) by {
      assert [id][..0] == [] && Listing(m, []) == [] && Lookup(m, id) == entry;
      assert [] + PicksOf(id, entry) == PicksOf(id, entry);
    }
    assert PickSum(all[..1]) == PickSum([]) + 5 by {
      assert all[..1] == [Pick(id, e)] && all[..1][..0] == [];
    }
    ReachedIn(all, all[..1], 5);
    assert Wrap(0) == 0;
  }
}
