/**
 The report's grouping fold: a left-to-right pass over the filtered orders
 that keys each order by the string `productCode-status-store`, opens a
 group the first time a key is seen (copying that order's fields) and adds
 every order's quantity to its group's total. Groups are kept in the order
 their keys were first seen, which is the order in which a JavaScript object
 lists keys that are not array indices (a key always contains "-", so it
 never is one).
 */
module Grouping {

  import opened Wrappers
  import opened Orders
  import Seqs

  /** The key of the source: the three fields joined with "-". Distinct
      field triples can share a key (see `KeyCollisionMergesGroups`). */
  function GroupKey(o: Order): string
  {
    o.productCode + "-" + o.status + "-" + o.store
  }

  /** One grouped row: the first order seen with the key, and the total. */
  datatype Group = Group(rep: Order, totalQuantity: int)

  function KeyOf(g: Group): string
  {
    GroupKey(g.rep)
  }

  /** No two groups share a key. */
  predicate DistinctKeys(gs: seq<Group>)
  {
    forall i, j :: 0 <= i < j < |gs| ==> KeyOf(gs[i]) != KeyOf(gs[j])
  }

  function Keys(gs: seq<Group>): set<string>
  {
    set i | 0 <= i < |gs| :: KeyOf(gs[i])
  }

  function OrderKeys(os: seq<Order>): set<string>
  {
    set o | o in os :: GroupKey(o)
  }

  function SumQuantity(os: seq<Order>): int
  {
    Seqs.SumOf(os, (o: Order) => o.quantity)
  }

  function SumTotals(gs: seq<Group>): int
  {
    Seqs.SumOf(gs, (g: Group) => g.totalQuantity)
  }

  /** The orders of `os` whose key is `k`, in order. */
  function OrdersWithKey(os: seq<Order>, k: string): seq<Order>
  {
    Seqs.Filter(os, o => GroupKey(o) == k)
  }

  /** Position of the first order of `os` with key `k`. */
  function FirstWithKey(os: seq<Order>, k: string): Option<nat>
  {
    Seqs.FirstIndex(os, o => GroupKey(o) == k)
  }

  /** The `acc[key]` lookup: the position of the group with key `k`, if any. */
  function FindGroup(gs: seq<Group>, k: string): (r: Option<nat>)
    ensures r.Some? ==> r.value < |gs| && KeyOf(gs[r.value]) == k
    ensures r.None? ==> k !in Keys(gs)
  {
    Seqs.FirstIndex(gs, g => KeyOf(g) == k)
  }

  /** One step of the reduce: open the group if the key is new, with a copy
      of the order and a total of 0, then add the order's quantity to it. */
  function AddOrder(gs: seq<Group>, o: Order): (r: seq<Group>)
    ensures Keys(r) == Keys(gs) + {GroupKey(o)}
    ensures DistinctKeys(gs) ==> DistinctKeys(r)
    ensures |r| <= |gs| + 1
    ensures SumTotals(r) == SumTotals(gs) + o.quantity
  {
    var k := GroupKey(o);
    var found := FindGroup(gs, k);
    var withGroup := if found.None? then gs + [Group(o, 0)] else gs;
    var i := if found.None? then |gs| else found.value;
    assert Keys(withGroup) == Keys(gs) + {k} by {
      assert forall j :: 0 <= j < |gs| ==> withGroup[j] == gs[j];
    }
    Seqs.SumOfAppend(gs, [Group(o, 0)], (g: Group) => g.totalQuantity);
    Seqs.SumOfUpdate(withGroup, i, withGroup[i].(totalQuantity := withGroup[i].totalQuantity + o.quantity),
      (g: Group) => g.totalQuantity);
    var r := withGroup[i := withGroup[i].(totalQuantity := withGroup[i].totalQuantity + o.quantity)];
    assert forall j :: 0 <= j < |r| ==> KeyOf(r[j]) == KeyOf(withGroup[j]);
    r
  }

  /** A step whose key already has a group adds to that group only. */
  lemma AddOrderSeen(gs: seq<Group>, o: Order, j: nat)
    requires DistinctKeys(gs) && j < |gs| && KeyOf(gs[j]) == GroupKey(o)
    ensures AddOrder(gs, o) == gs[j := gs[j].(totalQuantity := gs[j].totalQuantity + o.quantity)]
  {
    var found := FindGroup(gs, GroupKey(o));
    assert found.Some? && found.value == j;
  }

  /** A step whose key is new appends a group for the order alone. */
  lemma AddOrderNew(gs: seq<Group>, o: Order)
    requires GroupKey(o) !in Keys(gs)
    ensures AddOrder(gs, o) == gs + [Group(o, o.quantity)]
  {
    var found := FindGroup(gs, GroupKey(o));
    assert found.None?;
  }

  /** The grouped rows of the report, folded over `os` from the left. */
  function GroupOrders(os: seq<Order>): (gs: seq<Group>)
    ensures DistinctKeys(gs)
    ensures Keys(gs) == OrderKeys(os)
    decreases |os|
  {
    if os == [] then []
    else
      var pre, o := os[..|os| - 1], os[|os| - 1];
      assert os == pre + [o];
      assert OrderKeys(os) == OrderKeys(pre) + {GroupKey(o)};
      AddOrder(GroupOrders(pre), o)
  }

  /** Splits a non-empty order list into the prefix the fold has already
      consumed and the order it consumes last. */
  lemma SplitLast(os: seq<Order>)
    requires os != []
    ensures GroupOrders(os) == AddOrder(GroupOrders(os[..|os| - 1]), os[|os| - 1])
  {
  }

  lemma SumQuantityLast(os: seq<Order>)
    requires os != []
    ensures SumQuantity(os) == SumQuantity(os[..|os| - 1]) + os[|os| - 1].quantity
  {
    assert os == os[..|os| - 1] + [os[|os| - 1]];
    Seqs.SumOfAppend(os[..|os| - 1], [os[|os| - 1]], (o: Order) => o.quantity);
  }

  lemma KeySumLast(os: seq<Order>, k: string)
    requires os != []
    ensures SumQuantity(OrdersWithKey(os, k)) ==
      SumQuantity(OrdersWithKey(os[..|os| - 1], k)) + if GroupKey(os[|os| - 1]) == k then os[|os| - 1].quantity else 0
  {
    var pre, o := os[..|os| - 1], os[|os| - 1];
    assert os == pre + [o];
    Seqs.FilterAppend(pre, [o], o => GroupKey(o) == k);
    Seqs.SumOfAppend(OrdersWithKey(pre, k), OrdersWithKey([o], k), (o: Order) => o.quantity);
  }

  lemma FirstWithKeyLast(os: seq<Order>, k: string)
    requires os != []
    ensures FirstWithKey(os, k) ==
      match FirstWithKey(os[..|os| - 1], k)
      case Some(j) => Some(j)
      case None => if GroupKey(os[|os| - 1]) == k then Some(|os| - 1) else None
  {
    assert os == os[..|os| - 1] + [os[|os| - 1]];
    Seqs.FirstIndexAppend(os[..|os| - 1], os[|os| - 1], o => GroupKey(o) == k);
  }

  /** A key no order carries has no orders and no first position. */
  lemma AbsentKey(os: seq<Order>, k: string)
    requires k !in OrderKeys(os)
    ensures OrdersWithKey(os, k) == []
    ensures FirstWithKey(os, k).None?
  {
    assert forall i :: 0 <= i < |os| ==> GroupKey(os[i]) != k by {
      forall i | 0 <= i < |os|
        ensures GroupKey(os[i]) != k
      {
        assert os[i] in os;
      }
    }
    Seqs.FilterKeepsNone(os, o => GroupKey(o) == k);
  }

  /** Grouping conserves quantity: the totals add up to the quantities of all orders. */
  lemma {:induction false} QuantityConserved(os: seq<Order>)
    ensures SumTotals(GroupOrders(os)) == SumQuantity(os)
    decreases |os|
  {
    if os != [] {
      var pre, o := os[..|os| - 1], os[|os| - 1];
      SplitLast(os);
      QuantityConserved(pre);
      SumQuantityLast(os);
    }
  }

  /** What the last step of the fold does to the groups built from the prefix:
      every existing group keeps its representative and gains the last
      order's quantity exactly when the keys agree; a group is appended, for
      the last order alone, exactly when its key is new. */
  lemma StepShape(os: seq<Order>)
    requires os != []
    ensures var pre, o := os[..|os| - 1], os[|os| - 1];
      var gs0, gs := GroupOrders(pre), GroupOrders(os);
      && (|gs| == |gs0| <==> GroupKey(o) in OrderKeys(pre))
      && (|gs| != |gs0| ==> |gs| == |gs0| + 1 && gs[|gs0|] == Group(o, o.quantity))
      && (forall i :: 0 <= i < |gs0| ==> gs[i].rep == gs0[i].rep)
      && (forall i :: 0 <= i < |gs0| ==>
            gs[i].totalQuantity == gs0[i].totalQuantity + if KeyOf(gs0[i]) == GroupKey(o) then o.quantity else 0)
  {
    SplitLast(os);
    var pre, o := os[..|os| - 1], os[|os| - 1];
    var gs0, k := GroupOrders(pre), GroupKey(o);
    var found := FindGroup(gs0, k);
    if found.Some? {
      AddOrderSeen(gs0, o, found.value);
    } else {
      AddOrderNew(gs0, o);
    }
  }

  /** `g`'s representative is the first order of `os` that carries its key. */
  ghost predicate RepIsFirst(os: seq<Order>, g: Group)
  {
    FirstWithKey(os, KeyOf(g)).Some? && os[FirstWithKey(os, KeyOf(g)).value] == g.rep
  }

  /** `g`'s total is the sum of the quantities of the orders of `os` with its key. */
  ghost predicate TotalIsKeySum(os: seq<Order>, g: Group)
  {
    g.totalQuantity == SumQuantity(OrdersWithKey(os, KeyOf(g)))
  }

  lemma RepIsFirstStep(os: seq<Order>, g0: Group, g: Group)
    requires os != [] && RepIsFirst(os[..|os| - 1], g0) && g.rep == g0.rep
    ensures RepIsFirst(os, g)
  {
    FirstWithKeyLast(os, KeyOf(g));
  }

  lemma RepIsFirstNew(os: seq<Order>)
    requires os != [] && GroupKey(os[|os| - 1]) !in OrderKeys(os[..|os| - 1])
    ensures RepIsFirst(os, Group(os[|os| - 1], os[|os| - 1].quantity))
  {
    AbsentKey(os[..|os| - 1], GroupKey(os[|os| - 1]));
    FirstWithKeyLast(os, GroupKey(os[|os| - 1]));
  }

  lemma TotalIsKeySumStep(os: seq<Order>, g0: Group, g: Group)
    requires os != [] && TotalIsKeySum(os[..|os| - 1], g0) && g.rep == g0.rep
    requires g.totalQuantity == g0.totalQuantity + if KeyOf(g0) == GroupKey(os[|os| - 1]) then os[|os| - 1].quantity else 0
    ensures TotalIsKeySum(os, g)
  {
    KeySumLast(os, KeyOf(g));
  }

  lemma TotalIsKeySumNew(os: seq<Order>)
    requires os != [] && GroupKey(os[|os| - 1]) !in OrderKeys(os[..|os| - 1])
    ensures TotalIsKeySum(os, Group(os[|os| - 1], os[|os| - 1].quantity))
  {
    AbsentKey(os[..|os| - 1], GroupKey(os[|os| - 1]));
    KeySumLast(os, GroupKey(os[|os| - 1]));
  }

  /** Each group's representative is the first order carrying its key. */
  lemma {:induction false} RepIsFirstWithKey(os: seq<Order>)
    ensures var gs := GroupOrders(os);
      forall i :: 0 <= i < |gs| ==> RepIsFirst(os, gs[i])
    decreases |os|
  {
    if os != [] {
      var pre := os[..|os| - 1];
      RepIsFirstWithKey(pre);
      StepShape(os);
      var gs0, gs := GroupOrders(pre), GroupOrders(os);
      forall i | 0 <= i < |gs|
        ensures RepIsFirst(os, gs[i])
      {
        if i < |gs0| {
          RepIsFirstStep(os, gs0[i], gs[i]);
        } else {
          RepIsFirstNew(os);
        }
      }
    }
  }

  /** Groups are listed in the order their keys first appear among the orders. */
  lemma {:induction false} GroupsInFirstAppearanceOrder(os: seq<Order>)
    ensures var gs := GroupOrders(os);
      forall i, j :: 0 <= i < j < |gs| ==>
        && FirstWithKey(os, KeyOf(gs[i])).Some? && FirstWithKey(os, KeyOf(gs[j])).Some?
        && FirstWithKey(os, KeyOf(gs[i])).value < FirstWithKey(os, KeyOf(gs[j])).value
    decreases |os|
  {
    RepIsFirstWithKey(os);
    if os != [] {
      var pre, o := os[..|os| - 1], os[|os| - 1];
      GroupsInFirstAppearanceOrder(pre);
      RepIsFirstWithKey(pre);
      StepShape(os);
      var gs0, gs := GroupOrders(pre), GroupOrders(os);
      forall i | 0 <= i < |gs0|
        ensures KeyOf(gs[i]) == KeyOf(gs0[i])
        ensures FirstWithKey(os, KeyOf(gs[i])) == FirstWithKey(pre, KeyOf(gs0[i]))
      {
        FirstWithKeyLast(os, KeyOf(gs0[i]));
      }
      if |gs| > |gs0| {
        AbsentKey(pre, GroupKey(o));
        FirstWithKeyLast(os, GroupKey(o));
      }
    }
  }

  /** Each group's total is the sum of the quantities of exactly the orders
      that carry its key. */
  lemma {:induction false} GroupTotalsAreKeySums(os: seq<Order>)
    ensures var gs := GroupOrders(os);
      forall i :: 0 <= i < |gs| ==> TotalIsKeySum(os, gs[i])
    decreases |os|
  {
    if os != [] {
      var pre := os[..|os| - 1];
      GroupTotalsAreKeySums(pre);
      StepShape(os);
      var gs0, gs := GroupOrders(pre), GroupOrders(os);
      forall i | 0 <= i < |gs|
        ensures TotalIsKeySum(os, gs[i])
      {
        if i < |gs0| {
          TotalIsKeySumStep(os, gs0[i], gs[i]);
        } else {
          TotalIsKeySumNew(os);
        }
      }
    }
  }

  /** With distinct keys, there are as many groups as keys. */
  lemma {:induction false} DistinctKeysCount(gs: seq<Group>)
    requires DistinctKeys(gs)
    ensures |Keys(gs)| == |gs|
    decreases |gs|
  {
    if gs != [] {
      var pre := gs[..|gs| - 1];
      DistinctKeysCount(pre);
      assert Keys(gs) == Keys(pre) + {KeyOf(gs[|gs| - 1])};
    }
  }

  /** There is exactly one group per distinct key among the orders. */
  lemma GroupCountIsKeyCount(os: seq<Order>)
    ensures |GroupOrders(os)| == |OrderKeys(os)|
  {
    DistinctKeysCount(GroupOrders(os));
  }

  /** There are no more distinct keys than orders. */
  lemma {:induction false} OrderKeysBound(os: seq<Order>)
    ensures |OrderKeys(os)| <= |os|
    decreases |os|
  {
    if os != [] {
      var pre, o := os[..|os| - 1], os[|os| - 1];
      OrderKeysBound(pre);
      assert os == pre + [o];
      assert OrderKeys(os) == OrderKeys(pre) + {GroupKey(o)};
    }
  }

  /** The report has at most as many rows as orders. */
  lemma GroupsAtMostOrders(os: seq<Order>)
    ensures |GroupOrders(os)| <= |os|
  {
    GroupCountIsKeyCount(os);
    OrderKeysBound(os);
  }

  /** An order with quantity 0 and an unseen key still opens its own group. */
  lemma ZeroQuantityOrderOpensGroup(os: seq<Order>, o: Order)
    requires o.quantity == 0
    requires GroupKey(o) !in OrderKeys(os)
    ensures GroupOrders(os + [o]) == GroupOrders(os) + [Group(o, 0)]
  {
    SplitLast(os + [o]);
    assert (os + [o])[..|os|] == os;
  }

  /** The key is not injective: two orders that differ in product code and
      status, but not in the joined string, fall into one group. */
  lemma KeyCollisionMergesGroups(a: Order, b: Order)
    requires a.productCode == "A-B" && a.status == "C"
    requires b.productCode == "A" && b.status == "B-C"
    requires a.store == b.store
    ensures a.productCode != b.productCode && a.status != b.status
    ensures GroupOrders([a, b]) == [Group(a, a.quantity + b.quantity)]
  {
    assert GroupKey(a) == GroupKey(b);
    SplitLast([a, b]);
    SplitLast([a]);
    assert [a, b][..1] == [a];
    assert [a][..0] == [];
  }

  /** `s` has no "-" in it. */
  predicate DashFree(s: string)
  {
    forall i :: 0 <= i < |s| ==> s[i] != '-'
  }

  /** Splits `k` at its last "-": the part before it and the part after it;
      without a "-" the whole of `k` is the part after. */
  function CutAtLastDash(k: string): (r: (string, string))
    ensures DashFree(r.1)
    decreases |k|
  {
    if k == [] then ([], [])
    else if k[|k| - 1] == '-' then (k[..|k| - 1], [])
    else
      var rest := CutAtLastDash(k[..|k| - 1]);
      (rest.0, rest.1 + [k[|k| - 1]])
  }

  /** Joining with "-" and cutting at the last "-" are inverse when the
      right-hand part has no "-". */
  lemma {:induction false} CutAtLastDashJoin(x: string, y: string)
    requires DashFree(y)
    ensures CutAtLastDash(x + "-" + y) == (x, y)
    decreases |y|
  {
    var k := x + "-" + y;
    if y == [] {
      assert k[..|k| - 1] == x;
    } else {
      var y' := y[..|y| - 1];
      assert k[..|k| - 1] == x + "-" + y';
      assert k[|k| - 1] == y[|y| - 1];
      CutAtLastDashJoin(x, y');
      assert y' + [y[|y| - 1]] == y;
    }
  }

  /** When neither status nor store contains "-", the key determines the
      three fields, so two orders share a group exactly when they agree on
      product code, status and store. The collision above needs a "-" in a
      status; the statuses the view offers have none. */
  lemma GroupKeyInjective(a: Order, b: Order)
    requires DashFree(a.status) && DashFree(a.store)
    requires DashFree(b.status) && DashFree(b.store)
    ensures GroupKey(a) == GroupKey(b) <==>
      a.productCode == b.productCode && a.status == b.status && a.store == b.store
  {
    if GroupKey(a) == GroupKey(b) {
      CutAtLastDashJoin(a.productCode + "-" + a.status, a.store);
      CutAtLastDashJoin(b.productCode + "-" + b.status, b.store);
      CutAtLastDashJoin(a.productCode, a.status);
      CutAtLastDashJoin(b.productCode, b.status);
    }
  }

  /** With dash-free statuses and stores, each group is one field triple:
      every order carrying a group's key has the product code, status and
      store of the group's representative, so no group merges two triples. */
  lemma GroupsAreSingleTriples(os: seq<Order>)
    requires forall i :: 0 <= i < |os| ==> DashFree(os[i].status) && DashFree(os[i].store)
    ensures var gs := GroupOrders(os);
      forall i, j :: 0 <= i < |gs| && 0 <= j < |os| && GroupKey(os[j]) == KeyOf(gs[i]) ==>
        && os[j].productCode == gs[i].rep.productCode
        && os[j].status == gs[i].rep.status
        && os[j].store == gs[i].rep.store
  {
    var gs := GroupOrders(os);
    RepIsFirstWithKey(os);
    forall i, j | 0 <= i < |gs| && 0 <= j < |os| && GroupKey(os[j]) == KeyOf(gs[i])
      ensures os[j].productCode == gs[i].rep.productCode
      ensures os[j].status == gs[i].rep.status && os[j].store == gs[i].rep.store
    {
      assert RepIsFirst(os, gs[i]);
      GroupKeyInjective(os[j], gs[i].rep);
    }
  }

  /** The rows the report shows: the filtered orders, grouped. */
  function ReportRows(orders: seq<Order>, c: Criteria): (rows: seq<Group>)
    ensures SumTotals(rows) == SumQuantity(FilterOrders(orders, c))
    ensures forall i :: 0 <= i < |rows| ==> rows[i].rep in orders && Matches(rows[i].rep, c)
    ensures Keys(rows) == OrderKeys(FilterOrders(orders, c))
  {
    var filtered := FilterOrders(orders, c);
    QuantityConserved(filtered);
    RepIsFirstWithKey(filtered);
    GroupOrders(filtered)
  }
}
