/**
 The purchase-order filter of the report view: an order record, the four
 filter criteria, the per-order match predicate and the stable filter over
 the order list.
 */
module Orders {

  import opened Wrappers
  import opened Text
  import Seqs

  /** A calendar date as a day number; later dates have larger numbers. */
  type Day = int

  datatype Order = Order(
    id: string,
    productCode: string,
    quantity: int,
    orderDate: Day,
    status: string,
    store: string)

  /** Inclusive bounds; `None` leaves that side unbounded. */
  datatype DateRange = DateRange(from: Option<Day>, to: Option<Day>)

  /** The four criteria the report filters by; `""` is the wildcard for the
      three text criteria. */
  datatype Criteria = Criteria(
    productCode: string,
    status: string,
    store: string,
    dateRange: DateRange)

  /** The criteria after "clear filters": every dimension is a wildcard. */
  const NoCriteria := Criteria("", "", "", DateRange(None, None))

  /** Whether one order passes all five conditions of the report's filter. */
  predicate Matches(o: Order, c: Criteria)
  {
    && (c.productCode == "" || Contains(Lower(o.productCode), Lower(c.productCode)))
    && (c.status == "" || o.status == c.status)
    && (c.store == "" || o.store == c.store)
    && (c.dateRange.from.None? || o.orderDate >= c.dateRange.from.value)
    && (c.dateRange.to.None? || o.orderDate <= c.dateRange.to.value)
  }

  /** An order is kept exactly when each criterion is a wildcard or holds of it,
      the product code being compared as a case-insensitive substring. */
  lemma MatchesIff(o: Order, c: Criteria)
    ensures Matches(o, c) <==>
      ((c.productCode == "" || exists i: nat :: OccursAt(Lower(o.productCode), Lower(c.productCode), i))
       && (c.status == "" || o.status == c.status)
       && (c.store == "" || o.store == c.store)
       && (c.dateRange.from.Some? ==> c.dateRange.from.value <= o.orderDate)
       && (c.dateRange.to.Some? ==> o.orderDate <= c.dateRange.to.value))
  {
    var hay, needle := Lower(o.productCode), Lower(c.productCode);
    ContainsIffOccurs(hay, needle);
    if Matches(o, c) && c.productCode != "" {
      assert Contains(hay, needle);
      assert exists i: nat :: OccursAt(hay, needle, i);
    }
  }

  /** Only the letters of the product-code criterion's case are irrelevant:
      lowercasing the criterion does not change which orders match. */
  lemma MatchIgnoresCriterionCase(o: Order, c: Criteria)
    ensures Matches(o, c) <==> Matches(o, c.(productCode := Lower(c.productCode)))
  {
    LowerIdempotent(c.productCode);
  }

  /** The report's filtered order list. */
  function FilterOrders(orders: seq<Order>, c: Criteria): (r: seq<Order>)
    ensures Seqs.IsSubsequence(r, orders)
    ensures forall o :: o in r <==> o in orders && Matches(o, c)
  {
    Seqs.Filter(orders, o => Matches(o, c))
  }

  /** A matching order is kept as many times as it is listed; any other is dropped. */
  lemma FilterOrdersCounts(orders: seq<Order>, c: Criteria)
    ensures forall o :: multiset(FilterOrders(orders, c))[o] == if Matches(o, c) then multiset(orders)[o] else 0
  {
    Seqs.FilterCounts(orders, o => Matches(o, c));
  }

  /** Filtering the filtered list again with the same criteria returns it unchanged. */
  lemma FilterOrdersIdempotent(orders: seq<Order>, c: Criteria)
    ensures FilterOrders(FilterOrders(orders, c), c) == FilterOrders(orders, c)
  {
    Seqs.FilterIdempotent(orders, o => Matches(o, c));
  }

  /** With every criterion a wildcard, the whole order list comes back unchanged. */
  lemma NoCriteriaKeepsAll(orders: seq<Order>)
    ensures FilterOrders(orders, NoCriteria) == orders
  {
    Seqs.FilterKeepsAll(orders, o => Matches(o, NoCriteria));
  }

  /** A date range whose lower bound lies after its upper bound matches nothing. */
  lemma InvertedRangeMatchesNothing(orders: seq<Order>, c: Criteria)
    requires c.dateRange.from.Some? && c.dateRange.to.Some?
    requires c.dateRange.from.value > c.dateRange.to.value
    ensures FilterOrders(orders, c) == []
  {
    Seqs.FilterKeepsNone(orders, o => Matches(o, c));
  }
}
