/** The order record and its status enumeration. */
module Orders {
  import opened Primitives

  datatype OrderStatus = Submitted | Processing | Completed | Cancelled

  datatype Order = Order(
    id: string,
    customerId: string,
    productId: string,
    productName: string,
    quantity: Int32,
    unitPrice: int,
    orderDateUtc: Option<int>,
    status: OrderStatus)
  {
    /** The order's total, always recomputed from the unit price and the quantity. */
    function TotalAmount(): (total: int)
      ensures total == 0 <==> unitPrice == 0 || quantity == 0
      ensures unitPrice >= 0 && quantity >= 0 ==> total >= 0
    {
      unitPrice * quantity
    }
  }

  /** `new Order()`: its property initialisers. */
  function NewOrder(): (o: Order)
    ensures o.status == Submitted
    ensures o.id == "" && o.customerId == "" && o.productId == "" && o.productName == ""
    ensures o.quantity == 0 && o.unitPrice == 0 && o.orderDateUtc.None?
    ensures o.TotalAmount() == 0
  {
    Order("", "", "", "", 0, 0, None, Submitted)
  }

  /** The enumeration's members in declaration order (underlying values 0 to 3). */
  const AllStatuses: seq<OrderStatus> := [Submitted, Processing, Completed, Cancelled]

  /** The status has exactly four members, all distinct. */
  lemma ExactlyFourStatuses()
    ensures |AllStatuses| == 4
    ensures forall s: OrderStatus :: s in AllStatuses
    ensures forall i, j :: 0 <= i < j < |AllStatuses| ==> AllStatuses[i] != AllStatuses[j]
  {
    forall s: OrderStatus ensures s in AllStatuses {
      match s
      case Submitted => assert AllStatuses[0] == s;
      case Processing => assert AllStatuses[1] == s;
      case Completed => assert AllStatuses[2] == s;
      case Cancelled => assert AllStatuses[3] == s;
    }
  }

  /** Changing the status never changes the total. */
  lemma TotalAmountIgnoresStatus(o: Order, s: OrderStatus)
    ensures o.(status := s).TotalAmount() == o.TotalAmount()
  {
  }

  /** A total scales with the quantity: an order of zero items totals zero, and
      splitting a quantity splits the total. */
  lemma TotalAmountLinear(o: Order, q1: Int32, q2: Int32)
    requires InInt32(q1 + q2)
    ensures o.(quantity := q1 + q2).TotalAmount()
         == o.(quantity := q1).TotalAmount() + o.(quantity := q2).TotalAmount()
  {
    assert o.unitPrice * (q1 + q2) == o.unitPrice * q1 + o.unitPrice * q2;
  }
}
