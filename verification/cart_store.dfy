/** The cart provider's three mutations, each a pure function from the
    current cart and the answers of the remote API to a decision, and the
    step that persists and publishes a committed cart. */
module CartStore {
  import opened Wrappers
  import opened CartLines

  // The fixed notification texts. The out-of-stock text is shared by
  // addProduct and updateProductAmount.
  const OutOfStock := "Quantidade solicitada fora de estoque"
  const AddFailed := "Erro na adição do produto"
  const RemoveFailed := "Erro na remoção do produto"
  const UpdateFailed := "Erro na alteração de quantidade do produto"

  /** A request to the remote API: `GET /stock/{id}` or `GET /products/{id}`. */
  datatype Request = StockOf(productId: int) | ProductOf(productId: int)

  /** How an operation ends: the new cart is written and published, or the
      operation stops with a notification, or it stops silently. */
  datatype Outcome = Committed(cart: Cart) | Declined(message: string) | NoOp

  /** An operation's decision together with the requests it made, in order. */
  datatype Step = Step(outcome: Outcome, requests: seq<Request>)

  /** The published cart and the value held in the durable storage slot. */
  datatype Store = Store(cart: Cart, stored: Cart)

  /** The storage slot holds exactly the published cart. */
  predicate Synced(s: Store) {
    s.stored == s.cart
  }

  /** The notification an outcome emits, if any. */
  function Notification(o: Outcome): (r: Option<string>)
    ensures r.Some? <==> o.Declined?
    ensures r.Some? ==> r.value == o.message
    ensures o.Committed? || o.NoOp? ==> r == None
  {
    if o.Declined? then Some(o.message) else None
  }

  /** addProduct: the stock is always fetched first; the target amount is one
      more than the existing line's, or 1 for a new line; the product record
      is fetched only for a new line that the stock allows. `stock` is the
      answer for the stock amount and `product` the answer the product
      request would get. */
  function AddProduct(cart: Cart, productId: int, stock: Result<int>, product: Result<Product>): (r: Step)
    ensures r.requests == [StockOf(productId)]
        + (if stock.Ok? && !Contains(cart, productId) && stock.value >= 1 then [ProductOf(productId)] else [])
    ensures !r.outcome.NoOp?
    ensures stock.Failed? ==> r.outcome == Declined(AddFailed)
    // first add of a product
    ensures stock.Ok? && !Contains(cart, productId) && stock.value < 1
        ==> r.outcome == Declined(OutOfStock)
    ensures stock.Ok? && !Contains(cart, productId) && stock.value >= 1 && product.Failed?
        ==> r.outcome == Declined(AddFailed)
    ensures stock.Ok? && !Contains(cart, productId) && stock.value >= 1 && product.Ok?
        ==> r.outcome.Committed? && AppendedLine(cart, r.outcome.cart, product.value, 1)
    // repeated add of a product: the line `find` returns gets one more unit
    ensures forall k: nat :: FirstWith(cart, productId, k) && stock.Ok? ==>
        if stock.value < cart[k].amount + 1 then r.outcome == Declined(OutOfStock)
        else r.outcome.Committed? && AmountChangedAt(cart, r.outcome.cart, k, cart[k].amount + 1)
    // the cart invariant survives, given a product record for the requested id
    ensures WellFormed(cart) && r.outcome.Committed? && (product.Ok? ==> product.value.id == productId)
        ==> WellFormed(r.outcome.cart)
  {
    match stock
    case Failed => Step(Declined(AddFailed), [StockOf(productId)])
    case Ok(available) =>
      var found := Find(cart, productId);
      var target := if found.None? then 1 else cart[found.value].amount + 1;
      if available < target then
        Step(Declined(OutOfStock), [StockOf(productId)])
      else if found.None? then
        var requests := [StockOf(productId), ProductOf(productId)];
        match product
        case Failed => Step(Declined(AddFailed), requests)
        case Ok(p) => Step(Committed(cart + [p.(amount := target)]), requests)
      else
        Step(Committed(SetAmount(cart, found.value, target)), [StockOf(productId)])
  }

  /** removeProduct: purely local; an absent id is a failure, a present one
      is filtered out. */
  function RemoveProduct(cart: Cart, productId: int): (r: Step)
    ensures r.requests == []
    ensures r.outcome == Declined(RemoveFailed) <==> !Contains(cart, productId)
    // a present id is filtered out: every other line stays, in order, duplicates included
    ensures Contains(cart, productId) ==> r.outcome == Committed(Without(cart, productId))
    ensures r.outcome.Committed? ==>
        && !Contains(r.outcome.cart, productId)
        && (forall x :: x in cart && x.id != productId ==> x in r.outcome.cart)
        && (forall x :: x in r.outcome.cart ==> x in cart)
        && |r.outcome.cart| < |cart|
    // with unique ids exactly the found line is deleted, the rest keep their order
    ensures forall k: nat :: FirstWith(cart, productId, k) && UniqueIds(cart) ==>
        r.outcome == Committed(cart[..k] + cart[k + 1..])
    ensures WellFormed(cart) && r.outcome.Committed? ==> WellFormed(r.outcome.cart)
  {
    match Find(cart, productId)
    case None => Step(Declined(RemoveFailed), [])
    case Some(k) =>
      var rest := Without(cart, productId);
      WithoutMembers(cart, productId);
      assert UniqueIds(cart) ==> rest == cart[..k] + cart[k + 1..] by {
        if UniqueIds(cart) {
          WithoutDeletesFirst(cart, productId, k);
        }
      }
      Step(Committed(rest), [])
  }

  /** updateProductAmount: a non-positive amount is ignored outright; then the
      stock is checked before the line is looked up; the found line's amount
      is set to exactly `amount`. */
  function UpdateProductAmount(cart: Cart, productId: int, amount: int, stock: Result<int>): (r: Step)
    ensures amount <= 0 ==> r == Step(NoOp, [])
    ensures amount > 0 ==> r.requests == [StockOf(productId)]
    ensures amount > 0 && stock.Failed? ==> r.outcome == Declined(UpdateFailed)
    ensures amount > 0 && stock.Ok? && stock.value < amount ==> r.outcome == Declined(OutOfStock)
    ensures amount > 0 && stock.Ok? && stock.value >= amount && !Contains(cart, productId)
        ==> r.outcome == NoOp
    ensures forall k: nat ::
        (FirstWith(cart, productId, k) && amount > 0 && stock.Ok? && stock.value >= amount
        ==> r.outcome.Committed? && AmountChangedAt(cart, r.outcome.cart, k, amount))
    ensures WellFormed(cart) && r.outcome.Committed? ==> WellFormed(r.outcome.cart)
  {
    if amount <= 0 then Step(NoOp, [])
    else
      var requests := [StockOf(productId)];
      match stock
      case Failed => Step(Declined(UpdateFailed), requests)
      case Ok(available) =>
        if available < amount then Step(Declined(OutOfStock), requests)
        else
          match Find(cart, productId)
          case None => Step(NoOp, requests)
          case Some(k) => Step(Committed(SetAmount(cart, k, amount)), requests)
  }

  /** The end of every operation: a committed cart is written to storage and
      then published, so both hold it; any other outcome touches neither. */
  function Settle(s: Store, o: Outcome): (s': Store)
    ensures o.Committed? ==> Synced(s') && s'.cart == o.cart
    ensures !o.Committed? ==> s' == s
  {
    if o.Committed? then Store(o.cart, o.cart) else s
  }

  /** A call of one of the three operations by the interface. */
  datatype Command = Add(productId: int) | Remove(productId: int) | Update(productId: int, amount: int)

  function Decide(cart: Cart, cmd: Command, stock: Result<int>, product: Result<Product>): Step {
    match cmd
    case Add(id) => AddProduct(cart, id, stock, product)
    case Remove(id) => RemoveProduct(cart, id)
    case Update(id, amount) => UpdateProductAmount(cart, id, amount, stock)
  }

  /** One operation run to completion against a store, with the API answers
      as inputs. The invariant "well-formed and in sync" is kept, and a
      run that does not commit leaves the store exactly as it was. */
  function Run(s: Store, cmd: Command, stock: Result<int>, product: Result<Product>): (r: (Store, Option<string>))
    ensures WellFormed(s.cart) && Synced(s) && (product.Ok? ==> product.value.id == cmd.productId)
        ==> WellFormed(r.0.cart) && Synced(r.0)
    ensures r.1.Some? ==> r.0 == s
    ensures !Decide(s.cart, cmd, stock, product).outcome.Committed? ==> r.0 == s
    ensures r.0.cart != s.cart ==> Synced(r.0)
    ensures cmd.Remove? ==> (r.1.None? <==> Contains(s.cart, cmd.productId))
  {
    var step := Decide(s.cart, cmd, stock, product);
    (Settle(s, step.outcome), Notification(step.outcome))
  }
}
