/** Properties relating the cart operations to each other and to runs of
    several operations one after another. */
module CartProperties {
  import opened Wrappers
  import opened CartLines
  import opened CartStore

  /** The product record is consulted only when it was requested: when
      addProduct makes no product request, its answer cannot matter. */
  lemma AddIgnoresUnrequestedProduct(cart: Cart, productId: int, stock: Result<int>, p1: Result<Product>, p2: Result<Product>)
    requires ProductOf(productId) !in AddProduct(cart, productId, stock, p1).requests
    ensures AddProduct(cart, productId, stock, p1) == AddProduct(cart, productId, stock, p2)
  {
  }

  /** A non-positive amount never reaches the stock request, so the answer
      to it cannot matter. */
  lemma UpdateIgnoresStockWhenNonPositive(cart: Cart, productId: int, amount: int, s1: Result<int>, s2: Result<int>)
    requires amount <= 0
    ensures UpdateProductAmount(cart, productId, amount, s1) == UpdateProductAmount(cart, productId, amount, s2)
  {
  }

  /** Adding a product that is already in the cart is the same as setting
      its amount to one more than it holds, with the same stock answer. */
  lemma AddExistingIsUpdateByOne(cart: Cart, productId: int, k: nat, stock: Result<int>, product: Result<Product>)
    requires FirstWith(cart, productId, k)
    requires cart[k].amount >= 0
    ensures AddProduct(cart, productId, stock, product).outcome
        == match stock
           case Failed => Declined(AddFailed)
           case Ok(_) => UpdateProductAmount(cart, productId, cart[k].amount + 1, stock).outcome
  {
  }

  /** Setting a line's amount and then setting it back restores the cart. */
  lemma UpdateThenRestore(cart: Cart, productId: int, k: nat, amount: int, available: int)
    requires FirstWith(cart, productId, k)
    requires 0 < amount <= available && 0 < cart[k].amount <= available
    ensures var first := UpdateProductAmount(cart, productId, amount, Ok(available)).outcome;
      && first.Committed?
      && UpdateProductAmount(first.cart, productId, cart[k].amount, Ok(available)).outcome == Committed(cart)
  {
  }

  /** removeProduct undoes a first addProduct: adding a product that is not
      in the cart and then removing it gives back the original cart. */
  lemma {:induction false} RemoveUndoesFirstAdd(cart: Cart, productId: int, available: int, p: Product)
    requires !Contains(cart, productId)
    requires available >= 1 && p.id == productId
    ensures var added := AddProduct(cart, productId, Ok(available), Ok(p)).outcome;
      && added.Committed?
      && RemoveProduct(added.cart, productId).outcome == Committed(cart)
  {
    var line := p.(amount := 1);
    var added := AddProduct(cart, productId, Ok(available), Ok(p)).outcome;
    assert added.cart == cart + [line];
    WithoutConcat(cart, [line], productId);
    assert Without([line], productId) == [] by {
      assert [line][1..] == [];
    }
    assert Without(cart + [line], productId) == cart;
  }

  /** The API answers one operation receives. */
  datatype Answers = Answers(stock: Result<int>, product: Result<Product>)

  /** The product answers describe the product that was asked for. */
  predicate Served(cmds: seq<Command>, answers: seq<Answers>)
    requires |answers| == |cmds|
  {
    forall i :: 0 <= i < |cmds| && answers[i].product.Ok? ==> answers[i].product.value.id == cmds[i].productId
  }

  /** Operations invoked one after another, each awaited to completion. */
  function RunAll(s: Store, cmds: seq<Command>, answers: seq<Answers>): (r: Store)
    requires |answers| == |cmds|
    decreases |cmds|
  {
    if |cmds| == 0 then s
    else
      var next := Run(s, cmds[0], answers[0].stock, answers[0].product).0;
      RunAll(next, cmds[1..], answers[1..])
  }

  /** Any serial sequence of operations keeps the cart well-formed and the
      storage slot equal to the published cart. */
  lemma {:induction false} RunAllKeepsInvariant(s: Store, cmds: seq<Command>, answers: seq<Answers>)
    requires |answers| == |cmds|
    requires WellFormed(s.cart) && Synced(s)
    requires Served(cmds, answers)
    ensures WellFormed(RunAll(s, cmds, answers).cart) && Synced(RunAll(s, cmds, answers))
    decreases |cmds|
  {
    if |cmds| > 0 {
      var next := Run(s, cmds[0], answers[0].stock, answers[0].product).0;
      assert Served(cmds[1..], answers[1..]) by {
        forall i | 0 <= i < |cmds| - 1 && answers[1..][i].product.Ok?
          ensures answers[1..][i].product.value.id == cmds[1..][i].productId
        {
          assert answers[1..][i] == answers[i + 1] && cmds[1..][i] == cmds[i + 1];
        }
      }
      RunAllKeepsInvariant(next, cmds[1..], answers[1..]);
    }
  }

  /** The walk-through of the cart: add product 1 twice with five in stock,
      ask for ten, then remove it. */
  lemma Scenario(d: Display)
    ensures
      var p := Product(1, d, 0);
      var s0 := Store([], []);
      var (s1, m1) := Run(s0, Add(1), Ok(5), Ok(p));
      var (s2, m2) := Run(s1, Add(1), Ok(5), Ok(p));
      var (s3, m3) := Run(s2, Update(1, 10), Ok(5), Failed);
      var (s4, m4) := Run(s3, Remove(1), Failed, Failed);
      && s1 == Store([Product(1, d, 1)], [Product(1, d, 1)]) && m1 == None
      && s2 == Store([Product(1, d, 2)], [Product(1, d, 2)]) && m2 == None
      && s3 == s2 && m3 == Some(OutOfStock)
      && s4 == Store([], []) && m4 == None
  {
  }
}
