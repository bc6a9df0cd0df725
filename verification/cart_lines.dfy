/** Cart lines and the two list primitives the cart operations are built on:
    `find` by id and `filter` by id. */
module CartLines {
  import opened Wrappers

  /** Display fields of a catalogue product (name, price, image). The cart
      never looks at them; they are carried through unchanged. */
  datatype Display = Display(name: string, price: real, image: string)

  /** A product record as the cart stores it: the catalogue record spread
      into a new object together with the quantity in the cart. */
  datatype Product = Product(id: int, display: Display, amount: int)

  /** The cart snapshot: lines in the order they were first added. */
  type Cart = seq<Product>

  predicate Contains(c: Cart, id: int) {
    exists k :: 0 <= k < |c| && c[k].id == id
  }

  /** At most one line per product id. */
  predicate UniqueIds(c: Cart) {
    forall j, k :: 0 <= j < k < |c| ==> c[j].id != c[k].id
  }

  /** Every line holds at least one unit. */
  predicate PositiveAmounts(c: Cart) {
    forall k :: 0 <= k < |c| ==> c[k].amount >= 1
  }

  /** The cart invariant the three operations keep. */
  predicate WellFormed(c: Cart) {
    UniqueIds(c) && PositiveAmounts(c)
  }

  /** Line `k` is the first line of `c` whose id is `id`: the line `find` returns. */
  predicate FirstWith(c: Cart, id: int, k: nat) {
    && k < |c|
    && c[k].id == id
    && forall j :: 0 <= j < k ==> c[j].id != id
  }

  /** `after` is `before` with the amount of line `k` replaced by `a`:
      same length, same order, that line keeps its id and display fields,
      and every other line is untouched. */
  predicate AmountChangedAt(before: Cart, after: Cart, k: nat, a: int) {
    && |after| == |before|
    && k < |before|
    && after[k].id == before[k].id
    && after[k].display == before[k].display
    && after[k].amount == a
    && forall j :: 0 <= j < |before| && j != k ==> after[j] == before[j]
  }

  /** `after` is `before` with one line appended at the end that carries the
      id and display fields of `p` and the amount `a`. */
  predicate AppendedLine(before: Cart, after: Cart, p: Product, a: int) {
    && |after| == |before| + 1
    && after[..|before|] == before
    && after[|before|].id == p.id
    && after[|before|].display == p.display
    && after[|before|].amount == a
  }

  /** `cart.find(x => x.id === id)`, given as the index of the line found. */
  function Find(c: Cart, id: int): (r: Option<nat>)
    ensures r.None? <==> !Contains(c, id)
    ensures r.Some? ==> FirstWith(c, id, r.value)
  {
    if |c| == 0 then None
    else if c[0].id == id then Some(0)
    else
      match Find(c[1..], id)
      case None => None
      case Some(k) => Some(k + 1)
  }

  /** `cart.filter(x => x.id !== id)`: every line with that id is dropped. */
  function Without(c: Cart, id: int): (r: Cart)
    ensures !Contains(r, id)
    ensures |r| <= |c|
    ensures !Contains(c, id) ==> r == c
    ensures Contains(c, id) ==> |r| < |c|
  {
    if |c| == 0 then []
    else if c[0].id == id then Without(c[1..], id)
    else [c[0]] + Without(c[1..], id)
  }

  /** The filtered cart holds exactly the lines of the cart with another id,
      and filtering keeps ids unique. */
  lemma {:induction false} WithoutMembers(c: Cart, id: int)
    ensures forall x :: x in Without(c, id) <==> x in c && x.id != id
    ensures UniqueIds(c) ==> UniqueIds(Without(c, id))
  {
    if |c| > 0 {
      var rest := c[1..];
      WithoutMembers(rest, id);
      assert forall x :: x in c <==> x == c[0] || x in rest;
      if UniqueIds(c) && c[0].id != id {
        forall x | x in Without(rest, id) ensures x.id != c[0].id {
          var k :| 0 <= k < |rest| && rest[k] == x;
          assert c[k + 1] == x;
        }
        assert UniqueIds(rest);
      }
    }
  }

  /** Filtering distributes over concatenation: the surviving lines keep
      their relative order. */
  lemma {:induction false} WithoutConcat(a: Cart, b: Cart, id: int)
    ensures Without(a + b, id) == Without(a, id) + Without(b, id)
  {
    if |a| == 0 {
      assert a + b == b;
    } else {
      assert (a + b)[1..] == a[1..] + b;
      WithoutConcat(a[1..], b, id);
    }
  }

  /** With unique ids, the line `find` returns is the only line with its id. */
  lemma OnlyLineWith(c: Cart, id: int, k: nat)
    requires UniqueIds(c)
    requires FirstWith(c, id, k)
    ensures !Contains(c[..k], id)
    ensures !Contains(c[k + 1..], id)
  {
  }

  /** With unique ids, filtering out an id that is present deletes exactly
      the line `find` returns and nothing else. */
  lemma {:induction false} WithoutDeletesFirst(c: Cart, id: int, k: nat)
    requires UniqueIds(c)
    requires FirstWith(c, id, k)
    ensures Without(c, id) == c[..k] + c[k + 1..]
    ensures |Without(c, id)| == |c| - 1
  {
    var rest := c[1..];
    if k == 0 {
      OnlyLineWith(c, id, k);
      assert c[k + 1..] == rest;
      assert Without(c, id) == Without(rest, id);
    } else {
      assert FirstWith(rest, id, k - 1) by {
        forall j | 0 <= j < k - 1 ensures rest[j].id != id {
          assert rest[j] == c[j + 1];
        }
      }
      WithoutDeletesFirst(rest, id, k - 1);
      assert Without(c, id) == [c[0]] + Without(rest, id);
      assert c[..k] == [c[0]] + rest[..k - 1];
      assert c[k + 1..] == rest[k..];
    }
  }

  /** The cart with line `k` holding amount `a`, built as a new list. */
  function SetAmount(c: Cart, k: nat, a: int): (r: Cart)
    requires k < |c|
    ensures AmountChangedAt(c, r, k, a)
  {
    c[k := c[k].(amount := a)]
  }
}
