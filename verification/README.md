# Cart hook model

A Dafny model of the cart mutation logic of the `CartProvider` React hook
(`src/hooks/useCart.tsx`) of a small shopping-cart front end. The cart is a
list of product lines, each a catalogue product record plus the quantity in
the cart. Three operations change it:

- `addProduct(productId)` asks the stock service for the available amount,
  finds the existing line, and either declines (target amount above stock),
  appends the fetched product with amount 1, or raises the existing line's
  amount by one;
- `removeProduct(productId)` filters the product's line out, or reports a
  failure when there is none;
- `updateProductAmount({productId, amount})` ignores non-positive amounts,
  declines amounts above stock (before looking at the cart), ignores absent
  lines, and otherwise sets the line's amount to exactly `amount`.

Each operation either commits (the new list is written to the storage slot
and then published) or leaves cart and storage alone, possibly emitting one
of four fixed notification texts.

## Layout

- `wrappers.dfy` — `Option` and a detail-free `Result` for remote answers
  (the source's bare `catch` collapses every failure into one).
- `cart_lines.dfy` — module `CartLines`: the `Product` line, the cart
  invariants (`UniqueIds`, `PositiveAmounts`), `Find` (`Array.find` by id,
  as the index of the first match) and `Without` (`Array.filter` on id).
- `cart_store.dfy` — module `CartStore`: the notification texts, the three
  operations as pure functions from the cart and the API answers to a
  `Step` (an `Outcome` plus the list of requests made), and `Settle`/`Run`,
  which apply an outcome to the pair (published cart, stored value).
- `cart_properties.dfy` — module `CartProperties`: lemmas relating the
  operations to each other and to serial runs, and the walk-through
  scenario.

The remote API is not called: the stock answer and the product answer are
inputs of type `Result`, and each `Step` records which requests
(`StockOf`, `ProductOf`) the operation made, so "the product is never
fetched" and "no stock request is made" are statements about that list.

## Model

| member | source | states |
|---|---|---|
| CartLines.Find | src/hooks/useCart.tsx:55 | finds nothing exactly when no line has the id; otherwise returns the first line with that id |
| CartLines.Without | src/hooks/useCart.tsx:96 | the filtered cart has no line with the id, is the cart itself when the id was absent, and is strictly shorter when it was present |
| CartLines.WithoutMembers | src/hooks/useCart.tsx:96 | a line is in the filtered cart if and only if it is in the cart with another id, and filtering keeps ids unique |
| CartLines.WithoutConcat | src/hooks/useCart.tsx:96 | filtering distributes over concatenation, so the surviving lines keep their original order |
| CartLines.WithoutDeletesFirst | src/hooks/useCart.tsx:92-96 | with unique ids, filtering out a present id deletes exactly the line find returns, and the length drops by one |
| CartStore.AddProduct | src/hooks/useCart.tsx:51-88 | the requests are exactly the stock request, followed by the product request only for a first add the stock allows; a stock failure or product failure gives the add-failure text; a target amount (existing amount + 1, or 1) above stock gives the out-of-stock text without a product request; a first add appends one line with the fetched product's id and display fields and amount 1, leaving earlier lines unchanged; a repeated add raises the found line's amount by one and changes nothing else; the cart invariant survives when the product answer is for the requested id |
| CartStore.RemoveProduct | src/hooks/useCart.tsx:90-108 | no request is made; the remove-failure text is emitted exactly when the id is absent; otherwise the result is the cart filtered by id (no line with the id, every other line kept in its original order, repeated lines included), and with unique ids is the cart with the found line deleted; the cart invariant survives |
| CartStore.UpdateProductAmount | src/hooks/useCart.tsx:110-140 | a non-positive amount makes no request and is a silent no-op; otherwise exactly one stock request; a stock failure gives the update-failure text; stock below the amount gives the out-of-stock text even for an absent line; an absent line with enough stock is a silent no-op; otherwise the found line's amount becomes exactly the amount and nothing else changes; the cart invariant survives |
| CartLines.SetAmount | src/hooks/useCart.tsx:132 | the found line's amount becomes exactly the given value; its id and display fields, the length, the order and every other line are unchanged |
| CartStore.Notification | src/hooks/useCart.tsx:63-138 | a notification is emitted exactly when the operation is declined, and it is the declined outcome's fixed text; committed and silent outcomes emit nothing |
| CartStore.Settle | src/hooks/useCart.tsx:78-135 | a committed cart is both stored and published; any other outcome leaves the store as it was |
| CartStore.Run | src/hooks/useCart.tsx:51-140 | one operation keeps the cart well-formed and the storage slot equal to the published cart, given product answers for the requested id; an operation that emits a notification, or that ends silently without committing, leaves the store unchanged; remove notifies exactly when the id is absent |
| CartProperties.AddIgnoresUnrequestedProduct | src/hooks/useCart.tsx:57-68 | when addProduct makes no product request, the product answer has no effect on its outcome |
| CartProperties.UpdateIgnoresStockWhenNonPositive | src/hooks/useCart.tsx:116-119 | for a non-positive amount the stock answer has no effect on updateProductAmount |
| CartProperties.AddExistingIsUpdateByOne | src/hooks/useCart.tsx:57-75 | adding a product already in the cart decides exactly as setting its amount to one more, apart from the failure text |
| CartProperties.UpdateThenRestore | src/hooks/useCart.tsx:127-135 | setting a line's amount and then setting it back, with enough stock, restores the original cart |
| CartProperties.RemoveUndoesFirstAdd | src/hooks/useCart.tsx:67-72 | removing a product right after its first add gives back the original cart, given a product answer for the requested id |
| CartProperties.RunAllKeepsInvariant | src/hooks/useCart.tsx:51-140 | any serial sequence of operations keeps ids unique, amounts at least 1, and the stored value equal to the published cart, given product answers for the requested id |
| CartProperties.Scenario | src/hooks/useCart.tsx:51-140 | from an empty cart with five in stock: add gives amount 1, add again gives amount 2, asking for ten is declined with the out-of-stock text, remove empties the cart |

## Notes on the model

- The new line of a first add is the fetched product record with its
  amount replaced, so its id is the id in the API's answer, not the id
  asked for. The invariant results therefore assume the product answer
  describes the requested product.
- `find` returns the first matching line and `filter` drops every matching
  line; the model keeps that difference, which only shows when ids repeat.
- The notification texts are the source's own Portuguese strings.
- At start-up the code calls `JSON.parse` on any non-empty stored value
  (line 31), which throws on corrupt stored data. Start-up is not part of
  this model.

## Left out

- React wiring (`createContext`, `useState`, the provider component,
  `useCart`, lines 1-35 and 142-155): framework plumbing, not cart logic.
- The HTTP client calls (lines 37-49): replaced by `Result` inputs and the
  recorded request list.
- `toast` notifications: modelled as the optional message of a run.
- `localStorage` and JSON encoding, including rehydration at start-up and
  the storage round trip: serialisation library code; the stored value is
  modelled as the cart itself.
- A failing `localStorage.setItem`: `addProduct` changes memory before its
  write (line 69 pushes onto the current array; line 74 changes the found
  line object), and so does `updateProductAmount` (line 132 changes the
  found line object), so a throwing write there would leave the in-memory
  list changed but unpublished; `removeProduct` builds a new array (line
  96), so a throwing write at line 97 leaves memory unchanged and only
  emits the remove-failure text. Storage failures are not modelled.
- Concurrent, interleaved calls and the lost updates they allow: operations
  are modelled as run one at a time.
- Display fields (name, price, image): an opaque `Display` value carried
  through unchanged.
- A successful stock answer without a numeric `amount` (for example
  `{"id":3}`): the response casts at lines 39 and 46 check nothing at run
  time, so the comparisons at lines 62 and 121 are false and the stock
  check passes; the model's stock answer is always a number or `Failed`.
- Amounts are mathematical integers; JavaScript numbers (fractions, huge
  values, `NaN`) are not modelled.
