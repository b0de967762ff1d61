/** The cart store: a local cart list unique by item id, the cart-open flag,
    and a FIFO queue of add/remove operations that a reconciliation pass
    replays against the external checkout basket. */
module CartContext {
  import opened JsValues
  import opened Sequences

  datatype Option<T> = None | Some(value: T)

  /** A cart entry as the storefront stores it. */
  datatype CartItem = CartItem(id: Scalar, name: Scalar, price: Scalar, description: Scalar,
                               category: Scalar, image: Scalar, url: Scalar)

  /** A queued basket operation (`{type: 'add' | 'remove', itemId}`). */
  datatype PendingOp = AddOp(itemId: Scalar) | RemoveOp(itemId: Scalar)

  /** A package as the external basket reports it: the seven cart fields and
      whatever further fields the provider attaches. */
  datatype BasketPackage = BasketPackage(id: Scalar, name: Scalar, price: Scalar, description: Scalar,
                                         category: Scalar, image: Scalar, url: Scalar,
                                         extra: map<string, Scalar>)

  /** `basketData`: `packages` is `None` when the field is missing or null. */
  datatype BasketData = BasketData(packages: Option<seq<BasketPackage>>)

  /** One call made on the external basket. */
  datatype BasketCall =
    | GetOrCreateCall(user: Scalar)
    | FetchCall(ident: Scalar)
    | AddCall(itemId: Scalar, quantity: int)
    | RemoveCall(itemId: Scalar)

  // ---------------------------------------------------------------------------
  // Queries over item lists
  // ---------------------------------------------------------------------------

  /** `items.some(item => item.id === id)`. */
  function ContainsId(items: seq<CartItem>, id: Scalar): (b: bool)
    ensures b <==> exists i :: 0 <= i < |items| && items[i].id == id
  {
    if items == [] then false
    else items[|items| - 1].id == id || ContainsId(items[..|items| - 1], id)
  }

  /** No two entries share an id. */
  predicate UniqueIds(items: seq<CartItem>) {
    forall i, j :: 0 <= i < j < |items| ==> items[i].id != items[j].id
  }

  /** The distinct ids present. */
  function IdSet(items: seq<CartItem>): (ids: set<Scalar>)
    ensures forall x :: x in ids <==> ContainsId(items, x)
  {
    if items == [] then {} else IdSet(items[..|items| - 1]) + {items[|items| - 1].id}
  }

  /** `items.filter(item => item.id !== id)`: every entry with another id, in order. */
  function WithoutId(items: seq<CartItem>, id: Scalar): (r: seq<CartItem>)
    ensures Subseq(r, items)
    ensures forall x :: x in r <==> x in items && x.id != id
  {
    if items == [] then []
    else
      var rest := WithoutId(items[..|items| - 1], id);
      var last := items[|items| - 1];
      assert items == items[..|items| - 1] + [last];
      if last.id != id then rest + [last] else rest
  }

  /** The filter keeps every copy of an item with another id, duplicates
      included, and none with the id. */
  lemma {:induction false} WithoutIdCounts(items: seq<CartItem>, id: Scalar, x: CartItem)
    ensures multiset(WithoutId(items, id))[x] == if x.id != id then multiset(items)[x] else 0
  {
    if items != [] {
      var init, last := items[..|items| - 1], items[|items| - 1];
      WithoutIdCounts(init, id, x);
      assert items == init + [last];
      if last.id != id {
        assert WithoutId(items, id) == WithoutId(init, id) + [last];
      } else {
        assert WithoutId(items, id) == WithoutId(init, id);
      }
    }
  }

  /** Filtering out an id keeps a unique list unique. */
  lemma {:induction false} WithoutIdKeepsUnique(items: seq<CartItem>, id: Scalar)
    requires UniqueIds(items)
    ensures UniqueIds(WithoutId(items, id))
  {
    if items != [] {
      var init, last := items[..|items| - 1], items[|items| - 1];
      assert UniqueIds(init);
      WithoutIdKeepsUnique(init, id);
      var rest := WithoutId(init, id);
      if last.id != id {
        forall x | x in rest ensures x.id != last.id {
          assert x in init;
          var k :| 0 <= k < |init| && init[k] == x;
          assert items[k] == x;
        }
        var r := rest + [last];
        forall i, j | 0 <= i < j < |r| ensures r[i].id != r[j].id {
          if j < |rest| {
            assert r[i] == rest[i] && r[j] == rest[j];
          } else {
            assert r[i] in rest;
          }
        }
      }
    }
  }

  /** Removing an id that is absent gives back the same list. */
  lemma {:induction false} WithoutAbsentId(items: seq<CartItem>, id: Scalar)
    requires !ContainsId(items, id)
    ensures WithoutId(items, id) == items
  {
    if items != [] {
      var init, last := items[..|items| - 1], items[|items| - 1];
      assert last.id != id && !ContainsId(init, id);
      WithoutAbsentId(init, id);
      assert WithoutId(items, id) == init + [last];
      assert init + [last] == items;
    }
  }

  /** In a unique list, removing a present id drops exactly one entry. */
  lemma {:induction false} WithoutPresentIdShrinksByOne(items: seq<CartItem>, id: Scalar)
    requires UniqueIds(items) && ContainsId(items, id)
    ensures |WithoutId(items, id)| == |items| - 1
  {
    var init, last := items[..|items| - 1], items[|items| - 1];
    assert UniqueIds(init);
    if last.id == id {
      assert !ContainsId(init, id) by {
        forall k | 0 <= k < |init| ensures init[k].id != id {
          assert init[k] == items[k];
        }
      }
      WithoutAbsentId(init, id);
    } else {
      assert ContainsId(init, id);
      WithoutPresentIdShrinksByOne(init, id);
    }
  }

  /** In a unique list the length is the number of distinct ids. */
  lemma {:induction false} DistinctIdCount(items: seq<CartItem>)
    requires UniqueIds(items)
    ensures |IdSet(items)| == |items|
  {
    if items != [] {
      var init, last := items[..|items| - 1], items[|items| - 1];
      assert UniqueIds(init);
      DistinctIdCount(init);
      assert !ContainsId(init, last.id) by {
        forall k | 0 <= k < |init| ensures init[k].id != last.id {
          assert init[k] == items[k];
        }
      }
    }
  }

  /** The `packages.map(pkg => ({id, name, price, description, category, image, url}))`
      projection that `syncFromBasketContext` installs as the cart. */
  function FromBasket(ps: seq<BasketPackage>): (r: seq<CartItem>)
    ensures |r| == |ps|
    ensures forall i :: 0 <= i < |ps| ==>
              (r[i].id == ps[i].id && r[i].name == ps[i].name &&
               r[i].price == ps[i].price && r[i].description == ps[i].description &&
               r[i].category == ps[i].category && r[i].image == ps[i].image && r[i].url == ps[i].url)
  {
    seq(|ps|, i requires 0 <= i < |ps| =>
      CartItem(ps[i].id, ps[i].name, ps[i].price, ps[i].description, ps[i].category, ps[i].image, ps[i].url))
  }

  // ---------------------------------------------------------------------------
  // The reconciliation pass, as a specification
  // ---------------------------------------------------------------------------

  /** `packages.some(pkg => pkg.id === id)`. */
  function ContainsPackage(ps: seq<BasketPackage>, id: Scalar): (b: bool)
    ensures b <==> exists k :: 0 <= k < |ps| && ps[k].id == id
  {
    if ps == [] then false
    else ps[|ps| - 1].id == id || ContainsPackage(ps[..|ps| - 1], id)
  }

  /** `currentBasket && currentBasket.packages && currentBasket.packages.some(pkg => pkg.id === id)`. */
  predicate InBasket(current: Option<BasketData>, id: Scalar) {
    current.Some? && current.value.packages.Some? && ContainsPackage(current.value.packages.value, id)
  }

  /** The ids of the packages the remote basket holds, as far as the pass
      can tell: none when it has no contents to look at. */
  function RemoteIds(current: Option<BasketData>): (ids: set<Scalar>)
    ensures forall id :: id in ids <==> InBasket(current, id)
  {
    if current.Some? && current.value.packages.Some? then
      var ps := current.value.packages.value;
      set k | 0 <= k < |ps| :: ps[k].id
    else {}
  }

  /** The calls one queued operation produces: an add is skipped when the
      remote basket already holds the package, a remove is always issued. */
  function ReplayOne(op: PendingOp, remote: set<Scalar>): (calls: seq<BasketCall>)
    ensures calls == [] <==> op.AddOp? && op.itemId in remote
    ensures calls != [] ==> calls == [CallFor(op)]
  {
    match op
    case AddOp(id) => if id in remote then [] else [AddCall(id, 1)]
    case RemoveOp(id) => [RemoveCall(id)]
  }

  /** The calls the `for (const op of operations)` loop makes, in queue order.
      The outcome of each call plays no part: a failure is caught and the
      loop moves on. */
  function Replay(ops: seq<PendingOp>, remote: set<Scalar>): (calls: seq<BasketCall>)
    ensures |calls| <= |ops|
  {
    if ops == [] then []
    else Replay(ops[..|ops| - 1], remote) + ReplayOne(ops[|ops| - 1], remote)
  }

  /** The call each operation maps to when nothing is skipped. */
  function CallFor(op: PendingOp): BasketCall {
    match op
    case AddOp(id) => AddCall(id, 1)
    case RemoveOp(id) => RemoveCall(id)
  }

  function CallsFor(ops: seq<PendingOp>): seq<BasketCall> {
    seq(|ops|, i requires 0 <= i < |ops| => CallFor(ops[i]))
  }

  /** Replaying one more operation of a queue. */
  lemma ReplayStep(ops: seq<PendingOp>, i: nat, remote: set<Scalar>)
    requires i < |ops|
    ensures Replay(ops[..i + 1], remote) == Replay(ops[..i], remote) + ReplayOne(ops[i], remote)
  {
    assert ops[..i + 1][..i] == ops[..i];
  }

  /** Replaying a concatenation replays the parts one after the other. */
  lemma {:induction false} ReplayAppend(a: seq<PendingOp>, b: seq<PendingOp>, remote: set<Scalar>)
    ensures Replay(a + b, remote) == Replay(a, remote) + Replay(b, remote)
    decreases |b|
  {
    if b == [] {
      assert a + b == a;
    } else {
      var b', x := b[..|b| - 1], b[|b| - 1];
      var ab := a + b;
      assert ab[..|ab| - 1] == a + b' by {
        assert |ab[..|ab| - 1]| == |a + b'|;
        forall k | 0 <= k < |a + b'| ensures ab[..|ab| - 1][k] == (a + b')[k] {
          if k < |a| {
            assert ab[k] == a[k];
          } else {
            assert ab[k] == b[k - |a|];
          }
        }
      }
      assert ab[|ab| - 1] == x;
      var ra, rb', rx := Replay(a, remote), Replay(b', remote), ReplayOne(x, remote);
      assert Replay(ab, remote) == Replay(a + b', remote) + rx;
      ReplayAppend(a, b', remote);
      assert Replay(b, remote) == rb' + rx;
      assert (ra + rb') + rx == ra + (rb' + rx);
    }
  }

  /** The calls follow queue order: they are the per-operation calls with
      the skipped adds deleted. */
  lemma {:induction false} ReplayInQueueOrder(ops: seq<PendingOp>, remote: set<Scalar>)
    ensures Subseq(Replay(ops, remote), CallsFor(ops))
  {
    if ops != [] {
      var init, last := ops[..|ops| - 1], ops[|ops| - 1];
      var r0, c0, c := Replay(init, remote), CallsFor(init), CallFor(last);
      ReplayInQueueOrder(init, remote);
      assert CallsFor(ops) == c0 + [c] by {
        forall k | 0 <= k < |ops| ensures CallsFor(ops)[k] == (c0 + [c])[k] {
          if k < |init| {
            assert ops[k] == init[k];
          }
        }
      }
      SubseqExtend(r0, c0, c);
      assert Replay(ops, remote) == r0 + ReplayOne(last, remote);
      if ReplayOne(last, remote) == [] {
        assert r0 + [] == r0;
      } else {
        assert ReplayOne(last, remote) == [c];
      }
    }
  }

  /** With no remote contents to compare against, every operation is issued. */
  lemma {:induction false} ReplayWithoutRemote(ops: seq<PendingOp>, remote: set<Scalar>)
    requires remote == {}
    ensures Replay(ops, remote) == CallsFor(ops)
  {
    if ops != [] {
      ReplayWithoutRemote(ops[..|ops| - 1], remote);
    }
  }

  /** A remove is issued exactly for each queued remove. */
  lemma {:induction false} ReplayRemovesIff(ops: seq<PendingOp>, remote: set<Scalar>, id: Scalar)
    ensures RemoveCall(id) in Replay(ops, remote) <==> RemoveOp(id) in ops
  {
    if ops != [] {
      var init := ops[..|ops| - 1];
      ReplayRemovesIff(init, remote, id);
      assert ops == init + [ops[|ops| - 1]];
    }
  }

  /** An add is issued exactly when one was queued for a package the remote
      basket does not hold, and always for a quantity of one. */
  lemma {:induction false} ReplayAddsIff(ops: seq<PendingOp>, remote: set<Scalar>, id: Scalar, q: int)
    ensures AddCall(id, q) in Replay(ops, remote) <==> q == 1 && AddOp(id) in ops && id !in remote
  {
    if ops != [] {
      var init := ops[..|ops| - 1];
      ReplayAddsIff(init, remote, id, q);
      assert ops == init + [ops[|ops| - 1]];
    }
  }

  /** An item added and then removed before any basket was connected is
      added and then removed once the pass runs against an empty basket. */
  lemma AddThenRemoveReplay(a: Scalar)
    ensures Replay([AddOp(a), RemoveOp(a)], RemoteIds(Some(BasketData(Some([]))))) == [AddCall(a, 1), RemoveCall(a)]
  {
    assert [AddOp(a), RemoveOp(a)][..1] == [AddOp(a)];
    assert [AddOp(a)][..0] == [];
  }

  // ---------------------------------------------------------------------------
  // The external basket
  // ---------------------------------------------------------------------------

  /** The basket handle a reconciliation pass sees. Its state fields are the
      snapshot taken when the handle was captured: nothing the pass does
      changes them within the pass. The responses of the provider are fixed in
      advance, and `calls` records every call made. */
  class Basket {
    const username: Scalar
    const basketIdent: Scalar
    const hasInitializedBasket: bool
    const basketData: Option<BasketData>
    /** What `getOrCreateBasket` resolves to; a falsy value also stands for a rejection. */
    const createdIdent: Scalar
    /** What `fetchBasket` resolves to; `None` for a rejection or a null result. */
    const fetched: Option<BasketData>
    /** Package ids whose add or remove the provider rejects. */
    const rejected: set<Scalar>
    var calls: seq<BasketCall>

    constructor(username: Scalar, basketIdent: Scalar, hasInitializedBasket: bool,
                basketData: Option<BasketData>, createdIdent: Scalar, fetched: Option<BasketData>,
                rejected: set<Scalar>)
      ensures this.username == username && this.basketIdent == basketIdent
      ensures this.hasInitializedBasket == hasInitializedBasket && this.basketData == basketData
      ensures this.createdIdent == createdIdent && this.fetched == fetched && this.rejected == rejected
      ensures calls == []
    {
      this.username := username;
      this.basketIdent := basketIdent;
      this.hasInitializedBasket := hasInitializedBasket;
      this.basketData := basketData;
      this.createdIdent := createdIdent;
      this.fetched := fetched;
      this.rejected := rejected;
      calls := [];
    }

    method GetOrCreateBasket(user: Scalar) returns (ident: Scalar)
      modifies this
      ensures ident == createdIdent
      ensures calls == old(calls) + [GetOrCreateCall(user)]
    {
      calls := calls + [GetOrCreateCall(user)];
      ident := createdIdent;
    }

    method FetchBasket(ident: Scalar) returns (data: Option<BasketData>)
      modifies this
      ensures data == fetched
      ensures calls == old(calls) + [FetchCall(ident)]
    {
      calls := calls + [FetchCall(ident)];
      data := fetched;
    }

    method AddPackageToBasket(itemId: Scalar, quantity: int) returns (ok: bool)
      modifies this
      ensures ok <==> itemId !in rejected
      ensures calls == old(calls) + [AddCall(itemId, quantity)]
    {
      calls := calls + [AddCall(itemId, quantity)];
      ok := itemId !in rejected;
    }

    method RemovePackageFromBasket(itemId: Scalar) returns (ok: bool)
      modifies this
      ensures ok <==> itemId !in rejected
      ensures calls == old(calls) + [RemoveCall(itemId)]
    {
      calls := calls + [RemoveCall(itemId)];
      ok := itemId !in rejected;
    }
  }

  /** `!basketContext.basketIdent && !basketContext.hasInitializedBasket`:
      the pass must obtain a basket first. */
  predicate NeedsBasket(b: Basket) {
    !Truthy(b.basketIdent) && !b.hasInitializedBasket
  }

  /** The first guards of a pass: something is queued, a handle is connected
      and it carries a username. */
  predicate PassStarts(pending: seq<PendingOp>, b: Basket?) {
    pending != [] && b != null && Truthy(b.username)
  }

  /** The handle has a basket, or the pass obtains one. */
  predicate BasketReady(b: Basket, userName: Scalar) {
    !NeedsBasket(b) || (Truthy(userName) && Truthy(b.createdIdent))
  }

  /** Whether a pass gets past its guards and drains the queue. */
  predicate DrainRuns(pending: seq<PendingOp>, b: Basket?, userName: Scalar) {
    PassStarts(pending, b) && BasketReady(b, userName)
  }

  /** Whether the pass holds cached basket contents it can use without fetching. */
  predicate HasCachedPackages(b: Basket) {
    b.basketData.Some? && b.basketData.value.packages.Some?
  }

  /** The remote contents the pass compares adds against. The handle is the
      one captured before the pass, so a basket just created does not make
      `basketIdent` truthy within the same pass. */
  function CurrentBasket(b: Basket): (r: Option<BasketData>)
    ensures !Truthy(b.basketIdent) ==> r == None
    ensures Truthy(b.basketIdent) && HasCachedPackages(b) ==> r == b.basketData && r.value.packages.Some?
    ensures Truthy(b.basketIdent) && !HasCachedPackages(b) ==> r == b.fetched
  {
    if !Truthy(b.basketIdent) then None
    else if HasCachedPackages(b) then b.basketData
    else b.fetched
  }

  /** The calls made while obtaining a basket and its contents. */
  function PrepareCalls(b: Basket, userName: Scalar): seq<BasketCall> {
    var create := if NeedsBasket(b) && Truthy(userName) then [GetOrCreateCall(userName)] else [];
    var fetch := if BasketReady(b, userName) && Truthy(b.basketIdent) && !HasCachedPackages(b)
                 then [FetchCall(b.basketIdent)] else [];
    create + fetch
  }

  /** The calls a pass makes before it drains the queue (or gives up). */
  function SetupCalls(pending: seq<PendingOp>, b: Basket?, userName: Scalar): seq<BasketCall> {
    if PassStarts(pending, b) then PrepareCalls(b, userName) else []
  }

  /** Every call one pass of `processPendingOperations` makes on the basket:
      nothing with an empty queue or no handle, at most one call per queued
      operation beyond one setup call, and no package call at all from a
      pass that does not drain (at most the basket creation attempt). */
  function DrainCalls(pending: seq<PendingOp>, b: Basket?, userName: Scalar): (calls: seq<BasketCall>)
    ensures pending == [] || b == null ==> calls == []
    ensures |calls| <= |pending| + 1
    ensures !DrainRuns(pending, b, userName) ==> calls == [] || calls == [GetOrCreateCall(userName)]
  {
    SetupCalls(pending, b, userName) +
    (if DrainRuns(pending, b, userName) then Replay(pending, RemoteIds(CurrentBasket(b))) else [])
  }

  /** A pass that drains issues, after the setup calls, exactly the replay of
      the queue it found; in particular every queued remove and every queued
      add of a package the remote basket lacks, in queue order. */
  lemma {:induction false} DrainingPassReplaysQueue(pending: seq<PendingOp>, b: Basket, userName: Scalar, id: Scalar)
    requires DrainRuns(pending, b, userName)
    ensures |SetupCalls(pending, b, userName)| <= 1
    ensures DrainCalls(pending, b, userName)[|SetupCalls(pending, b, userName)|..] == Replay(pending, RemoteIds(CurrentBasket(b)))
    ensures RemoveCall(id) in DrainCalls(pending, b, userName) <==> RemoveOp(id) in pending
    ensures AddCall(id, 1) in DrainCalls(pending, b, userName) <==> AddOp(id) in pending && !InBasket(CurrentBasket(b), id)
  {
    var s, r := SetupCalls(pending, b, userName), Replay(pending, RemoteIds(CurrentBasket(b)));
    assert DrainCalls(pending, b, userName) == s + r;
    assert RemoveCall(id) !in s && AddCall(id, 1) !in s;
    ReplayRemovesIff(pending, RemoteIds(CurrentBasket(b)), id);
    ReplayAddsIff(pending, RemoteIds(CurrentBasket(b)), id, 1);
  }

  /** Once a basket was created in a pass that had no basket id, the handle
      is still stale, so no add is skipped. */
  lemma FreshBasketAddsEverything(pending: seq<PendingOp>, b: Basket, userName: Scalar)
    requires DrainRuns(pending, b, userName) && NeedsBasket(b)
    ensures DrainCalls(pending, b, userName) == [GetOrCreateCall(userName)] + CallsFor(pending)
  {
    assert RemoteIds(CurrentBasket(b)) == {};
    ReplayWithoutRemote(pending, RemoteIds(CurrentBasket(b)));
  }

  // ---------------------------------------------------------------------------
  // The cart store
  // ---------------------------------------------------------------------------

  /** The `CartProvider` state: `cart`, `cartOpen` and `pendingBasketOperations`. */
  class CartStore {
    var cart: seq<CartItem>
    var cartOpen: bool
    var pending: seq<PendingOp>

    /** Initial state, with the cart read back from storage. */
    constructor(saved: seq<CartItem>)
      ensures cart == saved && !cartOpen && pending == []
    {
      cart := saved;
      cartOpen := false;
      pending := [];
    }

    /** `isInCart(itemId)`. */
    function IsInCart(itemId: Scalar): (b: bool)
      reads this
      ensures b <==> exists i :: 0 <= i < |cart| && cart[i].id == itemId
    {
      ContainsId(cart, itemId)
    }

    /** `getCartItemCount()`: the length of the list, which while ids are
        unique is the number of distinct items. */
    function GetCartItemCount(): (n: nat)
      reads this
      ensures n == |cart|
      ensures UniqueIds(cart) ==> n == |IdSet(cart)|
    {
      if UniqueIds(cart) then DistinctIdCount(cart); |cart| else |cart|
    }

    /** `addToCart(item)`. */
    method AddToCart(item: Option<CartItem>)
      modifies this
      ensures item.None? || !Truthy(item.value.id) ==>
                cart == old(cart) && pending == old(pending) && cartOpen == old(cartOpen)
      ensures item.Some? && Truthy(item.value.id) ==> cartOpen && IsInCart(item.value.id)
      ensures item.Some? && Truthy(item.value.id) && ContainsId(old(cart), item.value.id) ==>
                cart == old(cart) && pending == old(pending)
      ensures item.Some? && Truthy(item.value.id) && !ContainsId(old(cart), item.value.id) ==>
                cart == old(cart) + [item.value] && pending == old(pending) + [AddOp(item.value.id)]
      ensures UniqueIds(old(cart)) ==> UniqueIds(cart)
    {
      if item.None? || !Truthy(item.value.id) {
        return;
      }
      var it := item.value;
      if !ContainsId(cart, it.id) {
        pending := pending + [AddOp(it.id)];
        cart := cart + [it];
      }
      cartOpen := true;
    }

    /** `removeFromCart(itemId)`: optimistic removal plus a queued remove. */
    method RemoveFromCart(itemId: Scalar)
      modifies this
      ensures !Truthy(itemId) ==> cart == old(cart) && pending == old(pending)
      ensures Truthy(itemId) ==>
                pending == old(pending) + [RemoveOp(itemId)] && cart == WithoutId(old(cart), itemId)
      ensures Truthy(itemId) ==> !IsInCart(itemId)
      ensures cartOpen == old(cartOpen)
      ensures UniqueIds(old(cart)) ==> UniqueIds(cart)
    {
      if !Truthy(itemId) {
        return;
      }
      pending := pending + [RemoveOp(itemId)];
      if UniqueIds(cart) {
        WithoutIdKeepsUnique(cart, itemId);
      }
      cart := WithoutId(cart, itemId);
    }

    /** `clearCart()`: the queue and the external basket are left alone. */
    method ClearCart()
      modifies this
      ensures cart == [] && pending == old(pending) && cartOpen == old(cartOpen)
    {
      cart := [];
    }

    method OpenCart()
      modifies this
      ensures cartOpen && cart == old(cart) && pending == old(pending)
    {
      cartOpen := true;
    }

    method CloseCart()
      modifies this
      ensures !cartOpen && cart == old(cart) && pending == old(pending)
    {
      cartOpen := false;
    }

    /** `syncFromBasketContext()`: replace the cart by the basket's packages
        when the handle holds them. */
    method SyncFromBasketContext(basket: Basket?)
      modifies this
      ensures basket != null && HasCachedPackages(basket) ==>
                cart == FromBasket(basket.basketData.value.packages.value)
      ensures basket == null || !HasCachedPackages(basket) ==> cart == old(cart)
      ensures cartOpen == old(cartOpen) && pending == old(pending)
    {
      if basket != null && HasCachedPackages(basket) {
        cart := FromBasket(basket.basketData.value.packages.value);
      }
    }

    /** One pass of `processPendingOperations`, with the handle the pass finds
        and the user name it reads: the guards, then the snapshot of the queue
        is taken and the queue cleared before any package call is made. */
    method ProcessPendingOperations(basket: Basket?, userName: Scalar)
      modifies this, basket
      ensures DrainRuns(old(pending), basket, userName) ==> pending == []
      ensures !DrainRuns(old(pending), basket, userName) ==> pending == old(pending)
      ensures basket != null ==> basket.calls == old(basket.calls) + DrainCalls(old(pending), basket, userName)
      ensures cart == old(cart) && cartOpen == old(cartOpen)
    {
      ghost var expected := DrainCalls(pending, basket, userName);
      if pending == [] || basket == null || !Truthy(basket.username) {
        assert expected == [];
        return;
      }
      assert expected == PrepareCalls(basket, userName) +
        (if BasketReady(basket, userName) then Replay(pending, RemoteIds(CurrentBasket(basket))) else []);
      var runs, current := PrepareBasket(basket, userName);
      if !runs {
        return;
      }
      var operations := pending;
      pending := [];
      ReplayOperations(basket, operations, current);
    }
  }

  /** The part of a pass between the username check and the queue snapshot:
      obtain a basket when there is none, then pick the remote contents. */
  method PrepareBasket(basket: Basket, userName: Scalar) returns (runs: bool, current: Option<BasketData>)
    requires Truthy(basket.username)
    modifies basket
    ensures runs <==> BasketReady(basket, userName)
    ensures runs ==> current == CurrentBasket(basket)
    ensures basket.calls == old(basket.calls) + PrepareCalls(basket, userName)
  {
    runs := true;
    current := None;
    if NeedsBasket(basket) {
      if !Truthy(userName) {
        runs := false;
        return;
      }
      var ident := basket.GetOrCreateBasket(userName);
      if !Truthy(ident) {
        runs := false;
        return;
      }
    }
    if Truthy(basket.basketIdent) {
      if HasCachedPackages(basket) {
        current := basket.basketData;
      } else {
        current := basket.FetchBasket(basket.basketIdent);
      }
    }
  }

  /** The `for (const op of operations)` loop: each operation is issued in
      turn, and what a call returns does not stop the ones after it. */
  method ReplayOperations(basket: Basket, operations: seq<PendingOp>, current: Option<BasketData>)
    modifies basket
    ensures basket.calls == old(basket.calls) + Replay(operations, RemoteIds(current))
  {
    ghost var remote := RemoteIds(current);
    for i := 0 to |operations|
      invariant basket.calls == old(basket.calls) + Replay(operations[..i], remote)
    {
      ReplayStep(operations, i, remote);
      IssueOperation(basket, operations[i], current);
    }
    assert operations[..|operations|] == operations;
  }

  /** The body of the loop for one operation; a rejected call is caught. */
  method IssueOperation(basket: Basket, op: PendingOp, current: Option<BasketData>)
    modifies basket
    ensures basket.calls == old(basket.calls) + ReplayOne(op, RemoteIds(current))
  {
    match op {
      case AddOp(id) =>
        var alreadyInBasket := InBasket(current, id);
        if !alreadyInBasket {
          var _ := basket.AddPackageToBasket(id, 1);
        }
      case RemoveOp(id) =>
        var _ := basket.RemovePackageFromBasket(id);
    }
  }

  /** After a sync the cart's query and the pass's skip test agree: an id is
      in the cart exactly when the cached basket holds it. */
  lemma SyncedCartMatchesBasket(b: Basket, id: Scalar)
    requires HasCachedPackages(b)
    ensures ContainsId(FromBasket(b.basketData.value.packages.value), id) <==> InBasket(b.basketData, id)
  {
    var ps := b.basketData.value.packages.value;
    var items := FromBasket(ps);
    if InBasket(b.basketData, id) {
      var k :| 0 <= k < |ps| && ps[k].id == id;
      assert items[k].id == id;
    }
  }

  /** The synced cart keeps unique ids exactly when the basket's package ids are distinct. */
  lemma SyncedCartUniqueIff(ps: seq<BasketPackage>)
    ensures UniqueIds(FromBasket(ps)) <==> forall i, j :: 0 <= i < j < |ps| ==> ps[i].id != ps[j].id
  {
    var items := FromBasket(ps);
    assert forall i :: 0 <= i < |ps| ==> items[i].id == ps[i].id;
  }
}
