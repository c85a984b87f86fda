/** Bulletin-board items and the checks the client makes on them. */
module BoardItems {
  import opened Outcomes

  /** Content attributes with the uniform serialisation of their values. */
  type Content = map<string, string>

  datatype Item = Item(
    kind: string, content: Content, parentAddress: string, previousAddress: string, registeredAt: string,
    address: string, signature: string)

  /** Everything verifyAddress hashes. */
  datatype Hashed = Hashed(
    kind: string, content: Content, parentAddress: string, previousAddress: string, registeredAt: string)

  function HashedPart(i: Item): Hashed {
    Hashed(i.kind, i.content, i.parentAddress, i.previousAddress, i.registeredAt)
  }

  /** The functions the client computes with: the address hash over the uniform
      serialisation, that serialisation of a content object, signature checks on an item's
      content, kind and parent and on a receipt, finalizing cryptograms, and the check of a
      commitment opening. */
  datatype World = World(
    addressOf: Hashed -> string,
    form: Content -> string,
    signed: (string, Content, string, string, string) -> bool,
    receiptSigned: (string, string, string, string) -> bool,
    finalize: (string, string) -> Option<string>,
    opens: (string, string) -> bool)

  datatype Expectation = Expectation(kind: string, parentAddress: string, content: Option<Content>)

  function Filtered(actual: Content, keys: set<string>): Content {
    map k | k in actual && k in keys :: actual[k]
  }

  /** verifyAddress. */
  predicate Addressed(w: World, i: Item) {
    i.address == w.addressOf(HashedPart(i))
  }

  /** validatePayload does not throw; no key, no signature check. */
  predicate ValidPayload(w: World, i: Item, e: Expectation, key: Option<string>) {
    && e.kind == i.kind
    && e.parentAddress == i.parentAddress
    && (e.content.Some? ==> w.form(e.content.value) == w.form(Filtered(i.content, e.content.value.Keys)))
    && Addressed(w, i)
    && (key.Some? ==> w.signed(i.signature, i.content, i.kind, i.parentAddress, key.value))
  }

  /** validateReceipt does not throw: the first item's signature and the last one's address. */
  predicate ValidReceipt(w: World, first: Item, last: Item, receipt: string, key: string) {
    w.receiptSigned(receipt, first.signature, last.address, key)
  }

  /** The item has the kind, hangs on the parent, and is addressed by its own fields. */
  predicate Hangs(w: World, i: Item, kind: string, parent: string) {
    && i.kind == kind && i.parentAddress == parent
    && i.address == w.addressOf(Hashed(i.kind, i.content, i.parentAddress, i.previousAddress, i.registeredAt))
  }

  /** Under the attributes that were sent, the item says what was sent. */
  predicate Carries(w: World, i: Item, sent: Content) {
    w.form(sent) == w.form(map k | k in i.content && k in sent :: i.content[k])
  }

  /** What validatePayload lets through: nothing else is compared. */
  lemma PayloadExactly(w: World, i: Item, e: Expectation, key: Option<string>)
    ensures ValidPayload(w, i, e, key)
            <==> && Hangs(w, i, e.kind, e.parentAddress)
                 && (e.content.Some? ==> Carries(w, i, e.content.value))
                 && (key.Some? ==> w.signed(i.signature, i.content, i.kind, i.parentAddress, key.value))
  {
    if e.content.Some? { CarriesFiltered(w, i, e.content.value); }
  }

  lemma CarriesFiltered(w: World, i: Item, sent: Content)
    ensures Carries(w, i, sent) <==> w.form(sent) == w.form(Filtered(i.content, sent.Keys))
  {
    assert Filtered(i.content, sent.Keys) == map k | k in i.content && k in sent :: i.content[k];
  }

  lemma NothingSent(w: World, i: Item)
    ensures Carries(w, i, map[])
  {
    CarriesFiltered(w, i, map[]);
    assert Filtered(i.content, {}) == map[];
  }

  /** With a serialisation that tells contents apart, every attribute sent is in the item. */
  lemma CarriesAll(w: World, i: Item, sent: Content, k: string)
    requires (forall a, b :: w.form(a) == w.form(b) ==> a == b) && Carries(w, i, sent) && k in sent
    ensures k in i.content && i.content[k] == sent[k]
  {
    assert k in map k | k in i.content && k in sent :: i.content[k];
  }

  /** No two different items get one address. */
  ghost predicate CollisionFree(w: World) {
    forall a, b :: w.addressOf(a) == w.addressOf(b) ==> a == b
  }
}
