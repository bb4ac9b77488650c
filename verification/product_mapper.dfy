/** The MapStruct mapper between the persistence record `ProductEntity` and the `Product` wire
    message: a field-by-field copy of `productId`, `name` and `weight` that lets `null` through. */
module ProductMapper {
  import opened Wrappers
  import opened Primitives

  /** The `Product` message. Its getters never return `null`, so `name` is always present;
      `weight` is only ever copied, so its type is left open. */
  datatype Product<W> = Product(productId: int32, name: string, weight: W)

  /** The persistence record. Its `name` is a Java reference and may be `null`. */
  datatype ProductEntity<W> = ProductEntity(productId: int32, name: Option<string>, weight: W)

  /** The entity and the message carry the same three values. */
  ghost predicate SameProduct<W>(e: ProductEntity<W>, p: Product<W>) {
    && e.productId == p.productId
    && e.name == Some(p.name)
    && e.weight == p.weight
  }

  /** `entityToApi`: `null` maps to `null`; otherwise a new builder receives the three values and is
      built. The generated `setName` throws `NullPointerException` on a `null` name. */
  function EntityToApi<W>(entity: Option<ProductEntity<W>>): (r: Result<Option<Product<W>>, BuilderError>)
    ensures entity.None? <==> r == Success(None)
    ensures r.Failure? <==> entity.Some? && entity.value.name.None?
    ensures r.Failure? ==> r.error == NullPointer
    ensures r.Success? && entity.Some? ==> r.value.Some? && SameProduct(entity.value, r.value.value)
  {
    match entity
    case None => Success(None)
    case Some(e) =>
      var name :- RequireNonNull(e.name);
      Success(Some(Product(e.productId, name, e.weight)))
  }

  /** `apiToEntity`: `null` maps to `null`; otherwise a fresh entity receives the three values. */
  function ApiToEntity<W>(api: Option<Product<W>>): (r: Option<ProductEntity<W>>)
    ensures api.None? <==> r.None?
    ensures api.Some? ==> SameProduct(r.value, api.value)
  {
    match api
    case None => None
    case Some(p) => Some(ProductEntity(p.productId, Some(p.name), p.weight))
  }

  /** Two messages that carry the same values as one entity are the same message. */
  lemma SameProductDeterminesMessage<W>(e: ProductEntity<W>, p: Product<W>, q: Product<W>)
    requires SameProduct(e, p) && SameProduct(e, q)
    ensures p == q
  {
  }

  /** An entity with a name survives the trip to the message and back unchanged. */
  lemma {:induction false} EntityRoundTrip<W>(e: ProductEntity<W>)
    requires e.name.Some?
    ensures EntityToApi(Some(e)).Success?
    ensures ApiToEntity(EntityToApi(Some(e)).value) == Some(e)
  {
    var p := EntityToApi(Some(e)).value.value;
    assert SameProduct(e, p);
    assert SameProduct(ApiToEntity(Some(p)).value, p);
  }

  /** Every modelled message, and `null`, survives the trip to the entity and back unchanged. The
      modelled `Product` holds no unknown fields, which the entity has no place for. */
  lemma {:induction false} ApiRoundTrip<W>(api: Option<Product<W>>)
    ensures EntityToApi(ApiToEntity(api)) == Success(api)
  {
    if api.Some? {
      var e := ApiToEntity(api).value;
      assert e.name.Some?;
      SameProductDeterminesMessage(e, EntityToApi(Some(e)).value.value, api.value);
    }
  }
}
