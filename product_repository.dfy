/** The in-memory product store: an ordered list of products that the
    operations change in place. Products are values: each position of the
    list stands for its own object, and the object that findById finds is
    named by its position. */
module ProductRepository {
  import opened Wrappers
  import opened JavaText
  import opened Products
  import opened ProductStore

  class ProductRepository {
    /** The stored products, in insertion order. */
    var productData: seq<Product>

    /** Every stored product has a non-null, non-blank id. */
    ghost predicate Valid()
      reads this
    {
      AllIdsValid(productData)
    }

    constructor ()
      ensures Valid() && productData == []
    {
      productData := [];
    }

    /** create: a null or blank id is replaced by `freshId` (the generated
        UUID string, of which only non-blankness is assumed), then the
        product is appended and returned. Ids are not checked for
        uniqueness. */
    method Create(product: Product, freshId: string) returns (created: Product)
      requires Valid()
      requires !IsBlank(freshId)
      modifies this
      ensures Valid()
      ensures created == AssignId(product, freshId)
      ensures productData == old(productData) + [created]
    {
      created := product;
      if product.id.None? || IsBlank(product.id.value) {
        created := created.(id := Some(freshId));
      }
      productData := productData + [created];
    }

    /** findAll: the stored products in insertion order. */
    method FindAll() returns (all: seq<Product>)
      ensures all == productData
    {
      all := productData;
    }

    /** The scan of findById, yielding the position of the first product
        whose id equals `id`, or the not-found error. */
    method FindIndexById(id: Option<string>) returns (r: Result<nat, string>)
      requires Valid()
      ensures r.Success? ==> r.value < |productData| && productData[r.value].id == id
      ensures r.Success? ==> forall j :: 0 <= j < r.value ==> productData[j].id != id
      ensures r.Failure? ==> r.error == NotFoundMessage(id)
      ensures r.Failure? ==> forall j :: 0 <= j < |productData| ==> productData[j].id != id
    {
      var i := 0;
      while i < |productData|
        invariant 0 <= i <= |productData|
        invariant forall j :: 0 <= j < i ==> productData[j].id != id
      {
        if productData[i].id == id {
          return Success(i);
        }
        i := i + 1;
      }
      return Failure(NotFoundMessage(id));
    }

    /** findById: the first stored product whose id equals `id`, or the
        not-found error; the store is not changed. */
    method FindById(id: Option<string>) returns (r: Result<Product, string>)
      requires Valid()
      ensures r == Lookup(productData, id)
    {
      var found := FindIndexById(id);
      match found
      case Success(k) =>
        FirstMatchIsUnique(productData, id, k);
        r := Success(productData[k]);
      case Failure(e) =>
        r := Failure(e);
    }

    /** update: reject a null argument or null id, look the stored product
        up by id, then set its name and its quantity; the stored product is
        returned. */
    method Update(updated: Option<Product>) returns (r: Result<Product, string>)
      requires Valid()
      modifies this
      ensures Valid()
      ensures (r, productData) == ApplyUpdate(old(productData), updated)
    {
      if updated.None? || updated.value.id.None? {
        return Failure(NullArgumentMessage);
      }
      var found := FindIndexById(updated.value.id);
      if found.Failure? {
        return Failure(found.error);
      }
      var k := found.value;
      ghost var before := productData;
      FirstMatchIsUnique(before, updated.value.id, k);
      UpdatePreservesInvariant(before, updated);
      productData := productData[k := productData[k].(name := updated.value.name)];
      productData := productData[k := productData[k].(quantity := updated.value.quantity)];
      r := Success(productData[k]);
      assert productData == ApplyUpdate(before, updated).1;
    }

    /** delete: remove the first stored product equal to `product`; no
        equal product means no change and no error. */
    method Delete(product: Product)
      requires Valid()
      modifies this
      ensures Valid()
      ensures productData == RemoveFirst(old(productData), product)
    {
      RemovePreservesInvariant(productData, product);
      productData := RemoveFirst(productData, product);
    }
  }
}
