/** Call sequences from the repository's unit tests and from the catalogue's
    end-to-end flow, proved from the contracts of ProductRepository alone. */
module RepositoryScenarios {
  import opened Wrappers
  import opened JavaText
  import opened Products
  import opened ProductStore
  import opened ProductRepository

  const FirstId: string := "eb558e9f-1c39-460e-8860-71af6af63bd6"
  const SecondId: string := "a0f9de46-90b1-437d-a0bf-d0821dde9096"

  /** findAll on a new repository yields nothing; after two creates with
      caller-supplied ids it yields both, in order, ids untouched. */
  method CreateTwoThenFindAll(freshId: string) returns (none: seq<Product>, all: seq<Product>)
    requires !IsBlank(freshId)
    ensures none == []
    ensures |all| == 2
    ensures all[0].id == Some(FirstId) && all[1].id == Some(SecondId)
    ensures all[0].name == Some("Sampo Cap Bambang") && all[0].quantity == 100
  {
    var repo := new ProductRepository();
    none := repo.FindAll();
    assert !IsWhitespace(FirstId[0]) && !IsWhitespace(SecondId[0]);
    var _ := repo.Create(Product(Some(FirstId), Some("Sampo Cap Bambang"), 100), freshId);
    var _ := repo.Create(Product(Some(SecondId), Some("Sampo Cap Usep"), 50), freshId);
    all := repo.FindAll();
  }

  /** A blank id is replaced by the generated one. */
  method CreateWithBlankId(freshId: string) returns (created: Product)
    requires !IsBlank(freshId)
    ensures created.id == Some(freshId)
    ensures HasValidId(created)
  {
    var repo := new ProductRepository();
    created := repo.Create(Product(Some(""), Some("Auto ID Product"), 1), freshId);
  }

  /** The unit tests' edit-then-find followed by their delete: create,
      list, update, find, delete. The find sees the updated name and
      quantity, and the list ends empty. */
  method EndToEnd(freshId: string) returns (found: Result<Product, string>, final: seq<Product>)
    requires !IsBlank(freshId)
    ensures found == Success(Product(Some(FirstId), Some("Sampo Cap Bambang Edition"), 200))
    ensures final == []
  {
    var repo := new ProductRepository();
    var p := Product(Some(FirstId), Some("Sampo Cap Bambang"), 100);
    assert !IsWhitespace(FirstId[0]);
    var created := repo.Create(p, freshId);
    var listed := repo.FindAll();
    assert listed == [p];
    var edit := Product(Some(FirstId), Some("Sampo Cap Bambang Edition"), 200);
    var r := repo.Update(Some(edit));
    FirstMatchIsUnique([p], edit.id, 0);
    found := repo.FindById(Some(FirstId));
    FirstMatchIsUnique(repo.productData, edit.id, 0);
    repo.Delete(found.value);
    final := repo.FindAll();
  }

  /** Ids are not checked for uniqueness: a second product created with an
      id already stored is kept, but findById keeps returning the first. */
  method DuplicateIdShadowed(freshId: string) returns (stored: nat, found: Result<Product, string>)
    requires !IsBlank(freshId)
    ensures stored == 2
    ensures found == Success(Product(Some("dup"), Some("first"), 1))
  {
    var repo := new ProductRepository();
    var a := Product(Some("dup"), Some("first"), 1);
    var b := Product(Some("dup"), Some("second"), 2);
    assert !IsWhitespace(a.id.value[0]);
    var _ := repo.Create(a, freshId);
    var _ := repo.Create(b, freshId);
    stored := |repo.productData|;
    FirstMatchIsUnique(repo.productData, a.id, 0);
    found := repo.FindById(a.id);
  }

  /** update on an empty store fails with the not-found message; update
      with a null argument or a null id fails with the null message. */
  method UpdateRejections() returns (missing: Result<Product, string>, nullArg: Result<Product, string>, nullId: Result<Product, string>)
    ensures missing == Failure(NotFoundMessage(Some(FirstId)))
    ensures nullArg == Failure(NullArgumentMessage)
    ensures nullId == Failure(NullArgumentMessage)
  {
    var repo := new ProductRepository();
    missing := repo.Update(Some(Product(Some(FirstId), Some("Sampo Cap Bambang"), 100)));
    nullArg := repo.Update(None);
    nullId := repo.Update(Some(Product(None, Some("X"), 1)));
  }

  /** Deleting a product equal to none stored raises nothing and leaves the
      store as it was. */
  method DeleteMissingIsNoOp(freshId: string) returns (all: seq<Product>)
    requires !IsBlank(freshId)
    ensures all == [Product(Some(FirstId), Some("Sampo Cap Bambang"), 100)]
  {
    var repo := new ProductRepository();
    var p := Product(Some(FirstId), Some("Sampo Cap Bambang"), 100);
    assert !IsWhitespace(FirstId[0]);
    var _ := repo.Create(p, freshId);
    var ghostProduct := Product(Some("random-id"), Some("Ghost Product"), 0);
    assert ghostProduct != p;
    repo.Delete(ghostProduct);
    all := repo.FindAll();
  }
}
