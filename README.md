# Product repository model

A Dafny model of the in-memory product store of an e-commerce catalogue
module: the class `ProductRepository`, which keeps an ordered, mutable list
of products (`productData`) and offers `create`, `findAll`, `findById`,
`update` and `delete`.

Layout, one module per file:

- `wrappers.dfy` — `Option` (a Java reference that may be null) and `Result`
  (a value, or a thrown exception's message).
- `java_text.dfy` — `Character.isWhitespace`, `String.isBlank`, and how string
  concatenation renders a null string.
- `products.dfy` — the `Product` entity (nullable id, nullable name, `int`
  quantity) and the id rule of `create`.
- `product_store.dfy` — each operation stated on the VALUE of the list (first
  match by id, the edit done by `update`, first-equal removal), with the
  lemmas relating them: the invariant "every stored id is non-null and
  non-blank" is kept, a later lookup sees an update, creating then deleting
  restores the list, and so on.
- `product_repository.dfy` — the class itself: field `productData: seq<Product>`,
  object invariant `Valid()`, and one method per Java method. Each state-changing
  method states its new `productData` in terms of the old one through the
  functions of `ProductStore`; `findById` is the same for-loop with early return.
- `repository_scenarios.dfy` — the call sequences of the repository's unit
  tests and of the catalogue's create/list/update/find/delete flow, proved
  from the class's contracts alone.

Errors are modelled as `Failure(message)` with the exact message strings of
the source. Two behaviours of the code are worth stating plainly:

- Product ids are meant to be unique within the repository, but `create`
  does not check this. A second product with a stored id is appended anyway,
  and `findById` and `update` keep reaching the first one
  (`ProductStore.LookupAfterAppend`, `RepositoryScenarios.DuplicateIdShadowed`).
- A missing id and a null argument are two different failures, but the code
  throws `IllegalArgumentException` for both, so only the message tells them
  apart (`ProductStore.NotFoundMessages`).

## Model

| member | source | states |
|---|---|---|
| Products.AssignId | src/main/java/id/ac/ui/cs/advprog/eshop/repository/ProductRepository.java:16-18 | the stored product has a non-null, non-blank id; a non-blank caller id is kept verbatim, a null or blank one becomes the generated id; name and quantity are unchanged |
| JavaText.IsBlank | src/main/java/id/ac/ui/cs/advprog/eshop/repository/ProductRepository.java:16 | `String.isBlank`: true exactly when every code point is white space in the sense of `Character.isWhitespace` (so also for the empty string) |
| ProductStore.NotFoundMessage | src/main/java/id/ac/ui/cs/advprog/eshop/repository/ProductRepository.java:31 | the message `Product with Id + <id> was not found.`, with a null id printed as `null` |
| ProductStore.FirstMatch | src/main/java/id/ac/ui/cs/advprog/eshop/repository/ProductRepository.java:28-30 | finds the position of a product with the given id such that no earlier position matches; it finds nothing exactly when no stored id equals the given one |
| ProductStore.FirstMatchIsUnique | src/main/java/id/ac/ui/cs/advprog/eshop/repository/ProductRepository.java:28-30 | a position holding a match with no earlier match is the position the scan returns |
| ProductStore.Lookup | src/main/java/id/ac/ui/cs/advprog/eshop/repository/ProductRepository.java:27-32 | fails exactly when no stored id equals `id`, with message `Product with Id + <id> was not found.`; otherwise returns a stored product with that id that has no earlier match |
| ProductStore.LookupNullOrBlankFails | src/main/java/id/ac/ui/cs/advprog/eshop/repository/ProductRepository.java:27-32 | under the invariant, a null or blank id is never found |
| ProductStore.LookupAfterAppend | src/main/java/id/ac/ui/cs/advprog/eshop/repository/ProductRepository.java:15-20 | after create appends a product, every lookup is unchanged, except that the new product becomes findable by its id if no earlier product has that id (first match wins) |
| ProductStore.ApplyUpdate | src/main/java/id/ac/ui/cs/advprog/eshop/repository/ProductRepository.java:34-45 | update on the list's value: null argument or null id fails, then the first match by id gets the argument's name and quantity and is returned; a missing id fails with the not-found message |
| ProductStore.UpdateFailures | src/main/java/id/ac/ui/cs/advprog/eshop/repository/ProductRepository.java:34-39 | update fails iff the argument or its id is null or no stored id matches; a null argument or null id gives `Product and Product Id must not be null.`, a missing id gives the not-found message; the list is unchanged in both cases |
| ProductStore.UpdateEditsFirstMatch | src/main/java/id/ac/ui/cs/advprog/eshop/repository/ProductRepository.java:39-44 | a successful update sets name and quantity of the first match only; its id, the list length and every other element stay unchanged; the stored element is returned |
| ProductStore.UpdatePreservesInvariant | src/main/java/id/ac/ui/cs/advprog/eshop/repository/ProductRepository.java:41-42 | update keeps every stored id non-null and non-blank |
| ProductStore.LookupAfterUpdate | src/main/java/id/ac/ui/cs/advprog/eshop/repository/ProductRepository.java:39-44 | after a successful update, findById of that id returns the new name and quantity, which is what update returned |
| ProductStore.UpdateBlankIdNotFound | src/main/java/id/ac/ui/cs/advprog/eshop/repository/ProductRepository.java:35-39 | a blank non-null id is not rejected as null; it reaches the lookup and fails there with the not-found message, changing nothing |
| ProductStore.RemoveFirst | src/main/java/id/ac/ui/cs/advprog/eshop/repository/ProductRepository.java:48 | `List.remove(Object)` on the list's value: the first element equal to the product is dropped, the rest kept in order |
| ProductStore.RemoveFirstAbsent | src/main/java/id/ac/ui/cs/advprog/eshop/repository/ProductRepository.java:47-49 | deleting a product equal to none stored leaves the list unchanged |
| ProductStore.RemoveFirstMultiset | src/main/java/id/ac/ui/cs/advprog/eshop/repository/ProductRepository.java:48 | delete takes away exactly one occurrence of its argument (multiset difference) and nothing else |
| ProductStore.RemoveFirstSplit | src/main/java/id/ac/ui/cs/advprog/eshop/repository/ProductRepository.java:48 | if position k holds the product and no earlier position does, delete cuts out exactly position k |
| ProductStore.IndexOf | src/main/java/id/ac/ui/cs/advprog/eshop/repository/ProductRepository.java:48 | for a stored product, a position holding it with no equal element before it |
| ProductStore.RemoveFirstAt | src/main/java/id/ac/ui/cs/advprog/eshop/repository/ProductRepository.java:47-49 | delete of a stored product removes exactly the first equal element, keeps the elements before and after it in order, and shrinks the list by one |
| ProductStore.RemovePreservesInvariant | src/main/java/id/ac/ui/cs/advprog/eshop/repository/ProductRepository.java:48 | delete keeps every stored id non-null and non-blank |
| ProductStore.RemoveAfterAppend | src/main/java/id/ac/ui/cs/advprog/eshop/repository/ProductRepository.java:15-20 | deleting a product just created, not stored before, restores the previous list |
| ProductStore.NotFoundMessages | src/main/java/id/ac/ui/cs/advprog/eshop/repository/ProductRepository.java:31-36 | a not-found message differs from the null-argument message and determines a non-null id; a null id and the id "null" print the same message |
| ProductRepository.ProductRepository.constructor | src/main/java/id/ac/ui/cs/advprog/eshop/repository/ProductRepository.java:13 | a new repository is empty and satisfies the invariant |
| ProductRepository.ProductRepository.Create | src/main/java/id/ac/ui/cs/advprog/eshop/repository/ProductRepository.java:15-20 | appends the id-assigned product as the new last element, leaves earlier elements unchanged, returns it, keeps the invariant |
| ProductRepository.ProductRepository.FindAll | src/main/java/id/ac/ui/cs/advprog/eshop/repository/ProductRepository.java:23-25 | yields exactly the stored products in insertion order |
| ProductRepository.ProductRepository.FindIndexById | src/main/java/id/ac/ui/cs/advprog/eshop/repository/ProductRepository.java:27-32 | the loop returns the position of the first product whose id equals `id`, or fails with the not-found message when none does |
| ProductRepository.ProductRepository.FindById | src/main/java/id/ac/ui/cs/advprog/eshop/repository/ProductRepository.java:27-32 | returns what `Lookup` gives on the current list; the store is not changed |
| ProductRepository.ProductRepository.Update | src/main/java/id/ac/ui/cs/advprog/eshop/repository/ProductRepository.java:34-45 | result and new list are those of `ApplyUpdate` on the old list; the invariant is kept |
| ProductRepository.ProductRepository.Delete | src/main/java/id/ac/ui/cs/advprog/eshop/repository/ProductRepository.java:47-49 | the new list is the old one with its first equal element removed; the invariant is kept |
| RepositoryScenarios.CreateTwoThenFindAll | src/test/java/id/ac/ui/cs/advprog/eshop/repository/ProductRepositoryTest.java:42-68 | findAll on a new repository yields nothing; after two creates it lists both, in order, with their ids, and the first with its name and quantity |
| RepositoryScenarios.CreateWithBlankId | src/test/java/id/ac/ui/cs/advprog/eshop/repository/ProductRepositoryTest.java:137-149 | a blank id is replaced by the generated, non-blank id |
| RepositoryScenarios.EndToEnd | src/test/java/id/ac/ui/cs/advprog/eshop/repository/ProductRepositoryTest.java:71-112 | the edit test (create, update to "Sampo Cap Bambang Edition" and 200, findById sees both) followed by the delete test's delete, which leaves the list empty |
| RepositoryScenarios.DuplicateIdShadowed | src/main/java/id/ac/ui/cs/advprog/eshop/repository/ProductRepository.java:15-32 | two products with the same id are both stored; findById returns the first |
| RepositoryScenarios.UpdateRejections | src/test/java/id/ac/ui/cs/advprog/eshop/repository/ProductRepositoryTest.java:91-98 | update of a missing id, of null, and of a product with a null id fail with the exact messages |
| RepositoryScenarios.DeleteMissingIsNoOp | src/test/java/id/ac/ui/cs/advprog/eshop/repository/ProductRepositoryTest.java:115-134 | deleting a product equal to none stored raises nothing and keeps the stored product |

## Left out

- UUID generation: `UUID.randomUUID().toString()` is a parameter `freshId` of `Create`; the only promise used is that it is not blank. Its randomness and its textual UUID format are not modelled.
- ProductRepository.ProductRepository.FindAll: returns the list's current value, not a live, one-shot `Iterator`; exhaustion and restart behaviour of the iterator are not modelled.
- Object identity: `Product` is a value and every position of the list is treated as a distinct object; the product that `findById` finds inside `update` is named by its position. That `create` mutates and stores the caller's own object, and that `update` returns the stored object rather than its argument, are reference facts the model does not capture; as values the returned product equals the argument (`ProductStore.LookupAfterUpdate`).
- ProductStore.UpdateEditsFirstMatch (and ProductStore.ApplyUpdate, ProductRepository.ProductRepository.Update): when one Java object is stored at several positions (`create(p)` called twice with the same object), Java's setters change that object at all of them; the model edits only the first matching position and promises every other position unchanged, so an edit to a shared object is not reflected at its other positions.
- ProductRepository.ProductRepository.Delete: `List.remove` matches with `Product.equals`, whose source is not part of this model; value equality of all three fields is assumed.
- A null argument to `create` (a `NullPointerException`) and a null argument to `delete` (a no-op, as no null is ever stored) are excluded by the parameter types.
- A stored product with a null id would make `findById` throw a `NullPointerException`; the methods require the invariant, which rules this out.
- The quantity is an unbounded integer; the Java `int` width is not modelled, since no operation does arithmetic on it.
- The service and controller layers, Spring wiring, the test harness, and concurrency (the list is unsynchronised; the model is sequential).
