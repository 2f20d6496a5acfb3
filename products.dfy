/** The Product entity and the id rule that the repository applies to it
    when it is created. */
module Products {
  import opened Wrappers
  import opened JavaText

  /** A product: a nullable id, a nullable name and an int quantity. */
  datatype Product = Product(id: Option<string>, name: Option<string>, quantity: int)

  /** The repository's invariant for one stored product: its id is
      neither null nor blank. */
  predicate HasValidId(p: Product) {
    p.id.Some? && !IsBlank(p.id.value)
  }

  /** What create does to its argument before storing it: a null or blank
      id is replaced by the freshly generated one, any other id is kept
      verbatim, and name and quantity are never touched. */
  function AssignId(p: Product, freshId: string): (r: Product)
    requires !IsBlank(freshId)
    ensures HasValidId(r)
    ensures r.name == p.name && r.quantity == p.quantity
    ensures HasValidId(p) ==> r == p
    ensures !HasValidId(p) ==> r.id == Some(freshId)
  {
    if p.id.None? || IsBlank(p.id.value) then p.(id := Some(freshId)) else p
  }
}
