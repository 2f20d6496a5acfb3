/** The behaviour of the repository's operations stated on the value of its
    product list: the first-match scan of findById, the edit done by update
    and the first-equal removal done by delete, with the properties that
    relate them. The class in ProductRepository is proved against these. */
module ProductStore {
  import opened Wrappers
  import opened JavaText
  import opened Products

  /** The repository invariant: no stored product has a null or blank id. */
  predicate AllIdsValid(s: seq<Product>) {
    forall p :: p in s ==> HasValidId(p)
  }

  /** The message of the IllegalArgumentException thrown by findById. */
  function NotFoundMessage(id: Option<string>): string {
    "Product with Id + " + Render(id) + " was not found."
  }

  /** The message of the IllegalArgumentException thrown by update when its
      argument or the argument's id is null. */
  const NullArgumentMessage: string := "Product and Product Id must not be null."

  /** The position of the first product whose id equals `id`, if any. */
  function FirstMatch(s: seq<Product>, id: Option<string>): (r: Option<nat>)
    ensures r.Some? ==> r.value < |s| && s[r.value].id == id
    ensures r.Some? ==> forall j :: 0 <= j < r.value ==> s[j].id != id
    ensures r.None? <==> forall j :: 0 <= j < |s| ==> s[j].id != id
  {
    if s == [] then None
    else if s[0].id == id then Some(0)
    else match FirstMatch(s[1..], id)
      case None => None
      case Some(k) => Some(k + 1)
  }

  /** A position that holds a match with no match before it is the one
      FirstMatch finds. */
  lemma FirstMatchIsUnique(s: seq<Product>, id: Option<string>, k: nat)
    requires k < |s| && s[k].id == id
    requires forall j :: 0 <= j < k ==> s[j].id != id
    ensures FirstMatch(s, id) == Some(k)
  {
  }

  /** findById: the first stored product with the given id, or the
      not-found error. */
  function Lookup(s: seq<Product>, id: Option<string>): (r: Result<Product, string>)
    ensures r.Failure? <==> forall j :: 0 <= j < |s| ==> s[j].id != id
    ensures r.Failure? ==> r.error == NotFoundMessage(id)
    ensures r.Success? ==> r.value.id == id
    ensures r.Success? ==>
      exists k :: 0 <= k < |s| && s[k] == r.value && forall j :: 0 <= j < k ==> s[j].id != id
  {
    match FirstMatch(s, id)
    case Some(k) => Success(s[k])
    case None => Failure(NotFoundMessage(id))
  }

  /** Under the invariant a null or blank id is never found. */
  lemma LookupNullOrBlankFails(s: seq<Product>, id: Option<string>)
    requires AllIdsValid(s)
    requires id.None? || IsBlank(id.value)
    ensures Lookup(s, id) == Failure(NotFoundMessage(id))
  {
    forall j | 0 <= j < |s| ensures s[j].id != id {
      assert s[j] in s;
    }
  }

  /** Appending a product (what create does) leaves every lookup as it was,
      except that the appended product becomes findable by its id when no
      earlier product already has that id. */
  lemma LookupAfterAppend(s: seq<Product>, c: Product, id: Option<string>)
    ensures Lookup(s + [c], id) ==
      if FirstMatch(s, id).None? && c.id == id then Success(c) else Lookup(s, id)
  {
    var t := s + [c];
    match FirstMatch(s, id)
    case Some(k) =>
      assert t[k] == s[k];
      FirstMatchIsUnique(t, id, k);
    case None =>
      if c.id == id {
        assert t[|s|] == c;
        FirstMatchIsUnique(t, id, |s|);
      } else {
        assert forall j :: 0 <= j < |t| ==> t[j].id != id by {
          forall j | 0 <= j < |t| ensures t[j].id != id {
            if j < |s| { assert t[j] == s[j]; }
          }
        }
      }
  }

  /** update, on the list's value: its result and the new list. */
  function ApplyUpdate(s: seq<Product>, updated: Option<Product>): (Result<Product, string>, seq<Product>)
  {
    if updated.None? || updated.value.id.None? then (Failure(NullArgumentMessage), s)
    else match FirstMatch(s, updated.value.id)
      case None => (Failure(NotFoundMessage(updated.value.id)), s)
      case Some(k) =>
        var edited := s[k].(name := updated.value.name, quantity := updated.value.quantity);
        (Success(edited), s[k := edited])
  }

  /** update fails exactly when its argument or the argument's id is null,
      or when no stored product has that id; each failure carries its own
      message and leaves the list unchanged. */
  lemma UpdateFailures(s: seq<Product>, updated: Option<Product>)
    ensures ApplyUpdate(s, updated).0.Failure? <==>
      updated.None? || updated.value.id.None?
      || forall j :: 0 <= j < |s| ==> s[j].id != updated.value.id
    ensures (updated.None? || updated.value.id.None?) ==>
      ApplyUpdate(s, updated) == (Failure(NullArgumentMessage), s)
    ensures (updated.Some? && updated.value.id.Some?
             && forall j :: 0 <= j < |s| ==> s[j].id != updated.value.id) ==>
      ApplyUpdate(s, updated) == (Failure(NotFoundMessage(updated.value.id)), s)
  {
  }

  /** A successful update overwrites the name and quantity of the first
      product with the argument's id, keeps that product's id, leaves every
      other position alone, and returns the edited stored product. */
  lemma UpdateEditsFirstMatch(s: seq<Product>, updated: Option<Product>, k: nat)
    requires updated.Some? && updated.value.id.Some?
    requires k < |s| && s[k].id == updated.value.id
    requires forall j :: 0 <= j < k ==> s[j].id != updated.value.id
    ensures |ApplyUpdate(s, updated).1| == |s|
    ensures ApplyUpdate(s, updated).1[k].id == s[k].id
    ensures ApplyUpdate(s, updated).1[k].name == updated.value.name
    ensures ApplyUpdate(s, updated).1[k].quantity == updated.value.quantity
    ensures forall j :: 0 <= j < |s| && j != k ==> ApplyUpdate(s, updated).1[j] == s[j]
    ensures ApplyUpdate(s, updated).0 == Success(ApplyUpdate(s, updated).1[k])
  {
    FirstMatchIsUnique(s, updated.value.id, k);
  }

  /** update never changes an id, so it keeps the invariant. */
  lemma UpdatePreservesInvariant(s: seq<Product>, updated: Option<Product>)
    requires AllIdsValid(s)
    ensures AllIdsValid(ApplyUpdate(s, updated).1)
  {
    var t := ApplyUpdate(s, updated).1;
    forall p | p in t ensures HasValidId(p) {
      var i :| 0 <= i < |t| && t[i] == p;
      assert s[i] in s;
    }
  }

  /** After a successful update a lookup of the same id finds the product
      with the new name and quantity (as a value, equal to the argument),
      and that is what update returned. */
  lemma LookupAfterUpdate(s: seq<Product>, updated: Option<Product>)
    requires ApplyUpdate(s, updated).0.Success?
    ensures updated.Some?
    ensures Lookup(ApplyUpdate(s, updated).1, updated.value.id) == Success(updated.value)
    ensures ApplyUpdate(s, updated).0 == Success(updated.value)
  {
    var id := updated.value.id;
    var k := FirstMatch(s, id).value;
    var t := ApplyUpdate(s, updated).1;
    assert forall j :: 0 <= j < k ==> t[j] == s[j];
    FirstMatchIsUnique(t, id, k);
  }

  /** Under the invariant, an update whose id is non-null but blank is not
      rejected as null; it reaches the lookup and fails there. */
  lemma UpdateBlankIdNotFound(s: seq<Product>, updated: Option<Product>)
    requires AllIdsValid(s)
    requires updated.Some? && updated.value.id.Some? && IsBlank(updated.value.id.value)
    ensures ApplyUpdate(s, updated) == (Failure(NotFoundMessage(updated.value.id)), s)
  {
    LookupNullOrBlankFails(s, updated.value.id);
  }

  /** List.remove(Object): drop the first element equal to `p` and keep the
      rest in order. Its properties are the lemmas below. */
  function RemoveFirst(s: seq<Product>, p: Product): seq<Product>
  {
    if s == [] then []
    else if s[0] == p then s[1..]
    else [s[0]] + RemoveFirst(s[1..], p)
  }

  /** delete of a product equal to none stored changes nothing. */
  lemma {:induction false} RemoveFirstAbsent(s: seq<Product>, p: Product)
    requires p !in s
    ensures RemoveFirst(s, p) == s
  {
    if s != [] {
      assert s == [s[0]] + s[1..];
      RemoveFirstAbsent(s[1..], p);
    }
  }

  /** delete takes away one occurrence of its argument and nothing else. */
  lemma {:induction false} RemoveFirstMultiset(s: seq<Product>, p: Product)
    ensures multiset(RemoveFirst(s, p)) == multiset(s) - multiset{p}
  {
    if s != [] {
      assert s == [s[0]] + s[1..];
      if s[0] != p {
        RemoveFirstMultiset(s[1..], p);
      }
    }
  }

  /** Removing the first equal element, stated at a given position: if `k`
      holds `p` and no earlier position does, the result is the list with
      position `k` cut out. */
  lemma {:induction false} RemoveFirstSplit(s: seq<Product>, p: Product, k: nat)
    requires k < |s| && s[k] == p
    requires forall j :: 0 <= j < k ==> s[j] != p
    ensures RemoveFirst(s, p) == s[..k] + s[k + 1..]
  {
    var t := s[1..];
    if k == 0 {
      assert s[..0] + s[1..] == t;
    } else {
      RemoveFirstSplit(t, p, k - 1);
      calc {
        RemoveFirst(s, p);
        [s[0]] + RemoveFirst(t, p);
        [s[0]] + (t[..k - 1] + t[k..]);
        { assert s[..k] == [s[0]] + t[..k - 1]; assert s[k + 1..] == t[k..]; }
        s[..k] + s[k + 1..];
      }
    }
  }

  /** The position of the first element equal to `p`. */
  function IndexOf(s: seq<Product>, p: Product): (k: nat)
    requires p in s
    ensures k < |s| && s[k] == p
    ensures forall j :: 0 <= j < k ==> s[j] != p
  {
    if s[0] == p then 0
    else
      assert p in s[1..] by { assert s == [s[0]] + s[1..]; }
      1 + IndexOf(s[1..], p)
  }

  /** delete of a stored product removes exactly the first equal element:
      the elements before it and after it stay, in order, and the list
      shrinks by one. */
  lemma RemoveFirstAt(s: seq<Product>, p: Product)
    requires p in s
    ensures RemoveFirst(s, p) == s[..IndexOf(s, p)] + s[IndexOf(s, p) + 1..]
    ensures |RemoveFirst(s, p)| == |s| - 1
  {
    var k := IndexOf(s, p);
    RemoveFirstSplit(s, p, k);
    assert |s[..k]| + |s[k + 1..]| == |s| - 1;
  }

  /** delete only removes, so it keeps the invariant. */
  lemma RemovePreservesInvariant(s: seq<Product>, p: Product)
    requires AllIdsValid(s)
    ensures AllIdsValid(RemoveFirst(s, p))
  {
    var r := RemoveFirst(s, p);
    RemoveFirstMultiset(s, p);
    forall x | x in r ensures HasValidId(x) {
      assert x in multiset(r);
      assert x in multiset(s);
    }
  }

  /** Deleting a product just created (and not stored before) restores the
      list as it was. */
  lemma RemoveAfterAppend(s: seq<Product>, p: Product)
    requires p !in s
    ensures RemoveFirst(s + [p], p) == s
  {
    var t := s + [p];
    forall j | 0 <= j < |s| ensures t[j] != p {
      assert t[j] == s[j];
    }
    RemoveFirstSplit(t, p, |s|);
    assert t[..|s|] == s;
  }

  /** Two different ids give different not-found messages, and neither is
      the null-argument message; only a null id and the id "null" share one. */
  lemma NotFoundMessages(a: Option<string>, b: Option<string>)
    ensures NotFoundMessage(a) != NullArgumentMessage
    ensures a.Some? && b.Some? && NotFoundMessage(a) == NotFoundMessage(b) ==> a == b
    ensures NotFoundMessage(None) == NotFoundMessage(Some("null"))
  {
    assert NotFoundMessage(a)[8] == 'w';
    assert NullArgumentMessage[8] == 'a';
    if a.Some? && b.Some? && NotFoundMessage(a) == NotFoundMessage(b) {
      var ma, mb := NotFoundMessage(a), NotFoundMessage(b);
      assert |a.value| == |b.value|;
      assert a.value == ma[18..18 + |a.value|];
      assert b.value == mb[18..18 + |b.value|];
    }
  }
}
