/**
 Properties that relate several repository calls, or a call to the store
 invariants: Create keeps names unique, Update may not, ids stay unique, and
 what the lookups see after each mutation.
 */
module RepositoryProperties {
  import opened Wrappers
  import opened Entities
  import opened Repository

  /** How many stored products are called `name`. */
  function CountNamed(store: Store, name: string): nat
    decreases |store|
  {
    if |store| == 0 then 0
    else (if store[0].name == name then 1 else 0) + CountNamed(store[1..], name)
  }

  lemma {:induction false} CountNamedAppend(a: Store, b: Store, name: string)
    ensures CountNamed(a + b, name) == CountNamed(a, name) + CountNamed(b, name)
    decreases |a|
  {
    if |a| == 0 {
      assert a + b == b;
    } else {
      assert (a + b)[1..] == a[1..] + b;
      CountNamedAppend(a[1..], b, name);
    }
  }

  lemma {:induction false} CountNamedAbsent(store: Store, name: string)
    requires forall p :: p in store ==> p.name != name
    ensures CountNamed(store, name) == 0
    decreases |store|
  {
    if |store| > 0 {
      assert store[0] in store;
      assert forall p :: p in store[1..] ==> p in store;
      CountNamedAbsent(store[1..], name);
    }
  }

  /** Create never lets two stored products share a non-empty name. */
  lemma CreatePreservesUniqueNames(store: Store, entity: Product, assignedId: int, fault: Fault)
    requires UniqueNames(store)
    ensures UniqueNames(Create(store, entity, assignedId, fault).store)
  {
    var r := Create(store, entity, assignedId, fault);
    if !NameTaken(store, entity.name) && fault.NoFault? {
      var s := r.store;
      forall i, j | 0 <= i < j < |s| && s[i].name != ""
        ensures s[i].name != s[j].name
      {
        if j == |store| {
          assert s[i] == store[i] && s[i] in store;
        } else {
          assert s[i] == store[i] && s[j] == store[j];
        }
      }
    }
  }

  /** Update does not re-check names: renaming a product to another's name is accepted. */
  lemma UpdateCanBreakUniqueNames()
    ensures var store := [Product(1, "Chair", 5, 1000), Product(2, "Table", 2, 5000)];
            var r := Update(store, Product(2, "Chair", 2, 5000), NoFault);
            && UniqueNames(store)
            && r.response.flag
            && !UniqueNames(r.store)
  {
    var store := [Product(1, "Chair", 5, 1000), Product(2, "Table", 2, 5000)];
    var r := Update(store, Product(2, "Chair", 2, 5000), NoFault);
    assert store[1] in store;
    assert r.store[0].name == r.store[1].name;
  }

  /** Create keeps ids unique when the store assigns an id not already in use. */
  lemma CreatePreservesUniqueIds(store: Store, entity: Product, assignedId: int, fault: Fault)
    requires UniqueIds(store)
    requires !HasId(store, assignedId)
    ensures UniqueIds(Create(store, entity, assignedId, fault).store)
  {
    var r := Create(store, entity, assignedId, fault);
    if !NameTaken(store, entity.name) && fault.NoFault? {
      var s := r.store;
      forall i, j | 0 <= i < j < |s|
        ensures s[i].id != s[j].id
      {
        assert s[i] == store[i] && s[i] in store;
      }
    }
  }

  /** Update keeps ids unique: the replacement carries the id it replaces. */
  lemma UpdatePreservesUniqueIds(store: Store, entity: Product, fault: Fault)
    requires UniqueIds(store)
    ensures UniqueIds(Update(store, entity, fault).store)
  {
  }

  /** Delete keeps both store invariants. */
  lemma DeletePreservesInvariants(store: Store, entity: Product, fault: Fault)
    requires UniqueIds(store)
    requires UniqueNames(store)
    ensures UniqueIds(Delete(store, entity, fault).store)
    ensures UniqueNames(Delete(store, entity, fault).store)
  {
    var r := Delete(store, entity, fault);
    if HasId(store, entity.id) && fault.NoFault? {
      var k :| 0 <= k < |store| && store[k].id == entity.id && r.store == store[..k] + store[k + 1..];
      RemoveAtPreservesInvariants(store, k);
    }
  }

  /** Dropping one position keeps both invariants: the rest keep their relative order. */
  lemma RemoveAtPreservesInvariants(store: Store, k: int)
    requires UniqueIds(store)
    requires UniqueNames(store)
    requires 0 <= k < |store|
    ensures UniqueIds(store[..k] + store[k + 1..])
    ensures UniqueNames(store[..k] + store[k + 1..])
  {
    var s := store[..k] + store[k + 1..];
    forall i, j | 0 <= i < j < |s|
      ensures s[i].id != s[j].id
      ensures s[i].name != "" ==> s[i].name != s[j].name
    {
      var i' := if i < k then i else i + 1;
      var j' := if j < k then j else j + 1;
      assert s[i] == store[i'] && s[j] == store[j'] && i' < j';
    }
  }

  /** With unique ids, FindById returns the one product carrying the id. */
  lemma FindByIdUnique(store: Store, k: int)
    requires UniqueIds(store)
    requires 0 <= k < |store|
    ensures FindById(store, store[k].id) == Some(store[k])
  {
  }

  /**
   Creating a product under a fresh name, then creating another with the same
   name: the first succeeds, the second is refused with the store unchanged
   (as a duplicate, or with the fault envelope when its lookup throws), and
   exactly one stored product carries the name.
   */
  lemma CreateTwice(store: Store, first: Product, second: Product, id1: int, id2: int, fault: Fault)
    requires first.name != ""
    requires forall p :: p in store ==> p.name != first.name
    requires second.name == first.name
    requires id1 > 0
    ensures var r1 := Create(store, first, id1, NoFault);
            var r2 := Create(r1.store, second, id2, fault);
            && r1.response == Response(true, Added(first.name))
            && (!fault.LookupFault? ==> r2.response == Response(false, AlreadyAdded(first.name)))
            && (fault.LookupFault? ==> r2.response == Response(false, CreateFault))
            && r2.store == r1.store
            && CountNamed(r2.store, first.name) == 1
  {
    var r1 := Create(store, first, id1, NoFault);
    assert r1.store[|store|] in r1.store;
    CountNamedAbsent(store, first.name);
    CountNamedAppend(store, [first.(id := id1)], first.name);
    assert [first.(id := id1)][1..] == [];
  }

  /** After a successful Create, GetAll lists the product with its assigned id and its own fields. */
  lemma CreatedProductIsListed(store: Store, entity: Product, assignedId: int)
    requires !NameTaken(store, entity.name)
    requires assignedId > 0
    ensures var r := Create(store, entity, assignedId, NoFault);
            && r.response.flag
            && Product(assignedId, entity.name, entity.quantity, entity.price) in GetAll(r.store)
            && |GetAll(r.store)| == |GetAll(store)| + 1
  {
    var r := Create(store, entity, assignedId, NoFault);
    assert r.store[|store|] == Product(assignedId, entity.name, entity.quantity, entity.price);
  }

  /** After a successful Update, looking up the id yields exactly the supplied entity. */
  lemma FindAfterUpdate(store: Store, entity: Product)
    requires UniqueIds(store)
    requires HasId(store, entity.id)
    ensures FindById(Update(store, entity, NoFault).store, entity.id) == Some(entity)
  {
    var s := Update(store, entity, NoFault).store;
    var k :| 0 <= k < |store| && store[k].id == entity.id && s[k] == entity
             && (forall j :: 0 <= j < |store| && j != k ==> s[j] == store[j]);
    UpdatePreservesUniqueIds(store, entity, NoFault);
    FindByIdUnique(s, k);
  }

  /** After a successful Delete, the id is no longer found. */
  lemma FindAfterDelete(store: Store, entity: Product)
    requires UniqueIds(store)
    requires HasId(store, entity.id)
    ensures FindById(Delete(store, entity, NoFault).store, entity.id) == None
  {
    var s := Delete(store, entity, NoFault).store;
    var k :| 0 <= k < |store| && store[k].id == entity.id && s == store[..k] + store[k + 1..];
    forall p | p in s
      ensures p.id != entity.id
    {
      var i :| 0 <= i < |s| && s[i] == p;
      assert s[i] == store[if i < k then i else i + 1];
    }
  }
}
