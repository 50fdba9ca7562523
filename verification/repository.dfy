/**
 The product repository over an abstract in-memory store: a sequence of
 products in query order. Create enforces the duplicate-name rule, Update and
 Delete check that the id exists, and each returns the new store together with
 its `(flag, message)` envelope. FindById, GetAll and GetBy are lookups and
 return no store at all, so they cannot change it.

 Two facts the database would supply are parameters: the id the store assigns
 to an inserted row (`assignedId`), and where, if anywhere, the store throws
 (`fault`). A throw in the lookup or in `SaveChangesAsync` is caught by the
 operation's `catch` block and becomes its fixed fault envelope.
 */
module Repository {
  import opened Wrappers
  import opened Entities

  type Store = seq<Product>

  /** Where the store throws during one mutating call: nowhere, in the
      existence lookup that starts it, or in `SaveChangesAsync`. */
  datatype Fault = NoFault | LookupFault | SaveFault

  /** The store after a mutating operation, and the envelope it returns. */
  datatype Outcome = Outcome(store: Store, response: Response)

  // The fixed messages of the envelopes.
  function AlreadyAdded(name: string): string { name + " already added" }
  function Added(name: string): string { name + " added to database successfully" }
  function AddFailed(name: string): string { "Error occurred while adding " + name }
  function NotFoundMessage(name: string): string { name + " not found" }
  function Updated(name: string): string { name + " is updated successfully" }
  function Deleted(name: string): string { name + " deleted successfully" }
  const CreateFault := "Error occurred adding new product"
  const UpdateFault := "Error occurred updating product"
  const DeleteFault := "Error occurred deleting product"

  /** Some stored product has id `id`. */
  predicate HasId(store: Store, id: int) {
    exists p :: p in store && p.id == id
  }

  /** Some stored product is called `name`, and `name` is not empty. */
  predicate NameTaken(store: Store, name: string) {
    name != "" && exists p :: p in store && p.name == name
  }

  /** No two stored products share a non-empty name. */
  predicate UniqueNames(store: Store) {
    forall i, j :: 0 <= i < j < |store| && store[i].name != "" ==> store[i].name != store[j].name
  }

  /** No two stored products share an id (the primary key). */
  predicate UniqueIds(store: Store) {
    forall i, j :: 0 <= i < j < |store| ==> store[i].id != store[j].id
  }

  /** The position of the first stored product satisfying `pred`, if any. */
  function FirstIndex(store: Store, pred: Product -> bool): (r: Option<nat>)
    ensures r.Some? ==> r.value < |store| && pred(store[r.value])
    ensures r.Some? ==> forall j :: 0 <= j < r.value ==> !pred(store[j])
    ensures r.None? ==> forall j :: 0 <= j < |store| ==> !pred(store[j])
    decreases |store|
  {
    if |store| == 0 then None
    else if pred(store[0]) then Some(0)
    else match FirstIndex(store[1..], pred)
      case None => None
      case Some(k) => Some(k + 1)
  }

  /** `GetByAsync`: the first product in store order satisfying `pred`, or none. */
  function GetBy(store: Store, pred: Product -> bool): (r: Option<Product>)
    ensures r.Some? <==> exists p :: p in store && pred(p)
    ensures r.Some? ==> exists k :: 0 <= k < |store| && store[k] == r.value && pred(r.value)
                                    && forall j :: 0 <= j < k ==> !pred(store[j])
  {
    match FirstIndex(store, pred)
    case None => None
    case Some(k) => Some(store[k])
  }

  /** `FindByIdAsync`: the stored product with id `id`, or none. */
  function FindById(store: Store, id: int): (r: Option<Product>)
    ensures r.Some? <==> HasId(store, id)
    ensures r.Some? ==> r.value in store && r.value.id == id
  {
    GetBy(store, (p: Product) => p.id == id)
  }

  /** `GetAllAsync`: a snapshot of every stored product, in store order. */
  function GetAll(store: Store): (r: seq<Product>)
    ensures |r| == |store|
    ensures forall i :: 0 <= i < |store| ==> r[i] == store[i]
  {
    store
  }

  /**
   `CreateAsync`. A throw in the duplicate lookup gives the fault envelope. A
   duplicate non-empty name is refused with the store untouched. Otherwise the
   entity is inserted with the id the store assigns; the insert has already
   been committed when the id is inspected, so a non-positive id gives the
   error envelope but the row stays stored.
   */
  function Create(store: Store, entity: Product, assignedId: int, fault: Fault): (r: Outcome)
    ensures fault.LookupFault? ==> r == Outcome(store, Response(false, CreateFault))
    ensures NameTaken(store, entity.name) && !fault.LookupFault? ==>
              r == Outcome(store, Response(false, AlreadyAdded(entity.name)))
    ensures !NameTaken(store, entity.name) && fault.SaveFault? ==>
              r == Outcome(store, Response(false, CreateFault))
    ensures !NameTaken(store, entity.name) && fault.NoFault? ==>
              && r.store == store + [entity.(id := assignedId)]
              && (assignedId > 0 ==> r.response == Response(true, Added(entity.name)))
              && (assignedId <= 0 ==> r.response == Response(false, AddFailed(entity.name)))
    ensures r.response.flag <==> !NameTaken(store, entity.name) && fault.NoFault? && assignedId > 0
  {
    if fault.LookupFault? then Outcome(store, Response(false, CreateFault))
    else
      var found := GetBy(store, (p: Product) => p.name == entity.name);
      var duplicate := found.Some? && found.value.name != "";
      assert duplicate <==> NameTaken(store, entity.name);
      if duplicate then
        Outcome(store, Response(false, AlreadyAdded(entity.name)))
      else if fault.SaveFault? then
        Outcome(store, Response(false, CreateFault))
      else
        var stored := store + [entity.(id := assignedId)];
        if assignedId > 0 then Outcome(stored, Response(true, Added(entity.name)))
        else Outcome(stored, Response(false, AddFailed(entity.name)))
  }

  /**
   `UpdateAsync`. A throw in the id lookup gives the fault envelope. An unknown
   id is refused, naming the supplied entity. A known id has its first stored
   record replaced wholesale by the entity; the name is not checked against
   the other records.
   */
  function Update(store: Store, entity: Product, fault: Fault): (r: Outcome)
    ensures fault.LookupFault? ==> r == Outcome(store, Response(false, UpdateFault))
    ensures !HasId(store, entity.id) && !fault.LookupFault? ==>
              r == Outcome(store, Response(false, NotFoundMessage(entity.name)))
    ensures HasId(store, entity.id) && fault.SaveFault? ==>
              r == Outcome(store, Response(false, UpdateFault))
    ensures HasId(store, entity.id) && fault.NoFault? ==>
              && r.response == Response(true, Updated(entity.name))
              && |r.store| == |store|
              && exists k :: 0 <= k < |store| && store[k].id == entity.id && r.store[k] == entity
                             && (forall j :: 0 <= j < k ==> store[j].id != entity.id)
                             && (forall j :: 0 <= j < |store| && j != k ==> r.store[j] == store[j])
  {
    if fault.LookupFault? then Outcome(store, Response(false, UpdateFault))
    else match FirstIndex(store, (p: Product) => p.id == entity.id)
    case None => Outcome(store, Response(false, NotFoundMessage(entity.name)))
    case Some(k) =>
      if fault.SaveFault? then Outcome(store, Response(false, UpdateFault))
      else Outcome(store[k := entity], Response(true, Updated(entity.name)))
  }

  /**
   `DeleteAsync`. A throw in the id lookup gives the fault envelope. An unknown
   id is refused, naming the supplied entity. A known id has its first stored
   record removed; the message names the supplied entity, not the stored one.
   */
  function Delete(store: Store, entity: Product, fault: Fault): (r: Outcome)
    ensures fault.LookupFault? ==> r == Outcome(store, Response(false, DeleteFault))
    ensures !HasId(store, entity.id) && !fault.LookupFault? ==>
              r == Outcome(store, Response(false, NotFoundMessage(entity.name)))
    ensures HasId(store, entity.id) && fault.SaveFault? ==>
              r == Outcome(store, Response(false, DeleteFault))
    ensures HasId(store, entity.id) && fault.NoFault? ==>
              && r.response == Response(true, Deleted(entity.name))
              && |r.store| == |store| - 1
              && exists k :: 0 <= k < |store| && store[k].id == entity.id
                             && (forall j :: 0 <= j < k ==> store[j].id != entity.id)
                             && r.store == store[..k] + store[k + 1..]
  {
    if fault.LookupFault? then Outcome(store, Response(false, DeleteFault))
    else match FirstIndex(store, (p: Product) => p.id == entity.id)
    case None => Outcome(store, Response(false, NotFoundMessage(entity.name)))
    case Some(k) =>
      if fault.SaveFault? then Outcome(store, Response(false, DeleteFault))
      else Outcome(store[..k] + store[k + 1..], Response(true, Deleted(entity.name)))
  }
}
