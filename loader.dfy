/**
 * The populate-if-empty startup routine (main.py:73-98) over the item store.
 * The dataset that the routine reads from its file is a parameter here. Ids
 * come from a counter that every insert advances; the model promises only
 * that they are fresh and distinct, not the engine's own numbering.
 */
module Loader {
  import opened Catalog
  import opened Queries

  /** The store's rows, in store order, and the next id it will hand out. */
  datatype StoreState = StoreState(items: seq<Item>, nextId: int)

  /** How a startup run ended. */
  datatype StartupOutcome =
    | AlreadyPopulated      // some item existed, nothing was read or written
    | Populated             // the dataset was inserted and committed
    | ConstraintViolation   // the commit broke the unique name index; nothing was committed

  /** The store invariant: unique ids, unique names, and every id below the next one to be assigned. */
  ghost predicate ValidState(st: StoreState)
  {
    UniqueIds(st.items) && UniqueNames(st.items) &&
    forall i :: 0 <= i < |st.items| ==> st.items[i].id < st.nextId
  }

  /** The items the loop adds to the session, ids handed out consecutively from firstId. */
  function NewItems(dataset: seq<DatasetRecord>, firstId: int): (r: seq<Item>)
    ensures |r| == |dataset|
    ensures forall i :: 0 <= i < |r| ==> r[i] == NewItem(dataset[i], firstId + i)
  {
    if dataset == [] then [] else [NewItem(dataset[0], firstId)] + NewItems(dataset[1..], firstId + 1)
  }

  /** The new items carry the dataset's names in order, so they clash exactly when the dataset's names do. */
  lemma NewItemsUniqueNames(dataset: seq<DatasetRecord>, firstId: int)
    ensures UniqueNames(NewItems(dataset, firstId)) <==> UniqueRecordNames(dataset)
  {
  }

  /** The state after startup and its outcome: skip when populated, else insert everything in one commit. */
  function Startup(st: StoreState, dataset: seq<DatasetRecord>): (r: (StoreState, StartupOutcome))
    ensures r.1 == AlreadyPopulated <==> st.items != []
    ensures r.1 == Populated <==> st.items == [] && UniqueRecordNames(dataset)
    ensures r.1 != Populated ==> r.0 == st
  {
    if st.items != [] then (st, AlreadyPopulated)
    else
      var pending := NewItems(dataset, st.nextId);
      NewItemsUniqueNames(dataset, st.nextId);
      if UniqueNames(pending) then (StoreState(pending, st.nextId + |dataset|), Populated)
      else (st, ConstraintViolation)
  }

  /** The ids the loop hands out are distinct and lie in [firstId, firstId + |dataset|). */
  lemma NewItemsFreshIds(dataset: seq<DatasetRecord>, firstId: int)
    ensures UniqueIds(NewItems(dataset, firstId))
    ensures forall i :: 0 <= i < |dataset| ==> firstId <= NewItems(dataset, firstId)[i].id < firstId + |dataset|
  {
  }

  /** On an empty store with distinct dataset names, startup stores the dataset in order under fresh, distinct ids. */
  lemma StartupPopulatesEmptyStore(st: StoreState, dataset: seq<DatasetRecord>)
    requires st.items == []
    requires UniqueRecordNames(dataset)
    ensures Startup(st, dataset).1 == Populated
    ensures var items := Startup(st, dataset).0.items;
      |items| == |dataset| &&
      (forall i :: 0 <= i < |items| ==> items[i] == NewItem(dataset[i], items[i].id)) &&
      (forall i :: 0 <= i < |items| ==> st.nextId <= items[i].id < Startup(st, dataset).0.nextId) &&
      UniqueIds(items)
  {
    var pending := NewItems(dataset, st.nextId);
    NewItemsUniqueNames(dataset, st.nextId);
    NewItemsFreshIds(dataset, st.nextId);
    assert st.items + pending == pending;
    assert Startup(st, dataset) == (StoreState(pending, st.nextId + |dataset|), Populated);
  }

  /** On an empty store whose dataset repeats a name, startup commits nothing. */
  lemma StartupRejectsDuplicateNames(st: StoreState, dataset: seq<DatasetRecord>)
    requires st.items == []
    requires !UniqueRecordNames(dataset)
    ensures Startup(st, dataset) == (st, ConstraintViolation)
  {
    NewItemsUniqueNames(dataset, st.nextId);
    assert st.items + NewItems(dataset, st.nextId) == NewItems(dataset, st.nextId);
  }

  /** Startup keeps the store invariant, whatever the dataset holds. */
  lemma StartupPreservesValid(st: StoreState, dataset: seq<DatasetRecord>)
    requires ValidState(st)
    ensures ValidState(Startup(st, dataset).0)
  {
    if st.items == [] {
      var pending := NewItems(dataset, st.nextId);
      assert st.items + pending == pending;
    }
  }

  /** Running startup a second time, as on a restart against the same store, changes nothing more. */
  lemma StartupIdempotent(st: StoreState, dataset: seq<DatasetRecord>)
    ensures Startup(Startup(st, dataset).0, dataset).0 == Startup(st, dataset).0
  {
  }

  /** The listing right after startup fills an empty store: one response per dataset record, in dataset order. */
  lemma ListAllAfterStartup(st: StoreState, dataset: seq<DatasetRecord>)
    requires st.items == []
    requires UniqueRecordNames(dataset)
    ensures var all := GetAllItems(Startup(st, dataset).0.items);
      |all| == |dataset| &&
      forall i :: 0 <= i < |all| ==>
        all[i].name == dataset[i].name &&
        all[i].craftingMaterials == dataset[i].craftingMaterials &&
        all[i].deepDesertMaterials == CostProjection.DeepDesertMaterials(dataset[i].craftingMaterials)
  {
    StartupPopulatesEmptyStore(st, dataset);
  }

  /**
   * An Ornithopter needing 7 Plastanium, loaded into an empty
   * store, is served under the first id with a Deep Desert cost of 4 Plastanium.
   */
  lemma OrnithopterScenario(st: StoreState)
    requires st.items == []
    ensures var rec := DatasetRecord("Ornithopter", "", Vehicle, Some(5), Some(0), [Material("Plastanium", 7)]);
      var r := GetItemById(Startup(st, [rec]).0.items, st.nextId);
      r.Ok? && r.value.deepDesertMaterials == [Material("Plastanium", 4)]
  {
    var rec := DatasetRecord("Ornithopter", "", Vehicle, Some(5), Some(0), [Material("Plastanium", 7)]);
    StartupPopulatesEmptyStore(st, [rec]);
    var items := Startup(st, [rec]).0.items;
    GetItemByIdFindsStored(items, 0);
    CostProjection.DeepDesertMaterialsDetermined([Material("Plastanium", 7)], [Material("Plastanium", 4)]);
  }

  /** The item table, whose rows the startup routine is the only one to write. */
  class ItemStore {
    var items: seq<Item>
    var nextId: int

    function State(): StoreState
      reads this
    {
      StoreState(items, nextId)
    }

    ghost predicate Valid()
      reads this
    {
      ValidState(State())
    }

    /** A freshly created, empty table (the schema creation step). */
    constructor (firstId: int)
      ensures Valid() && items == [] && nextId == firstId
    {
      items := [];
      nextId := firstId;
    }

    /**
     * `on_startup`: if any item exists, do nothing; otherwise add an item per
     * dataset record, in order, each under a fresh id, and commit them together.
     */
    method OnStartup(dataset: seq<DatasetRecord>) returns (outcome: StartupOutcome)
      requires Valid()
      modifies this
      ensures Valid()
      ensures (State(), outcome) == Startup(old(State()), dataset)
      ensures old(items) != [] ==> items == old(items) && nextId == old(nextId) && outcome == AlreadyPopulated
      ensures outcome == Populated ==>
                |items| == |dataset| &&
                (forall i :: 0 <= i < |items| ==> items[i] == NewItem(dataset[i], items[i].id)) &&
                (forall i :: 0 <= i < |items| ==> old(nextId) <= items[i].id < nextId)
      ensures outcome != Populated ==> items == old(items) && nextId == old(nextId)
    {
      if items != [] {
        return AlreadyPopulated;
      }
      var pending: seq<Item> := [];
      var id := nextId;
      for k := 0 to |dataset|
        invariant id == nextId + k
        invariant |pending| == k
        invariant forall i :: 0 <= i < k ==> pending[i] == NewItem(dataset[i], nextId + i)
      {
        pending := pending + [NewItem(dataset[k], id)];
        id := id + 1;
      }
      assert pending == NewItems(dataset, nextId);
      assert items + pending == pending;
      ghost var before := State();
      StartupPreservesValid(before, dataset);
      if UniqueNames(items + pending) {
        StartupPopulatesEmptyStore(before, dataset);
        items, nextId := items + pending, id;
        outcome := Populated;
      } else {
        outcome := ConstraintViolation;
      }
      assert (State(), outcome) == Startup(before, dataset);
    }
  }

  /**
   * A first boot followed by a restart against the same store: the restart
   * finds the store populated and adds no rows.
   */
  method StartupTwice(dataset: seq<DatasetRecord>) returns (once: seq<Item>, twice: seq<Item>)
    ensures twice == once
    ensures UniqueRecordNames(dataset) <==> |once| == |dataset|
    ensures UniqueRecordNames(dataset) ==>
              forall i :: 0 <= i < |once| ==> once[i].name == dataset[i].name
  {
    var store := new ItemStore(1);
    var first := store.OnStartup(dataset);
    once := store.items;
    var second := store.OnStartup(dataset);
    twice := store.items;
  }

  // The routine as main.py has it: `json.load` at main.py:89 names a module
  // that the file never imports, so on an empty store the call raises before
  // any item is added.

  datatype AsWrittenOutcome = Skipped | RaisedNameError

  /** `on_startup` as written: populated store skipped, empty store left empty by the raised error. */
  function StartupAsWritten(st: StoreState, dataset: seq<DatasetRecord>): (r: (StoreState, AsWrittenOutcome))
    ensures r.0 == st
    ensures r.1 == RaisedNameError <==> st.items == []
  {
    if st.items != [] then (st, Skipped) else (st, RaisedNameError)
  }

  /** As written, no dataset ever reaches an empty store, while the intended routine stores it. */
  lemma AsWrittenNeverPopulates(st: StoreState, dataset: seq<DatasetRecord>)
    requires st.items == [] && dataset != [] && UniqueRecordNames(dataset)
    ensures StartupAsWritten(st, dataset) == (st, RaisedNameError)
    ensures Startup(st, dataset).0.items != StartupAsWritten(st, dataset).0.items
  {
    StartupPopulatesEmptyStore(st, dataset);
  }
}
