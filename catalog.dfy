/**
 * Data shapes of the Dune: Awakening crafting catalog (main.py, section 4):
 * the crafting material, the closed set of item types, the stored item, the
 * startup dataset record it is built from, and the response view.
 */
module Catalog {

  datatype Option<T> = None | Some(value: T)

  /** A named quantity of a resource. The quantity is a plain integer with no sign constraint. */
  datatype Material = Material(itemName: string, quantity: int)

  /** The fixed, closed set of item kinds. */
  datatype ItemType = Weapon | Armor | Tool | Component | Consumable | Building | Vehicle

  /** A row of the item table. The id is assigned by the store when the row is inserted. */
  datatype Item = Item(
    id: int,
    name: string,
    description: string,
    itemType: ItemType,
    powerConsumption: int,
    powerGeneration: int,
    craftingMaterials: seq<Material>)

  /**
   * One record of the startup dataset: an item without an id. The two power
   * fields may be absent, in which case the table's default 0 applies.
   */
  datatype DatasetRecord = DatasetRecord(
    name: string,
    description: string,
    itemType: ItemType,
    powerConsumption: Option<int>,
    powerGeneration: Option<int>,
    craftingMaterials: seq<Material>)

  /** What every query endpoint returns for an item: the stored fields plus the Deep Desert cost. */
  datatype ItemResponse = ItemResponse(
    id: int,
    name: string,
    description: string,
    itemType: ItemType,
    powerConsumption: int,
    powerGeneration: int,
    craftingMaterials: seq<Material>,
    deepDesertMaterials: seq<Material>)

  /** The outcome of a lookup: a value, or the "no such resource" answer (HTTP 404). */
  datatype Response<T> = Ok(value: T) | NotFound

  /** The value of a field declared with `default=0` when the record may omit it. */
  function OrDefault(o: Option<int>): int
  {
    match o
    case Some(v) => v
    case None => 0
  }

  /** The item that unpacking a dataset record into the table model produces, given the id the store assigns. */
  function NewItem(rec: DatasetRecord, id: int): (it: Item)
    ensures it.id == id && it.name == rec.name && it.description == rec.description
    ensures it.itemType == rec.itemType && it.craftingMaterials == rec.craftingMaterials
    ensures it.powerConsumption == (if rec.powerConsumption.Some? then rec.powerConsumption.value else 0)
    ensures it.powerGeneration == (if rec.powerGeneration.Some? then rec.powerGeneration.value else 0)
  {
    Item(id, rec.name, rec.description, rec.itemType,
         OrDefault(rec.powerConsumption), OrDefault(rec.powerGeneration), rec.craftingMaterials)
  }

  /** The stored item a response was built from: the response with its derived field dropped. */
  function ItemOf(r: ItemResponse): Item
  {
    Item(r.id, r.name, r.description, r.itemType, r.powerConsumption, r.powerGeneration, r.craftingMaterials)
  }

  /** No two stored items share an id (the primary key). */
  predicate UniqueIds(items: seq<Item>)
  {
    forall i, j :: 0 <= i < j < |items| ==> items[i].id != items[j].id
  }

  /** No two stored items share a name (the unique index on `name`). */
  predicate UniqueNames(items: seq<Item>)
  {
    forall i, j :: 0 <= i < j < |items| ==> items[i].name != items[j].name
  }

  /** No two dataset records share a name. */
  predicate UniqueRecordNames(dataset: seq<DatasetRecord>)
  {
    forall i, j :: 0 <= i < j < |dataset| ==> dataset[i].name != dataset[j].name
  }
}
