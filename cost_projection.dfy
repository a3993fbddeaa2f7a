/**
 * The Deep Desert cost projection (main.py:103-119): every crafting quantity
 * is halved with round-up, names and order are kept, and the response copies
 * every other field of the item.
 */
module CostProjection {
  import opened Catalog

  /**
   * The Deep Desert quantity `(q + 1) // 2`. With the positive divisor 2,
   * Dafny's `/` is floor division like Python's `//`, for negative q too.
   * The result is the ceiling of q / 2: the least r with 2 * r >= q.
   */
  function HalfUp(q: int): (r: int)
    ensures 2 * r - 1 <= q <= 2 * r
    ensures q >= 0 ==> 0 <= r <= q
  {
    (q + 1) / 2
  }

  /** No smaller value than HalfUp(q) covers q when doubled: it is the ceiling, not just an upper bound. */
  lemma HalfUpIsLeast(q: int, s: int)
    requires 2 * s >= q
    ensures HalfUp(q) <= s
  {
  }

  /** Examples of the rounding. */
  lemma HalfUpExamples()
    ensures HalfUp(0) == 0 && HalfUp(1) == 1 && HalfUp(2) == 1 && HalfUp(3) == 2
    ensures HalfUp(7) == 4 && HalfUp(10) == 5 && HalfUp(11) == 6
  {
  }

  /** The Deep Desert materials list built from an item's crafting materials. */
  function DeepDesertMaterials(ms: seq<Material>): (ds: seq<Material>)
    ensures |ds| == |ms|
    ensures forall i :: 0 <= i < |ms| ==>
              ds[i].itemName == ms[i].itemName && ds[i].quantity == HalfUp(ms[i].quantity)
  {
    if ms == [] then []
    else [Material(ms[0].itemName, HalfUp(ms[0].quantity))] + DeepDesertMaterials(ms[1..])
  }

  /** Any list that keeps the names and halves every quantity is the projection: the contract above determines it. */
  lemma DeepDesertMaterialsDetermined(ms: seq<Material>, ds: seq<Material>)
    requires |ds| == |ms|
    requires forall i :: 0 <= i < |ms| ==>
               ds[i].itemName == ms[i].itemName && ds[i].quantity == HalfUp(ms[i].quantity)
    ensures ds == DeepDesertMaterials(ms)
  {
  }

  /** The projection works material by material, so it distributes over concatenation. */
  lemma {:induction false} DeepDesertMaterialsAppend(a: seq<Material>, b: seq<Material>)
    ensures DeepDesertMaterials(a + b) == DeepDesertMaterials(a) + DeepDesertMaterials(b)
  {
    if a == [] {
      assert a + b == b;
    } else {
      assert (a + b)[1..] == a[1..] + b;
      DeepDesertMaterialsAppend(a[1..], b);
    }
  }

  /** The response for a stored item: every stored field copied, plus the Deep Desert materials. */
  function CreateItemResponse(it: Item): (r: ItemResponse)
    ensures ItemOf(r) == it
    ensures |r.deepDesertMaterials| == |it.craftingMaterials|
    ensures forall i :: 0 <= i < |it.craftingMaterials| ==>
              r.deepDesertMaterials[i].itemName == it.craftingMaterials[i].itemName &&
              r.deepDesertMaterials[i].quantity == HalfUp(it.craftingMaterials[i].quantity)
  {
    ItemResponse(it.id, it.name, it.description, it.itemType, it.powerConsumption,
                 it.powerGeneration, it.craftingMaterials, DeepDesertMaterials(it.craftingMaterials))
  }

  /** Two items get the same response exactly when they are the same item: the projection loses nothing. */
  lemma CreateItemResponseInjective(a: Item, b: Item)
    ensures CreateItemResponse(a) == CreateItemResponse(b) <==> a == b
  {
  }
}
