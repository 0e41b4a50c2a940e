/**
 * Ingredients and the rule that accumulates the amount of an ingredient
 * that is added twice (src/app/shared/ingredient.model.ts).
 */
module Ingredients {

  /** The measuring units of an ingredient. */
  datatype Unit = Gr | Kg | Ml | Cl | L | Ud

  /** An ingredient as entered in a form: no document id yet. */
  datatype Ingredient = Ingredient(ingredientName: string, ingredientAmount: int, ingredientUnit: Unit)

  /** An ingredient as stored in the document database, with its document id. */
  datatype IngredientId = IngredientId(id: string, ingredientName: string, ingredientAmount: int, ingredientUnit: Unit)
  {
    /** The ingredient without its id. */
    function Plain(): Ingredient {
      Ingredient(ingredientName, ingredientAmount, ingredientUnit)
    }
  }

  /** The stored ingredient `id` after its fields were overwritten with `i`. */
  function WithId(id: string, i: Ingredient): (r: IngredientId)
    ensures r.id == id && r.Plain() == i
  {
    IngredientId(id, i.ingredientName, i.ingredientAmount, i.ingredientUnit)
  }

  /** The sum of the amounts of `items`. */
  function TotalAmount(items: seq<Ingredient>): int
  {
    if items == [] then 0 else items[0].ingredientAmount + TotalAmount(items[1..])
  }

  /**
   * Merges `destination` into the stored `source`: the name and the unit
   * are the stored ones (the added unit is ignored, even when it differs),
   * the amounts are added, and the id is dropped.
   */
  function AddIngredient(source: IngredientId, destination: Ingredient): (r: Ingredient)
    ensures r.ingredientName == source.ingredientName
    ensures r.ingredientUnit == source.ingredientUnit
    ensures r.ingredientAmount - destination.ingredientAmount == source.ingredientAmount
  {
    Ingredient(source.ingredientName,
               source.ingredientAmount + destination.ingredientAmount,
               source.ingredientUnit)
  }

  /**
   * Adds each of `added`, in order, to the stored ingredient, writing back
   * under the same id. Any sequence of merges keeps the id, the name and
   * the unit and leaves the stored amount plus the sum of the added amounts.
   */
  function AddAll(stored: IngredientId, added: seq<Ingredient>): (r: IngredientId)
    ensures r.id == stored.id
    ensures r.ingredientName == stored.ingredientName
    ensures r.ingredientUnit == stored.ingredientUnit
    ensures r.ingredientAmount == stored.ingredientAmount + TotalAmount(added)
    decreases |added|
  {
    if added == [] then stored
    else AddAll(WithId(stored.id, AddIngredient(stored, added[0])), added[1..])
  }

  /** Adding `a` then `b` to a stored ingredient gives the same ingredient as adding `b` then `a`. */
  lemma AddTwiceCommutes(stored: IngredientId, a: Ingredient, b: Ingredient)
    ensures AddAll(stored, [a, b]) == AddAll(stored, [b, a])
    ensures AddAll(stored, [a, b]).ingredientAmount
            == stored.ingredientAmount + a.ingredientAmount + b.ingredientAmount
  {
    assert [a, b][1..] == [b] && [b, a][1..] == [a];
    assert [b][1..] == [] && [a][1..] == [];
    assert TotalAmount([a]) == a.ingredientAmount + TotalAmount([a][1..]);
    assert TotalAmount([b]) == b.ingredientAmount + TotalAmount([b][1..]);
    assert TotalAmount([a, b]) == a.ingredientAmount + TotalAmount([b]);
    assert TotalAmount([b, a]) == b.ingredientAmount + TotalAmount([a]);
  }

  /** With non-negative amounts the merged amount is at least each of the two amounts. */
  lemma AddIngredientMonotone(source: IngredientId, destination: Ingredient)
    requires source.ingredientAmount >= 0 && destination.ingredientAmount >= 0
    ensures AddIngredient(source, destination).ingredientAmount >= source.ingredientAmount
    ensures AddIngredient(source, destination).ingredientAmount >= destination.ingredientAmount
  {
  }
}
