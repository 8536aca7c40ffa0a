/**
  A salad recipe (`salad.Salad`, `salad.SaladIngredient`): a name and an
  ordered list of ingredients, each a catalog product with a weight in grams.
  The classes themselves are not part of this model; adding appends to the
  list and removing is `List.remove(Object)`.
 */
module Salads {
  import opened Seqs
  import opened Products

  /** A product and its weight in grams; the weight is not checked for sign. */
  datatype Ingredient = Ingredient(product: Product, weight: real)

  datatype Salad = Salad(name: string, ingredients: seq<Ingredient>)

  /** `addIngredient`: the ingredient goes at the end. */
  function AddIngredient(s: Salad, ing: Ingredient): (r: Salad)
    ensures r.name == s.name
    ensures |r.ingredients| == |s.ingredients| + 1
    ensures r.ingredients[..|s.ingredients|] == s.ingredients && r.ingredients[|s.ingredients|] == ing
  {
    Salad(s.name, s.ingredients + [ing])
  }

  /** `removeIngredient`: one occurrence of `ing` leaves the list, the other
      ingredients keep their order; a salad without `ing` is unchanged. */
  function RemoveIngredient(s: Salad, ing: Ingredient): (r: Salad)
    ensures r.name == s.name
    ensures ing !in s.ingredients ==> r == s
    ensures ing in s.ingredients ==>
              |r.ingredients| == |s.ingredients| - 1
              && multiset(r.ingredients) == multiset(s.ingredients) - multiset{ing}
    ensures ing in s.ingredients ==> r.ingredients == RemoveAt(s.ingredients, IndexOf(s.ingredients, ing))
  {
    var rest := RemoveFirst(s.ingredients, ing);
    if ing in s.ingredients then
      RemoveAtMultiset(s.ingredients, IndexOf(s.ingredients, ing));
      Salad(s.name, rest)
    else Salad(s.name, rest)
  }

  /** The name an ingredient is looked up by: its product's name. */
  function IngredientName(ing: Ingredient): string
  {
    ing.product.name
  }

  /** `getName` of a salad. */
  function SaladName(s: Salad): string
  {
    s.name
  }
}
