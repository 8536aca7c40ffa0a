/**
  The recipe logic of `service/SaladService`: weight and calorie totals,
  stable sorting of a salad's ingredients and of all salads, the calorie
  range filter on vegetables, and the checks each console command makes
  before it touches the recipe store. Console input arrives as the text of
  each line read; what is printed is not modelled.

  The calories of one ingredient (`SaladIngredient.getTotalCalories`) come
  from a class that is not part of this model, so they are a parameter
  `kcal` throughout.
 */
module SaladService {
  import opened Wrappers
  import opened Text
  import opened Seqs
  import opened Sorting
  import opened Products
  import opened ProductRepository
  import opened Salads
  import opened SaladRepository
  import opened Outcomes

  function Weight(ing: Ingredient): real
  {
    ing.weight
  }

  /** `calculateTotalWeight`: the sum of the ingredient weights. */
  function TotalWeight(s: Salad): (total: real)
    ensures s.ingredients == [] ==> total == 0.0
  {
    Sum(Weight, s.ingredients)
  }

  /** `calculateTotalCalories`: the sum of the ingredients' calories. */
  function TotalCalories(kcal: Ingredient -> real, s: Salad): (total: real)
    ensures s.ingredients == [] ==> total == 0.0
  {
    Sum(kcal, s.ingredients)
  }

  lemma SumSingle<T>(f: T -> real, x: T)
    ensures Sum(f, [x]) == f(x)
  {
    assert [x][1..] == [];
  }

  /** Adding an ingredient adds its weight and its calories to the totals. */
  lemma TotalsAfterAdd(kcal: Ingredient -> real, s: Salad, ing: Ingredient)
    ensures TotalWeight(AddIngredient(s, ing)) == TotalWeight(s) + ing.weight
    ensures TotalCalories(kcal, AddIngredient(s, ing)) == TotalCalories(kcal, s) + kcal(ing)
  {
    SumAppend(Weight, s.ingredients, [ing]);
    SumAppend(kcal, s.ingredients, [ing]);
    SumSingle(Weight, ing);
    SumSingle(kcal, ing);
  }

  /** Removing an ingredient the salad holds takes its weight and calories off the totals. */
  lemma TotalsAfterRemove(kcal: Ingredient -> real, s: Salad, ing: Ingredient)
    requires ing in s.ingredients
    ensures TotalWeight(RemoveIngredient(s, ing)) == TotalWeight(s) - ing.weight
    ensures TotalCalories(kcal, RemoveIngredient(s, ing)) == TotalCalories(kcal, s) - kcal(ing)
  {
    var rest := RemoveIngredient(s, ing).ingredients;
    assert multiset(rest + [ing]) == multiset(s.ingredients);
    SumPermutation(Weight, rest + [ing], s.ingredients);
    SumPermutation(kcal, rest + [ing], s.ingredients);
    SumAppend(Weight, rest, [ing]);
    SumAppend(kcal, rest, [ing]);
    SumSingle(Weight, ing);
    SumSingle(kcal, ing);
  }

  /** The orders `sortIngredients` offers: by product name, by weight, by calories. */
  datatype IngredientOrder = ByName | ByWeight | ByCalories

  /** The menu of `sortIngredients`: "1", "2" and "3"; anything else is refused. */
  function ChooseOrder(choice: string): (r: Option<IngredientOrder>)
    ensures r.None? <==> choice != "1" && choice != "2" && choice != "3"
    ensures choice == "1" ==> r == Some(ByName)
    ensures choice == "2" ==> r == Some(ByWeight)
    ensures choice == "3" ==> r == Some(ByCalories)
  {
    if choice == "1" then Some(ByName)
    else if choice == "2" then Some(ByWeight)
    else if choice == "3" then Some(ByCalories)
    else None
  }

  /** The comparator of each order, as a sort key. */
  function IngredientKey(kcal: Ingredient -> real, order: IngredientOrder): Ingredient -> Key
  {
    match order
    case ByName => (i: Ingredient) => Word(i.product.name)
    case ByWeight => (i: Ingredient) => Num(i.weight)
    case ByCalories => (i: Ingredient) => Num(kcal(i))
  }

  /** The ingredients sorted on a copy of the list: the same ingredients,
      ordered by the chosen key, ingredients with equal keys in their
      original relative order. */
  function SortIngredients(kcal: Ingredient -> real, order: IngredientOrder, ings: seq<Ingredient>): (r: seq<Ingredient>)
    ensures multiset(r) == multiset(ings)
    ensures order == ByName ==> forall i, j :: 0 <= i < j < |r| ==> StringLe(r[i].product.name, r[j].product.name)
    ensures order == ByWeight ==> forall i, j :: 0 <= i < j < |r| ==> r[i].weight <= r[j].weight
    ensures order == ByCalories ==> forall i, j :: 0 <= i < j < |r| ==> kcal(r[i]) <= kcal(r[j])
    ensures forall k :: KeyClass(IngredientKey(kcal, order), k, r) == KeyClass(IngredientKey(kcal, order), k, ings)
  {
    var key := IngredientKey(kcal, order);
    var r := SortBy(key, ings);
    assert forall i, j :: 0 <= i < j < |r| ==> KeyLe(key(r[i]), key(r[j]));
    r
  }

  /** Any list of the same ingredients that is ordered by the key and keeps
      equal keys in their original order is the sorted list: the result does
      not depend on how the sort is carried out. */
  lemma SortIngredientsUnique(kcal: Ingredient -> real, order: IngredientOrder, ings: seq<Ingredient>, other: seq<Ingredient>)
    requires SortedBy(IngredientKey(kcal, order), other)
    requires forall k :: KeyClass(IngredientKey(kcal, order), k, other) == KeyClass(IngredientKey(kcal, order), k, ings)
    ensures other == SortIngredients(kcal, order, ings)
  {
    var key := IngredientKey(kcal, order);
    var r := SortIngredients(kcal, order, ings);
    assert r == SortBy(key, ings);
    SortedStableUnique(key, other, r);
  }

  /** Sorting does not change the totals. */
  lemma SortKeepsTotals(kcal: Ingredient -> real, order: IngredientOrder, s: Salad)
    ensures TotalWeight(Salad(s.name, SortIngredients(kcal, order, s.ingredients))) == TotalWeight(s)
    ensures TotalCalories(kcal, Salad(s.name, SortIngredients(kcal, order, s.ingredients))) == TotalCalories(kcal, s)
  {
    SumPermutation(Weight, SortIngredients(kcal, order, s.ingredients), s.ingredients);
    SumPermutation(kcal, SortIngredients(kcal, order, s.ingredients), s.ingredients);
  }

  /** Two ingredients of the same weight keep their order when sorted by weight. */
  lemma EqualWeightsKeepOrder(kcal: Ingredient -> real, a: Ingredient, b: Ingredient)
    requires a.weight == b.weight
    ensures SortIngredients(kcal, ByWeight, [a, b]) == [a, b]
  {
    var key := IngredientKey(kcal, ByWeight);
    var r := SortIngredients(kcal, ByWeight, [a, b]);
    KeyLeReflexive(Num(a.weight));
    assert SortedBy(key, [a, b]);
    SortIngredientsUnique(kcal, ByWeight, [a, b], [a, b]);
  }

  /** `sortIngredients`: the salad named by the trimmed input, then the
      menu choice, then the sorted copy; the salad itself is not changed. */
  function SortIngredientsCommand(kcal: Ingredient -> real, cache: seq<Salad>, nameInput: string, choice: string): (r: Outcome<seq<Ingredient>>)
    ensures r.NotFound? <==> FindSalad(cache, Trim(nameInput)).None?
    ensures r.BadChoice? <==> FindSalad(cache, Trim(nameInput)).Some? && ChooseOrder(choice).None?
    ensures r.Done? ==> r.value == SortIngredients(kcal, ChooseOrder(choice).value, FindSalad(cache, Trim(nameInput)).value.ingredients)
  {
    match FindSalad(cache, Trim(nameInput))
    case None => NotFound
    case Some(s) =>
      match ChooseOrder(choice)
      case None => BadChoice
      case Some(order) => Done(SortIngredients(kcal, order, s.ingredients))
  }

  /** The key of `sortSaladsByCalories`: a salad's total calories. */
  function CalorieKey(kcal: Ingredient -> real): Salad -> Key
  {
    (s: Salad) => Num(TotalCalories(kcal, s))
  }

  /** `sortSaladsByCalories`: a copy of the cache ordered by total calories,
      salads of equal calories in cache order. */
  function SortSaladsByCalories(kcal: Ingredient -> real, cache: seq<Salad>): (r: seq<Salad>)
    ensures multiset(r) == multiset(cache)
    ensures forall i, j :: 0 <= i < j < |r| ==> TotalCalories(kcal, r[i]) <= TotalCalories(kcal, r[j])
    ensures forall k :: KeyClass(CalorieKey(kcal), k, r) == KeyClass(CalorieKey(kcal), k, cache)
  {
    var key := CalorieKey(kcal);
    var r := SortBy(key, cache);
    assert forall i, j :: 0 <= i < j < |r| ==> KeyLe(key(r[i]), key(r[j]));
    r
  }

  /** The ingredients `findVegetablesByCalories` keeps: vegetables whose
      calories per 100 g lie between the bounds, both included. */
  function InRange(lo: real, hi: real): Ingredient -> bool
  {
    (i: Ingredient) => IsVegetable(i.product) && lo <= i.product.calories <= hi
  }

  /** The range filter: exactly the vegetable ingredients within the bounds,
      in salad order. */
  function VegetablesInRange(lo: real, hi: real, ings: seq<Ingredient>): (r: seq<Ingredient>)
    ensures |r| <= |ings|
    ensures forall ing :: ing in r <==> ing in ings && IsVegetable(ing.product) && lo <= ing.product.calories <= hi
  {
    var r := Filter(InRange(lo, hi), ings);
    forall ing ensures ing in r <==> ing in ings && IsVegetable(ing.product) && lo <= ing.product.calories <= hi {
      FilterMembership(InRange(lo, hi), ings, ing);
    }
    r
  }

  /** The filter keeps every occurrence of a kept ingredient and works piece
      by piece, so the salad's order survives. */
  lemma VegetablesInRangeOrder(lo: real, hi: real, a: seq<Ingredient>, b: seq<Ingredient>, ing: Ingredient)
    ensures VegetablesInRange(lo, hi, a + b) == VegetablesInRange(lo, hi, a) + VegetablesInRange(lo, hi, b)
    ensures multiset(VegetablesInRange(lo, hi, a))[ing] == if InRange(lo, hi)(ing) then multiset(a)[ing] else 0
  {
    FilterAppend(InRange(lo, hi), a, b);
    FilterMultiset(InRange(lo, hi), a, ing);
  }

  /** Filtering twice with the same bounds is filtering once. */
  lemma VegetablesInRangeIdempotent(lo: real, hi: real, ings: seq<Ingredient>)
    ensures VegetablesInRange(lo, hi, VegetablesInRange(lo, hi, ings)) == VegetablesInRange(lo, hi, ings)
  {
    FilterIdempotent(InRange(lo, hi), ings);
  }

  /** Vegetables of 10, 25, 40 and 60 kcal and a topping of 30 kcal, filtered
      to [20, 50]: the 25 and 40 kcal vegetables, and not the topping. */
  lemma RangeExample()
    ensures VegetablesInRange(20.0, 50.0, [
              Ingredient(LeafyVegetable("a", 10.0, 1.0), 100.0),
              Ingredient(RootVegetable("b", 25.0, 1.0, true), 100.0),
              Ingredient(Topping("c", 30.0, true), 100.0),
              Ingredient(TuberVegetable("d", 40.0, 1.0), 100.0),
              Ingredient(FruitingVegetable("e", 60.0, 1.0), 100.0)])
            == [Ingredient(RootVegetable("b", 25.0, 1.0, true), 100.0),
                Ingredient(TuberVegetable("d", 40.0, 1.0), 100.0)]
  {
    var v10 := Ingredient(LeafyVegetable("a", 10.0, 1.0), 100.0);
    var v25 := Ingredient(RootVegetable("b", 25.0, 1.0, true), 100.0);
    var t30 := Ingredient(Topping("c", 30.0, true), 100.0);
    var v40 := Ingredient(TuberVegetable("d", 40.0, 1.0), 100.0);
    var v60 := Ingredient(FruitingVegetable("e", 60.0, 1.0), 100.0);
    var p := InRange(20.0, 50.0);
    assert !p(v10) && p(v25) && !p(t30) && p(v40) && !p(v60);
    FilterCons(p, v60, []);
    assert Filter(p, [v60]) == [] by { assert [v60] == [v60] + []; }
    FilterCons(p, v40, [v60]);
    assert Filter(p, [v40, v60]) == [v40] by { assert [v40, v60] == [v40] + [v60]; }
    FilterCons(p, t30, [v40, v60]);
    assert Filter(p, [t30, v40, v60]) == [v40] by { assert [t30, v40, v60] == [t30] + [v40, v60]; }
    FilterCons(p, v25, [t30, v40, v60]);
    assert Filter(p, [v25, t30, v40, v60]) == [v25, v40] by { assert [v25, t30, v40, v60] == [v25] + [t30, v40, v60]; }
    FilterCons(p, v10, [v25, t30, v40, v60]);
    assert [v10, v25, t30, v40, v60] == [v10] + [v25, t30, v40, v60];
  }

  /** `findVegetablesByCalories`: the salad named by the trimmed input, then
      the two bounds, each parsed as written; a bound that does not parse
      ends the command. */
  function FindVegetablesCommand(num: NumberSyntax, cache: seq<Salad>, nameInput: string, minText: string, maxText: string): (r: Outcome<seq<Ingredient>>)
    ensures r.NotFound? <==> FindSalad(cache, Trim(nameInput)).None?
    ensures r.BadNumber? <==> FindSalad(cache, Trim(nameInput)).Some? && (num.parse(minText).None? || num.parse(maxText).None?)
    ensures r.Done? ==> r.value == VegetablesInRange(num.parse(minText).value, num.parse(maxText).value, FindSalad(cache, Trim(nameInput)).value.ingredients)
  {
    match FindSalad(cache, Trim(nameInput))
    case None => NotFound
    case Some(s) =>
      match num.parse(minText)
      case None => BadNumber
      case Some(lo) =>
        match num.parse(maxText)
        case None => BadNumber
        case Some(hi) => Done(VegetablesInRange(lo, hi, s.ingredients))
  }

  /** `createNewSalad`: the name is trimmed; a blank name and a name already
      in the cache (ignoring case) are refused; otherwise an empty salad of
      that name is saved, which appends it and removes nothing. */
  function CreateSalad(cache: seq<Salad>, input: string, written: bool): (r: Outcome<seq<Salad>>)
    ensures r.EmptyName? <==> IsBlank(input)
    ensures r.AlreadyExists? <==> !IsBlank(input) && exists i :: 0 <= i < |cache| && EqualsIgnoreCase(cache[i].name, Trim(input))
    ensures r.Done? ==> written ==> r.value == cache + [Salad(Trim(input), [])]
    ensures r.Done? ==> !written ==> r.value == cache
    ensures !r.EmptyName? && !r.AlreadyExists? ==> r.Done?
  {
    var name := Trim(input);
    if name == [] then EmptyName
    else if FindSalad(cache, name).Some? then AlreadyExists
    else
      FilterAll(OtherThan(name), cache);
      Done(SaveSalad(cache, Salad(name, []), written))
  }

  /** `removeSalad`: the trimmed name must be in the cache; then every entry
      of that name is deleted, so the cache shrinks. */
  function RemoveSaladCommand(cache: seq<Salad>, input: string, deleted: bool): (r: Outcome<seq<Salad>>)
    ensures r.NotFound? <==> forall i :: 0 <= i < |cache| ==> !EqualsIgnoreCase(cache[i].name, Trim(input))
    ensures r.Done? ==> r.value == DeleteSalad(cache, Trim(input), deleted)
    ensures r.Done? && deleted ==> |r.value| < |cache|
    ensures r.NotFound? || r.Done?
  {
    var name := Trim(input);
    match FirstMatch(Map(SaladName, cache), name)
    case None => NotFound
    case Some(i) =>
      assert Map(SaladName, cache)[i] == cache[i].name;
      if deleted then
        FilterShrinks(OtherThan(name), cache, i);
        Done(DeleteSalad(cache, name, deleted))
      else Done(DeleteSalad(cache, name, deleted))
  }

  /** `handleAddIngredient`: the trimmed product name must be in the catalog
      and the weight must parse; then the catalog's first product of that
      name is appended with that weight, whatever its sign. */
  function AddIngredientCommand(num: NumberSyntax, catalog: seq<Product>, s: Salad, nameInput: string, weightText: string): (r: Outcome<Salad>)
    ensures r.NotFound? <==> GetProductByName(catalog, Trim(nameInput)).None?
    ensures r.BadNumber? <==> GetProductByName(catalog, Trim(nameInput)).Some? && num.parse(weightText).None?
    ensures r.Done? ==> r.value == AddIngredient(s, Ingredient(GetProductByName(catalog, Trim(nameInput)).value, num.parse(weightText).value))
    ensures r.NotFound? || r.BadNumber? || r.Done?
  {
    match GetProductByName(catalog, Trim(nameInput))
    case None => NotFound
    case Some(p) =>
      match num.parse(weightText)
      case None => BadNumber
      case Some(w) => Done(AddIngredient(s, Ingredient(p, w)))
  }

  /** A negative weight is accepted like any other. */
  lemma NegativeWeightAccepted(num: NumberSyntax, catalog: seq<Product>, s: Salad, nameInput: string, weightText: string)
    requires GetProductByName(catalog, Trim(nameInput)).Some?
    requires num.parse(weightText) == Some(-100.0)
    ensures AddIngredientCommand(num, catalog, s, nameInput, weightText).Done?
    ensures TotalWeight(AddIngredientCommand(num, catalog, s, nameInput, weightText).value) == TotalWeight(s) - 100.0
  {
    TotalsAfterAdd(w => 0.0, s, Ingredient(GetProductByName(catalog, Trim(nameInput)).value, -100.0));
  }

  /** `handleRemoveIngredient`: the first ingredient whose product name
      equals the trimmed input ignoring case is removed, and only it; with
      no such ingredient the salad is unchanged. */
  function RemoveIngredientCommand(s: Salad, input: string): (r: Outcome<Salad>)
    ensures r.NotFound? <==> forall i :: 0 <= i < |s.ingredients| ==> !EqualsIgnoreCase(s.ingredients[i].product.name, Trim(input))
    ensures r.Done? ==> exists i :: 0 <= i < |s.ingredients|
                          && EqualsIgnoreCase(s.ingredients[i].product.name, Trim(input))
                          && (forall j :: 0 <= j < i ==> !EqualsIgnoreCase(s.ingredients[j].product.name, Trim(input)))
                          && r.value == Salad(s.name, RemoveAt(s.ingredients, i))
    ensures r.NotFound? || r.Done?
  {
    var names := Map(IngredientName, s.ingredients);
    match FirstMatch(names, Trim(input))
    case None => NotFound
    case Some(i) =>
      forall j | 0 <= j < i
        ensures s.ingredients[j] != s.ingredients[i]
      {
        assert names[j] == s.ingredients[j].product.name;
      }
      RemoveFirstAt(s.ingredients, i);
      Done(RemoveIngredient(s, s.ingredients[i]))
  }
}
