/**
  The catalog editing rules of `service/ProductService`: listing by kind,
  removal guarded by the kind of the first product of the entered name, and
  the add commands, which read their numbers as written and add nothing when
  one of them does not parse. Console input arrives as the text of each line
  read; names are taken as typed, without trimming.
 */
module ProductService {
  import opened Wrappers
  import opened Text
  import opened Seqs
  import opened Products
  import opened ProductRepository
  import opened Outcomes

  function OfKind(kind: Kind): Product -> bool
  {
    (p: Product) => IsKind(p, kind)
  }

  /** `filterProductsByType`: exactly the products of that kind, in catalog order. */
  function FilterByKind(catalog: seq<Product>, kind: Kind): (r: seq<Product>)
    ensures |r| <= |catalog|
    ensures forall p :: p in r <==> p in catalog && IsKind(p, kind)
  {
    var r := Filter(OfKind(kind), catalog);
    forall p ensures p in r <==> p in catalog && IsKind(p, kind) {
      FilterMembership(OfKind(kind), catalog, p);
    }
    r
  }

  /** The listing keeps catalog order and every occurrence of a listed product. */
  lemma FilterByKindOrder(a: seq<Product>, b: seq<Product>, kind: Kind, p: Product)
    ensures FilterByKind(a + b, kind) == FilterByKind(a, kind) + FilterByKind(b, kind)
    ensures multiset(FilterByKind(a, kind))[p] == if IsKind(p, kind) then multiset(a)[p] else 0
  {
    FilterAppend(OfKind(kind), a, b);
    FilterMultiset(OfKind(kind), a, p);
  }

  /** Every product is of exactly one kind, so the three listings together
      are as long as the catalog. */
  lemma {:induction false} KindsPartition(catalog: seq<Product>)
    ensures |FilterByKind(catalog, VegetableKind)| + |FilterByKind(catalog, DressingKind)|
            + |FilterByKind(catalog, ToppingKind)| == |catalog|
  {
    if catalog != [] {
      KindsPartition(catalog[1..]);
      var p := catalog[0];
      assert catalog == [p] + catalog[1..];
      FilterCons(OfKind(VegetableKind), p, catalog[1..]);
      FilterCons(OfKind(DressingKind), p, catalog[1..]);
      FilterCons(OfKind(ToppingKind), p, catalog[1..]);
    }
  }

  /** `removeVegetable`, `removeDressing`, `removeTopping`: the catalog's first
      product of the entered name is removed when it is of the expected kind;
      otherwise nothing is removed, even when a later product of that name
      has the expected kind. The removal takes out exactly that position. */
  function RemoveOfKind(catalog: seq<Product>, name: string, kind: Kind): (r: Outcome<seq<Product>>)
    ensures r.NotFound? <==> FindIndex(catalog, name).None? || !IsKind(catalog[FindIndex(catalog, name).value], kind)
    ensures r.Done? ==> r.value == RemoveAt(catalog, FindIndex(catalog, name).value)
    ensures r.NotFound? || r.Done?
  {
    match FindIndex(catalog, name)
    case None => NotFound
    case Some(i) =>
      var p := catalog[i];
      assert GetProductByName(catalog, name) == Some(p);
      if IsKind(p, kind) then
        RemoveFound(catalog, name);
        Done(RemoveProduct(catalog, p))
      else NotFound
  }

  /** Removal takes out one product, of the expected kind, and keeps the rest in order. */
  lemma RemoveOfKindEffect(catalog: seq<Product>, name: string, kind: Kind)
    requires RemoveOfKind(catalog, name, kind).Done?
    ensures |RemoveOfKind(catalog, name, kind).value| == |catalog| - 1
    ensures |FilterByKind(RemoveOfKind(catalog, name, kind).value, kind)| == |FilterByKind(catalog, kind)| - 1
  {
    var i := FindIndex(catalog, name).value;
    FilterRemoveAt(OfKind(kind), catalog, i);
  }

  /** The vegetable menu of `addNewVegetable`: "1" root, "2" leafy,
      "3" fruiting, "4" tuber. `extra` is the variant's own number and `hard`
      the text of the root vegetable's hardness. */
  function VegetableFor(choice: string, name: string, calories: real, extra: real, hard: string): (r: Option<Product>)
    ensures r.None? <==> choice != "1" && choice != "2" && choice != "3" && choice != "4"
    ensures r.Some? ==> IsVegetable(r.value) && r.value.name == name && r.value.calories == calories
    ensures choice == "1" ==> r == Some(RootVegetable(name, calories, extra, ParseBoolean(hard)))
    ensures choice == "2" ==> r == Some(LeafyVegetable(name, calories, extra))
    ensures choice == "3" ==> r == Some(FruitingVegetable(name, calories, extra))
    ensures choice == "4" ==> r == Some(TuberVegetable(name, calories, extra))
  {
    if choice == "1" then Some(RootVegetable(name, calories, extra, ParseBoolean(hard)))
    else if choice == "2" then Some(LeafyVegetable(name, calories, extra))
    else if choice == "3" then Some(FruitingVegetable(name, calories, extra))
    else if choice == "4" then Some(TuberVegetable(name, calories, extra))
    else None
  }

  /** Menu choice "1" reads the hardness with `Boolean.parseBoolean`, so any
      text other than "true" in some case makes a soft root vegetable. */
  lemma RootHardness(name: string, calories: real, sugar: real, hard: string)
    ensures VegetableFor("1", name, calories, sugar, hard) == Some(RootVegetable(name, calories, sugar, EqualsIgnoreCase(hard, "true")))
  {
  }

  /** `addNewVegetable`: calories are parsed before the menu is shown, the
      variant's number after it; a number that does not parse or a choice
      off the menu adds nothing, otherwise the new vegetable is appended. */
  function AddVegetable(num: NumberSyntax, catalog: seq<Product>, name: string, caloriesText: string,
                        choice: string, extraText: string, hardText: string): (r: Outcome<seq<Product>>)
    ensures num.parse(caloriesText).None? ==> r == BadNumber
    ensures num.parse(caloriesText).Some? ==>
              (r.BadChoice? <==> choice != "1" && choice != "2" && choice != "3" && choice != "4")
    ensures r.Done? ==> num.parse(caloriesText).Some? && num.parse(extraText).Some?
    ensures r.Done? ==> |r.value| == |catalog| + 1 && r.value[..|catalog|] == catalog
    ensures r.Done? ==> var p := r.value[|catalog|];
              IsVegetable(p) && p.name == name && p.calories == num.parse(caloriesText).value
    ensures num.parse(caloriesText).Some? && choice in {"1", "2", "3", "4"} && num.parse(extraText).None? ==>
              r == BadNumber
    ensures num.parse(caloriesText).Some? && num.parse(extraText).Some? ==>
              match VegetableFor(choice, name, num.parse(caloriesText).value, num.parse(extraText).value, hardText)
              case Some(p) => r == Done(AddProduct(catalog, p))
              case None => r == BadChoice
    ensures r.BadNumber? || r.BadChoice? || r.Done?
  {
    match num.parse(caloriesText)
    case None => BadNumber
    case Some(calories) =>
      if choice != "1" && choice != "2" && choice != "3" && choice != "4" then BadChoice
      else
        match num.parse(extraText)
        case None => BadNumber
        case Some(extra) =>
          match VegetableFor(choice, name, calories, extra, hardText)
          case None => BadChoice
          case Some(p) => Done(AddProduct(catalog, p))
  }

  /** `addNewDressing`: the calories must parse; the base type is taken as typed. */
  function AddDressing(num: NumberSyntax, catalog: seq<Product>, name: string, caloriesText: string, baseType: string): (r: Outcome<seq<Product>>)
    ensures r.BadNumber? <==> num.parse(caloriesText).None?
    ensures r.Done? ==> |r.value| == |catalog| + 1 && r.value[..|catalog|] == catalog
    ensures r.Done? ==> r.value[|catalog|] == Dressing(name, num.parse(caloriesText).value, baseType)
    ensures r.BadNumber? || r.Done?
  {
    match num.parse(caloriesText)
    case None => BadNumber
    case Some(calories) => Done(AddProduct(catalog, Dressing(name, calories, baseType)))
  }

  /** `addNewTopping`: the calories must parse; crunchiness never fails. */
  function AddTopping(num: NumberSyntax, catalog: seq<Product>, name: string, caloriesText: string, crunchyText: string): (r: Outcome<seq<Product>>)
    ensures r.BadNumber? <==> num.parse(caloriesText).None?
    ensures r.Done? ==> |r.value| == |catalog| + 1 && r.value[..|catalog|] == catalog
    ensures r.Done? ==> r.value[|catalog|] == Topping(name, num.parse(caloriesText).value, ParseBoolean(crunchyText))
    ensures r.BadNumber? || r.Done?
  {
    match num.parse(caloriesText)
    case None => BadNumber
    case Some(calories) => Done(AddProduct(catalog, Topping(name, calories, ParseBoolean(crunchyText))))
  }

  /** A product added by a command is what a lookup of its name finds, unless
      an earlier product already has that name. */
  lemma AddedIsFound(num: NumberSyntax, catalog: seq<Product>, name: string, caloriesText: string, baseType: string)
    requires AddDressing(num, catalog, name, caloriesText, baseType).Done?
    requires GetProductByName(catalog, name).None?
    ensures GetProductByName(AddDressing(num, catalog, name, caloriesText, baseType).value, name)
              == Some(Dressing(name, num.parse(caloriesText).value, baseType))
  {
    var p := Dressing(name, num.parse(caloriesText).value, baseType);
    assert EqualsIgnoreCase(name, name);
    FindAfterAdd(catalog, p, name);
  }
}
