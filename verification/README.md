# Salad catalog and recipe store, modelled in Dafny

This project models the storage and recipe logic of a console program that keeps
a catalog of food products and a set of salad recipes. The products are root,
leafy, fruiting and tuber vegetables, dressings and toppings. The program is
written in Java. The model covers four classes:

- `ProductRepository` keeps the product catalog in a `;`-separated text file. It
  writes one tagged line per product and reads the file back. A line it cannot
  read is skipped and the rest still load.
- `SaladRepository` keeps one recipe file per salad. Each line holds a product
  name and a weight. On load, every product name is resolved against the
  catalog. The repository also keeps the loaded salads in a cache, which save
  and delete update.
- `SaladService` works on salads. It computes weight and calorie totals. It sorts
  ingredients by name, weight or calories, and sorts salads by calories; both
  sorts are stable. It finds the vegetables whose calories lie in a range. It
  also guards salad creation and removal, and adding and removing ingredients.
- `ProductService` works on the catalog. It lists products by kind, adds new
  products from typed input, and removes a product only when the first product
  of that name has the expected kind.

Every operation is a pure function on immutable values. The catalog is a
`seq<Product>` and the salad cache a `seq<Salad>`. A console command becomes a
function from the typed lines to an `Outcome`. An `Outcome` is either `Done` with
the new state or the reason the command did nothing. File contents are values:
`FileState`, `RecipeFile`, `Listing`. A write or delete that may fail is a
`written` or `deleted` flag.

The Java library calls the code relies on are modelled explicitly:

- `String.split` drops trailing empty fields (`Text.JavaSplit`).
- `String.trim` (`Text.Trim`).
- `equalsIgnoreCase` (`Text.EqualsIgnoreCase`).
- `Boolean.parseBoolean` (`Text.ParseBoolean`).
- `String.compareTo` (`Text.StringLe`).
- `lastIndexOf` (`Text.LastIndexOf`).
- `List.remove(Object)` (`Seqs.RemoveFirst`).
- The stable `List.sort` (`Sorting.SortBy`).

`Double.parseDouble` and `Double.toString` are a parameter, `NumberSyntax`.
Round-trip lemmas state the per-value facts they need about it, such as
`ExactNumber`.

Modules: `Wrappers`, `Outcomes`, `Text`, `Seqs`, `Sorting`, `Products`,
`ProductRepository`, `Salads`, `SaladRepository`, `SaladService`,
`ProductService`. Each file holds one module.

Some behaviours of the program that the model keeps as they are:

- **Missing catalog file.** A missing or unreadable catalog file leaves the
  in-memory catalog as it was. See `ProductRepository.Load`.
- **Unknown type tag.** A catalog line with an unknown tag and parseable
  calories is dropped silently. A line with too few fields, or with a number
  that does not parse, is reported; the calories are parsed before the tag is
  looked at, so an unknown tag with unparseable calories is reported too. See
  `ProductRepository.DecodeSpec` and `ProductRepository.LoadAccounting`.
- **Boolean fields.** These never fail to parse: any text other than `true`, in
  any case, reads as `false`.
- **Bad recipe weight.** A recipe line whose weight does not parse ends the
  whole file, and that salad is not loaded at all. See
  `SaladRepository.BadWeightDropsRecipe`.
- **Comma separators in typed numbers.** Only the catalog file loader accepts a
  comma as the decimal separator. Recipe weights and typed numbers are parsed
  as written.
- **Typed names.** `ProductService` does not trim product names and does not
  reject duplicates.

## Model

| member | source | states |
|---|---|---|
| Text.ParseBoolean | src/saving/ProductRepository.java:104 | a flag reads as true exactly when its text is four letters spelling "true" in any case; nothing is rejected |
| Text.ParseRenderBoolean | src/saving/ProductRepository.java:124 | a flag written as text reads back as the same flag |
| Text.Trim | src/service/SaladService.java:54 | the trimmed name is empty exactly when the input is blank, and otherwise starts and ends with a non-space |
| Text.TrimInfix | src/service/SaladService.java:54 | the trimmed name is one contiguous piece of the input, and everything dropped before and after it is a space |
| Text.FixComma | src/saving/ProductRepository.java:186 | the text keeps its length, holds no comma, and has every comma turned into a full stop and every other character kept |
| Text.CommaAsDecimalPoint | src/saving/ProductRepository.java:97-98 | a number written with a comma and the same number written with a full stop reach the parser as the same text |
| Text.FixCommaIdempotent | src/saving/ProductRepository.java:97-98 | the calories field, fixed once by the loader and again by the parse helper, is the same as fixed once |
| Text.SplitOn | src/saving/ProductRepository.java:88 | the pieces hold no separator and, joined with it, give back the line |
| Text.SplitOnJoin | src/saving/ProductRepository.java:88 | splitting separator-free fields joined by the separator gives those fields back |
| Text.DropTrailingEmpty | src/saving/ProductRepository.java:88 | the split result is a prefix of the pieces, does not end with an empty field, and only empty fields were dropped |
| Text.JavaSplitJoin | src/saving/ProductRepository.java:88 | a line of separator-free fields whose last field is not empty splits into exactly those fields |
| Text.EqualsIgnoreCaseSymmetric | src/saving/ProductRepository.java:176 | name matching ignoring case is symmetric |
| Text.EqualsIgnoreCaseTransitive | src/saving/ProductRepository.java:176 | name matching ignoring case is transitive |
| Text.StringLeTotal | src/service/SaladService.java:224 | any two product names are comparable by the name comparator |
| Text.StringLeTransitive | src/service/SaladService.java:224 | the name comparator is transitive |
| Text.StringLeAntisymmetric | src/service/SaladService.java:224 | names that compare equal both ways are the same name |
| Text.LastIndexOf | src/saving/SaladRepository.java:61 | the position is -1 exactly when the character is absent, and lies inside the text otherwise |
| Text.LastIndexOfSpec | src/saving/SaladRepository.java:61 | the position found holds the character and no later position does |
| Text.StemSpec | src/saving/SaladRepository.java:61 | the salad name is the file name up to its last full stop, and no full stop follows that one |
| Text.StemOfTxt | src/saving/SaladRepository.java:61 | the name of the file `<name>.txt` is `<name>`, even when that name contains full stops |
| Seqs.FilterMembership | src/saving/SaladRepository.java:125 | a stream filter keeps exactly the elements satisfying its test |
| Seqs.FilterAppend | src/saving/SaladRepository.java:125 | filtering keeps the relative order of the survivors |
| Seqs.FilterMultiset | src/saving/SaladRepository.java:125 | filtering keeps every occurrence of a kept element and none of a dropped one |
| Seqs.FilterIdempotent | src/saving/SaladRepository.java:143 | removing the matches a second time changes nothing |
| Seqs.RemoveFirst | src/saving/ProductRepository.java:166 | `List.remove(Object)` removes the first equal element and leaves a list without one unchanged |
| Seqs.RemoveAtMultiset | src/saving/ProductRepository.java:166 | removing a position removes exactly one occurrence of the element there |
| Seqs.SumPermutation | src/service/SaladService.java:36-38 | a total does not depend on the order of the ingredients |
| Seqs.SumAppend | src/service/SaladService.java:43-45 | the total of two lists is the sum of their totals |
| Seqs.FirstMatch | src/saving/ProductRepository.java:175-177 | none exactly when no name matches ignoring case; otherwise the first matching position, with no match before it |
| Seqs.FlatMapMembership | src/saving/SaladRepository.java:58-101 | a salad is in the combined result exactly when some listed file yields it |
| Sorting.SortBy | src/service/SaladService.java:238-239 | the sorted list is a permutation, ordered by key, and keeps elements of equal key in their original order |
| Sorting.SortedStableUnique | src/service/SaladService.java:239 | two lists that are both ordered by key and keep equal-key elements in the same order are equal, so a stable sort has one result |
| Sorting.InsertStable | src/service/SaladService.java:239 | inserting one element puts it first among its equal-key elements and disturbs no other key class |
| Sorting.InsertSorted | src/service/SaladService.java:239 | inserting into an ordered list keeps it ordered |
| Products.Fields | src/saving/ProductRepository.java:101-126 | each variant's line has the field count the loader indexes (five for a root vegetable, four otherwise), starting with tag, name and calories |
| ProductRepository.DecodeSpec | src/saving/ProductRepository.java:85-136 | a line loads exactly when it reads as a product. It is skipped as blank exactly when blank, for too few fields exactly when it splits into fewer than three, and for an unknown tag exactly when its tag is none of the six. A loaded product carries the line's fields |
| ProductRepository.TrailingEmptyFieldDropped | src/saving/ProductRepository.java:118-132 | a dressing line with an empty base type loses its fourth field in the split and is skipped as malformed |
| ProductRepository.EncodeSplits | src/saving/ProductRepository.java:53 | a product's line is not blank and splits back into its fields |
| ProductRepository.DecodeFieldsOfProduct | src/saving/ProductRepository.java:101-126 | the fields of a writable product are read back as that product |
| ProductRepository.DecodeEncode | src/saving/ProductRepository.java:85-131 | every product whose line can be written exactly is read back unchanged, for each of the six variants |
| ProductRepository.DecodeAll | src/saving/ProductRepository.java:85-131 | a load yields at most one product per line |
| ProductRepository.DecodeAllMembership | src/saving/ProductRepository.java:85-131 | the loaded products are exactly those some line reads as |
| ProductRepository.DecodeAllAppend | src/saving/ProductRepository.java:85-136 | lines are read independently and in file order: a bad line never affects the others |
| ProductRepository.LoadAccounting | src/saving/ProductRepository.java:85-136 | every line is counted exactly once: loaded, reported (too few fields or a bad field), or silently skipped (blank or unknown tag) |
| ProductRepository.Load | src/saving/ProductRepository.java:70-142 | a missing or unreadable file leaves the catalog as it was; a readable file replaces it with the products of its decodable lines, in file order and with repeats kept |
| ProductRepository.SaveLines | src/saving/ProductRepository.java:48-58 | the file holds one line per product, in catalog order, each the product's line |
| ProductRepository.SaveLoadRoundTrip | src/saving/ProductRepository.java:48-142 | loading a saved catalog of writable products gives back that catalog, in order |
| ProductRepository.SaveIdempotent | src/saving/ProductRepository.java:48-58 | saving what was just loaded from a save writes the same file again |
| ProductRepository.AddProduct | src/saving/ProductRepository.java:155-159 | the product is appended and the rest is kept in order |
| ProductRepository.RemoveProduct | src/saving/ProductRepository.java:164-168 | the first equal product is removed; an absent product leaves the catalog unchanged |
| ProductRepository.AddRemoveInverse | src/saving/ProductRepository.java:155-168 | removing a product just added to a catalog without it restores the catalog |
| ProductRepository.FindIndex | src/saving/ProductRepository.java:173-178 | the position of the first product whose name matches ignoring case, or none exactly when no name matches |
| ProductRepository.GetProductByName | src/saving/ProductRepository.java:173-178 | none exactly when no name matches ignoring case; otherwise a product of the catalog |
| ProductRepository.RemoveFound | src/saving/ProductRepository.java:164-178 | removing the product found by name removes exactly the position of the first match |
| ProductRepository.FindAfterAdd | src/saving/ProductRepository.java:155-178 | after an add, a lookup finds what it found before, or the new product when nothing matched before |
| Salads.AddIngredient | src/service/SaladService.java:265-266 | the ingredient is appended, the name and the earlier ingredients are kept |
| Salads.RemoveIngredient | src/service/SaladService.java:292 | the name is kept; an absent ingredient changes nothing; a present one loses its first occurrence and the other ingredients keep their order |
| SaladRepository.Resolve | src/saving/SaladRepository.java:81-91 | an entry gives one ingredient exactly when the catalog has a product of that name, holding the first such product and the weight; otherwise none |
| SaladRepository.ParseRecipeFails | src/saving/SaladRepository.java:66-100 | a recipe fails to load exactly when one of its lines has two fields and a weight that does not parse |
| SaladRepository.ParseRecipeAppend | src/saving/SaladRepository.java:66-92 | recipe lines are read in file order; a bad weight anywhere drops the recipe |
| SaladRepository.ParseRecipeMembership | src/saving/SaladRepository.java:66-92 | a loaded recipe holds exactly the ingredients its lines name with a known product |
| SaladRepository.TxtStem | src/saving/SaladRepository.java:53-61 | a `.txt` file name is its salad name followed by `.txt` |
| SaladRepository.LoadRecipe | src/saving/SaladRepository.java:58-100 | a file yields a salad exactly when it is readable and no weight fails; the salad's file is `<name>.txt` and its ingredients are those its lines resolve to, in file order |
| SaladRepository.LoadAllSalads | src/saving/SaladRepository.java:46-108 | a directory that cannot be walked leaves the cache empty; otherwise the cache holds the recipes of the listed `.txt` files that load, in listing order |
| SaladRepository.LoadFilesMembership | src/saving/SaladRepository.java:50-101 | the cache holds exactly the salads of the listed `.txt` files that load |
| SaladRepository.LoadFilesAppend | src/saving/SaladRepository.java:58-101 | files are loaded independently and in listing order |
| SaladRepository.BadWeightDropsRecipe | src/saving/SaladRepository.java:79-100 | a file with a bad weight contributes nothing: the cache is as if the file were absent |
| SaladRepository.RecipeLines | src/saving/SaladRepository.java:116-121 | one line per ingredient, in order, each `name;weight` |
| SaladRepository.RecipeLineRoundTrip | src/saving/SaladRepository.java:71-79 | a written recipe line reads back as the ingredient's product name and weight |
| SaladRepository.ParseRecipeEntries | src/saving/SaladRepository.java:66-92 | lines that each read as the entry of a known ingredient load as exactly those ingredients |
| SaladRepository.ParseRecipeLines | src/saving/SaladRepository.java:116-121 | the lines written for a salad of restorable ingredients load as the same ingredients |
| SaladRepository.SaveLoadRecipe | src/saving/SaladRepository.java:113-132 | a saved salad whose ingredients can be restored is loaded back from its file unchanged |
| SaladRepository.SaveSalad | src/saving/SaladRepository.java:123-126 | a failed write leaves the cache unchanged; a successful one ends it with the saved salad |
| SaladRepository.SaveSaladUnique | src/saving/SaladRepository.java:125-126 | after a save, no other cached salad has the saved name ignoring case |
| SaladRepository.SaveSaladOthers | src/saving/SaladRepository.java:125-126 | a save keeps every salad of another name, in order, and drops all of the same name |
| SaladRepository.DeleteSalad | src/saving/SaladRepository.java:141-143 | a failed delete leaves the cache unchanged; otherwise exactly the salads of other names remain, in their order and with repeats kept |
| SaladRepository.DeleteIdempotent | src/saving/SaladRepository.java:143 | deleting twice is the same as deleting once |
| SaladRepository.DeleteAbsent | src/saving/SaladRepository.java:143 | deleting a name nobody has changes nothing |
| SaladRepository.FindSalad | src/saving/SaladRepository.java:156-160 | none exactly when no cached name matches ignoring case; otherwise a cached salad |
| SaladRepository.FindAfterSave | src/saving/SaladRepository.java:125-126 | a saved salad is what a lookup of its name finds |
| SaladRepository.FindAfterDelete | src/saving/SaladRepository.java:143 | after a delete, a lookup of that name finds nothing |
| SaladRepository.FindAfterSaveOther | src/saving/SaladRepository.java:125-126 | saving one salad does not change the lookup of any other name |
| SaladRepository.FindFilterOther | src/saving/SaladRepository.java:125 | dropping the salads of one name does not change the lookup of another |
| SaladService.TotalWeight | src/service/SaladService.java:41-46 | an empty salad weighs nothing |
| SaladService.TotalCalories | src/service/SaladService.java:34-39 | an empty salad has no calories |
| SaladService.TotalsAfterAdd | src/service/SaladService.java:34-46 | adding an ingredient raises both totals by that ingredient's share |
| SaladService.TotalsAfterRemove | src/service/SaladService.java:34-46 | removing a present ingredient lowers both totals by that ingredient's share |
| SaladService.ChooseOrder | src/service/SaladService.java:222-236 | "1" sorts by name, "2" by weight, "3" by calories; any other choice gives no order |
| SaladService.SortIngredients | src/service/SaladService.java:222-239 | the sorted ingredients are a permutation, ascending by name, weight or calories, and keep ties in their recipe order |
| SaladService.SortIngredientsUnique | src/service/SaladService.java:238-239 | any ordered, tie-preserving arrangement of the ingredients is the one the sort returns |
| SaladService.SortKeepsTotals | src/service/SaladService.java:238-239 | sorting changes neither total |
| SaladService.EqualWeightsKeepOrder | src/service/SaladService.java:227 | two ingredients of equal weight stay in their order |
| SaladService.SortIngredientsCommand | src/service/SaladService.java:201-239 | not found exactly when no salad has the trimmed name; a bad choice exactly when the salad exists but the choice is off the menu; otherwise the sorted ingredients |
| SaladService.SortSaladsByCalories | src/service/SaladService.java:304-312 | the salads are a permutation, ascending by total calories, and keep salads of equal calories in their order |
| SaladService.VegetablesInRange | src/service/SaladService.java:346-352 | exactly the vegetable ingredients whose calories per 100 g lie within both bounds |
| SaladService.VegetablesInRangeOrder | src/service/SaladService.java:346-352 | the result keeps recipe order and every occurrence of a selected ingredient |
| SaladService.VegetablesInRangeIdempotent | src/service/SaladService.java:346-352 | filtering the result again changes nothing |
| SaladService.RangeExample | src/service/SaladService.java:346-352 | an example on one concrete salad, not a general property: vegetables of 10, 25, 40 and 60 kcal and a topping of 30 kcal, filtered to 20..50 kcal, leave the 25 and 40 kcal vegetables in recipe order; the topping is dropped though in range |
| SaladService.FindVegetablesCommand | src/service/SaladService.java:326-352 | not found exactly when no salad has the trimmed name; a bad number exactly when the salad exists and a bound does not parse; otherwise the vegetables in range |
| SaladService.CreateSalad | src/service/SaladService.java:51-68 | rejected as empty exactly when the input is blank, and as existing exactly when a salad has the trimmed name; otherwise an empty salad of the trimmed name is appended |
| SaladService.RemoveSaladCommand | src/service/SaladService.java:101-115 | not found exactly when no salad has the trimmed name; otherwise the delete runs, and a successful delete shrinks the cache |
| SaladService.AddIngredientCommand | src/service/SaladService.java:247-270 | not found exactly when the catalog has no product of the trimmed name; a bad number exactly when it does but the weight does not parse; otherwise that product is appended with the weight |
| SaladService.NegativeWeightAccepted | src/service/SaladService.java:262-266 | a negative weight is accepted and lowers the total weight |
| SaladService.RemoveIngredientCommand | src/service/SaladService.java:278-292 | not found exactly when no ingredient's product has the trimmed name; otherwise the first such ingredient is removed, by position |
| ProductService.FilterByKind | src/service/ProductService.java:30-35 | exactly the products of the requested kind |
| ProductService.FilterByKindOrder | src/service/ProductService.java:30-35 | the listing keeps catalog order and every occurrence |
| ProductService.KindsPartition | src/service/ProductService.java:30-35 | the vegetable, dressing and topping listings together are as long as the catalog |
| ProductService.RemoveOfKind | src/service/ProductService.java:211-269 | not found exactly when no product matches the name or the first match has another kind, even if a later match has the right kind; otherwise exactly that position is removed |
| ProductService.RemoveOfKindEffect | src/service/ProductService.java:219-222 | a removal shortens the catalog and the listing of that kind by one |
| ProductService.VegetableFor | src/service/ProductService.java:64-95 | "1" builds a root vegetable with the typed sugar and the hardness read by parseBoolean, "2" a leafy one with the fibre, "3" a fruiting one with the water content, "4" a tuber with the starch; any other choice builds nothing |
| ProductService.RootHardness | src/service/ProductService.java:69 | a root vegetable is hard exactly when the typed text is "true" ignoring case |
| ProductService.AddVegetable | src/service/ProductService.java:39-112 | calories that do not parse add nothing. After that, a choice off the menu adds nothing. With a menu choice, a variant number that does not parse adds nothing, and one that parses appends exactly the vegetable the menu builds |
| ProductService.AddDressing | src/service/ProductService.java:114-136 | nothing is added exactly when the calories do not parse; otherwise the dressing with the typed base is appended |
| ProductService.AddTopping | src/service/ProductService.java:138-160 | nothing is added exactly when the calories do not parse; otherwise the topping is appended, crunchy when the text reads as true |
| ProductService.AddedIsFound | src/service/ProductService.java:127-129 | a dressing added under a new name is what a lookup of that name finds |

## Left out

- Console input and output are not modelled: `Scanner`, `System.out`, `System.err` and the logger. Typed lines are parameters, and the messages are not part of any result.
- The interactive commands that only print are not modelled: `viewSalads`, `viewSaladRecipe` and the `view*` listings of `ProductService`. The listings' filtering is modelled as `ProductService.FilterByKind`.
- The menu loop of `handleEditLoop` is not modelled. Its three actions are: "1" is `SaladService.AddIngredientCommand`, "2" is `SaladService.RemoveIngredientCommand`, and "0" saves through `SaladRepository.SaveSalad`.
- File system calls become values:
  - `Files.exists` and `Files.readAllLines` on the catalog become `FileState`.
  - `Files.walk` becomes `Listing`, the list of files it yields.
  - `Files.write` and `Files.deleteIfExists` become the `written` and `deleted` flags.
  - Directory creation in the constructors is left out.
  - The walk's recursion into subdirectories and the `isRegularFile` filter are inside `Listing`.
- Persisting the catalog after an add or remove is left out. `saveToFile` is modelled as `SaveLines`, and its I/O failure only prints.
- `Double.parseDouble` and `Double.toString` are parameters (`NumberSyntax`). Calories and weights are exact reals, so floating-point rounding in the totals is not modelled.
- `SaladService.TotalCalories`: the calories of one ingredient are a parameter `kcal`. `SaladIngredient`, `Salad`, `IProduct` and the product classes are not part of this model. The model assumes `toTxtLine` writes the fields the loader reads, in that order (`Products.Fields`).
- `SaladService.TotalWeight`: stated only for the empty salad and by its change under add and remove (`TotalsAfterAdd`, `TotalsAfterRemove`), not as a closed formula.
- `Text.EqualsIgnoreCase`: case folding covers ASCII and the basic Cyrillic letters, not all of Unicode.
- `Text.StringLe`: compares characters by code point rather than UTF-16 code units. The two agree outside the supplementary planes.
- The `getAll*` methods return copies of the lists. On immutable values a copy is the list itself.
- In the program, the salad being edited is the object held in the cache. Here an edit returns a new `Salad` value, and the caller saves it.
- The `catch (Exception e)` branches in `addNewVegetable` and `handleAddIngredient` are not modelled: nothing in their `try` blocks throws any other exception on valid input.
- ProductRepository.SaveLoadRoundTrip and SaladRepository.SaveLoadRecipe cover only one-line names, bases and numbers (`Text.OneLine` inside `Products.Encodable` and `SaladRepository.Restorable`). A name holding `\n` or `\r` is written as one list entry but read back as several lines, and the product or ingredient is lost. The console cannot produce such a name, since `Scanner.nextLine` stops at the line end.
- `null` lines and names are not modelled. `String` values are never null here.
- SaladRepository.SaveLoadRecipe: assumes a salad name is a plain file name. A name holding a path separator makes `Paths.get` write into a subdirectory or fail, and the walk would then reload the salad under its last path segment; file paths are not modelled.
- SaladRepository.DeleteSalad: `deleteSalad` deletes the file `<typed name>.txt` exactly as typed but drops cache entries whose names match ignoring case. On a case-sensitive file system a differently cased file stays on disk. The model keeps only the `deleted` flag of the file deletion and so does not show this mismatch.
- SaladRepository.SaveSalad: `saveSalad` writes `<name>.txt` with the name exactly as given but drops cache entries whose names match ignoring case. Saving "caesar" over a cached "Caesar" leaves both files on a case-sensitive file system, and the next `loadAllSalads` returns both salads, so `SaveSaladUnique` holds for the cache but not across a reload. The model keeps only the `written` flag and does not show this.
