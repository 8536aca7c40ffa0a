/**
  The recipe store (`saving/SaladRepository`): one text file per salad with
  one `product;weight` line per ingredient, read back against the product
  catalog, and the in-memory cache of salads kept beside the files.
 */
module SaladRepository {
  import opened Wrappers
  import opened Text
  import opened Seqs
  import opened Products
  import opened ProductRepository
  import opened Salads

  /** A regular file found in the recipe directory: its name and what reading it gives. */
  datatype RecipeFile = RecipeFile(fileName: string, content: FileState)

  /** Walking the recipe directory either fails or lists its regular files. */
  datatype Listing = ListingFailed | Listed(files: seq<RecipeFile>)

  /** What one recipe line is: blank, not two fields (reported and passed
      over), two fields with a weight that does not parse (which ends the
      whole file), or a product name and a weight. */
  datatype RecipeLine = BlankRecipeLine | WrongFieldCount | BadWeight | Entry(productName: string, weight: real)

  /** One iteration of the per-file loop. The weight is parsed as written:
      no comma is turned into a full stop here. */
  function ClassifyRecipeLine(num: NumberSyntax, line: string): RecipeLine
  {
    if IsBlank(line) then BlankRecipeLine
    else
      var parts := JavaSplit(line, ';');
      if |parts| != 2 then WrongFieldCount
      else
        match num.parse(parts[1])
        case None => BadWeight
        case Some(w) => Entry(parts[0], w)
  }

  /** The ingredient a recipe entry resolves to: the catalog's first product
      of that name, or nothing when the catalog has none. */
  function Resolve(catalog: seq<Product>, productName: string, weight: real): (r: seq<Ingredient>)
    ensures |r| <= 1
    ensures r != [] <==> GetProductByName(catalog, productName).Some?
    ensures r != [] ==> r[0] == Ingredient(GetProductByName(catalog, productName).value, weight)
  {
    match GetProductByName(catalog, productName)
    case None => []
    case Some(p) => [Ingredient(p, weight)]
  }

  /** Every line of a recipe file, classified, in file order. */
  function ClassifyRecipe(num: NumberSyntax, lines: seq<string>): (entries: seq<RecipeLine>)
    ensures |entries| == |lines|
    ensures forall i :: 0 <= i < |lines| ==> entries[i] == ClassifyRecipeLine(num, lines[i])
  {
    seq(|lines|, i requires 0 <= i < |lines| => ClassifyRecipeLine(num, lines[i]))
  }

  /** The ingredients of classified recipe lines, or none when a weight does
      not parse: that exception leaves the loop and the salad is never added. */
  function ReadEntries(catalog: seq<Product>, entries: seq<RecipeLine>): Option<seq<Ingredient>>
  {
    if entries == [] then Some([])
    else
      match entries[0]
      case BadWeight => None
      case Entry(name, w) =>
        (match ReadEntries(catalog, entries[1..])
         case None => None
         case Some(rest) => Some(Resolve(catalog, name, w) + rest))
      case _ => ReadEntries(catalog, entries[1..])
  }

  /** The ingredients of one recipe file, or none when a weight does not parse. */
  function ParseRecipe(num: NumberSyntax, catalog: seq<Product>, lines: seq<string>): Option<seq<Ingredient>>
  {
    ReadEntries(catalog, ClassifyRecipe(num, lines))
  }

  lemma {:induction false} ReadEntriesFails(catalog: seq<Product>, entries: seq<RecipeLine>)
    ensures ReadEntries(catalog, entries).None? <==> exists i :: 0 <= i < |entries| && entries[i].BadWeight?
  {
    if entries != [] {
      ReadEntriesFails(catalog, entries[1..]);
      if exists i :: 0 <= i < |entries[1..]| && entries[1..][i].BadWeight? {
        var i :| 0 <= i < |entries[1..]| && entries[1..][i].BadWeight?;
        assert entries[i + 1] == entries[1..][i];
      }
      if exists i :: 0 <= i < |entries| && entries[i].BadWeight? {
        var i :| 0 <= i < |entries| && entries[i].BadWeight?;
        if i > 0 {
          assert entries[1..][i - 1] == entries[i];
        }
      }
    }
  }

  /** A recipe is dropped exactly when one of its lines has a weight that does not parse. */
  lemma ParseRecipeFails(num: NumberSyntax, catalog: seq<Product>, lines: seq<string>)
    ensures ParseRecipe(num, catalog, lines).None? <==>
              exists i :: 0 <= i < |lines| && ClassifyRecipeLine(num, lines[i]) == BadWeight
  {
    var entries := ClassifyRecipe(num, lines);
    ReadEntriesFails(catalog, entries);
    if exists i :: 0 <= i < |entries| && entries[i].BadWeight? {
      var i :| 0 <= i < |entries| && entries[i].BadWeight?;
      assert ClassifyRecipeLine(num, lines[i]) == BadWeight;
    }
  }

  lemma {:induction false} ReadEntriesAppend(catalog: seq<Product>, a: seq<RecipeLine>, b: seq<RecipeLine>)
    ensures ReadEntries(catalog, a + b) ==
              if ReadEntries(catalog, a).Some? && ReadEntries(catalog, b).Some?
              then Some(ReadEntries(catalog, a).value + ReadEntries(catalog, b).value)
              else None
  {
    if a == [] {
      assert a + b == b;
      if ReadEntries(catalog, b).Some? {
        assert [] + ReadEntries(catalog, b).value == ReadEntries(catalog, b).value;
      }
    } else {
      ReadEntriesAppend(catalog, a[1..], b);
      assert (a + b)[0] == a[0] && (a + b)[1..] == a[1..] + b;
      match a[0]
      case BadWeight =>
      case Entry(name, w) =>
        if ReadEntries(catalog, a[1..]).Some? && ReadEntries(catalog, b).Some? {
          var r := Resolve(catalog, name, w);
          assert r + (ReadEntries(catalog, a[1..]).value + ReadEntries(catalog, b).value)
              == (r + ReadEntries(catalog, a[1..]).value) + ReadEntries(catalog, b).value;
        }
      case _ =>
    }
  }

  /** Recipe lines are read in file order: the ingredients of two stretches
      of lines are those of the first followed by those of the second, and a
      bad weight in either drops the whole recipe. */
  lemma ParseRecipeAppend(num: NumberSyntax, catalog: seq<Product>, a: seq<string>, b: seq<string>)
    ensures ParseRecipe(num, catalog, a + b) ==
              if ParseRecipe(num, catalog, a).Some? && ParseRecipe(num, catalog, b).Some?
              then Some(ParseRecipe(num, catalog, a).value + ParseRecipe(num, catalog, b).value)
              else None
  {
    var ca, cb, cab := ClassifyRecipe(num, a), ClassifyRecipe(num, b), ClassifyRecipe(num, a + b);
    forall i | 0 <= i < |cab|
      ensures cab[i] == (ca + cb)[i]
    {
      if i < |a| {
        assert (a + b)[i] == a[i];
      } else {
        assert (a + b)[i] == b[i - |a|];
      }
    }
    assert cab == ca + cb;
    ReadEntriesAppend(catalog, ca, cb);
  }

  /** Classified line `entry` contributes ingredient `ing`: it names a
      product the catalog finds, with `ing`'s weight. */
  predicate EntryYields(catalog: seq<Product>, entry: RecipeLine, ing: Ingredient)
  {
    entry.Entry? && entry.weight == ing.weight
    && GetProductByName(catalog, entry.productName) == Some(ing.product)
  }

  /** Line `line` contributes ingredient `ing`. */
  predicate Yields(num: NumberSyntax, catalog: seq<Product>, line: string, ing: Ingredient)
  {
    EntryYields(catalog, ClassifyRecipeLine(num, line), ing)
  }

  /** What the first classified line adds in front of the rest. */
  lemma ReadEntriesCons(catalog: seq<Product>, entries: seq<RecipeLine>, ing: Ingredient)
    requires entries != [] && ReadEntries(catalog, entries).Some?
    ensures ReadEntries(catalog, entries[1..]).Some?
    ensures ing in ReadEntries(catalog, entries).value <==>
              EntryYields(catalog, entries[0], ing) || ing in ReadEntries(catalog, entries[1..]).value
  {
    match entries[0]
    case Entry(name, w) =>
      var head := Resolve(catalog, name, w);
      assert ReadEntries(catalog, entries).value == head + ReadEntries(catalog, entries[1..]).value;
      assert ing in head <==> EntryYields(catalog, entries[0], ing);
    case _ =>
  }

  lemma {:induction false} ReadEntriesMembership(catalog: seq<Product>, entries: seq<RecipeLine>, ing: Ingredient)
    requires ReadEntries(catalog, entries).Some?
    ensures ing in ReadEntries(catalog, entries).value <==>
              exists i :: 0 <= i < |entries| && EntryYields(catalog, entries[i], ing)
  {
    if entries != [] {
      ReadEntriesCons(catalog, entries, ing);
      ReadEntriesMembership(catalog, entries[1..], ing);
      if exists i :: 0 <= i < |entries| && EntryYields(catalog, entries[i], ing) {
        var i :| 0 <= i < |entries| && EntryYields(catalog, entries[i], ing);
        if i > 0 {
          assert entries[1..][i - 1] == entries[i];
        }
      }
      if exists i :: 0 <= i < |entries[1..]| && EntryYields(catalog, entries[1..][i], ing) {
        var i :| 0 <= i < |entries[1..]| && EntryYields(catalog, entries[1..][i], ing);
        assert entries[i + 1] == entries[1..][i];
      }
    }
  }

  /** A loaded recipe holds exactly the ingredients its lines yield: lines of
      unknown products are dropped and the rest are kept. */
  lemma ParseRecipeMembership(num: NumberSyntax, catalog: seq<Product>, lines: seq<string>, ing: Ingredient)
    requires ParseRecipe(num, catalog, lines).Some?
    ensures ing in ParseRecipe(num, catalog, lines).value <==>
              exists i :: 0 <= i < |lines| && Yields(num, catalog, lines[i], ing)
  {
    var entries := ClassifyRecipe(num, lines);
    ReadEntriesMembership(catalog, entries, ing);
    if exists i :: 0 <= i < |entries| && EntryYields(catalog, entries[i], ing) {
      var i :| 0 <= i < |entries| && EntryYields(catalog, entries[i], ing);
      assert Yields(num, catalog, lines[i], ing);
    }
    if exists i :: 0 <= i < |lines| && Yields(num, catalog, lines[i], ing) {
      var i :| 0 <= i < |lines| && Yields(num, catalog, lines[i], ing);
      assert EntryYields(catalog, entries[i], ing);
    }
  }

  /** The stem of a `.txt` file name is the name without its extension. */
  lemma TxtStem(fileName: string)
    requires EndsWith(fileName, ".txt")
    ensures '.' in fileName
    ensures fileName == Stem(fileName) + ".txt"
  {
    var n := |fileName|;
    assert fileName[n - 4..] == ".txt";
    assert fileName[n - 4] == '.' && fileName[n - 3] == 't' && fileName[n - 2] == 'x' && fileName[n - 1] == 't';
    StemSpec(fileName);
    var stem := Stem(fileName);
    assert |stem| == n - 4;
    assert fileName == fileName[..n - 4] + fileName[n - 4..];
  }

  /** One recipe file: the salad named after the file's stem, or none when
      the file cannot be read or holds a bad weight. */
  function LoadRecipe(num: NumberSyntax, catalog: seq<Product>, f: RecipeFile): (r: Option<Salad>)
    requires EndsWith(f.fileName, ".txt")
    ensures r.Some? <==> f.content.Readable? && ParseRecipe(num, catalog, f.content.lines).Some?
    ensures r.Some? ==> f.fileName == r.value.name + ".txt"
    ensures r.Some? ==> r.value.ingredients == ParseRecipe(num, catalog, f.content.lines).value
  {
    TxtStem(f.fileName);
    match f.content
    case Readable(lines) =>
      (match ParseRecipe(num, catalog, lines)
       case None => None
       case Some(ings) => Some(Salad(Stem(f.fileName), ings)))
    case _ => None
  }

  /** The salads one listed file adds to the cache: none for a file that is
      not a `.txt` file or does not load, else its recipe. */
  function FileSalads(num: NumberSyntax, catalog: seq<Product>): RecipeFile -> seq<Salad>
  {
    (f: RecipeFile) =>
      if EndsWith(f.fileName, ".txt") then
        match LoadRecipe(num, catalog, f)
        case None => []
        case Some(s) => [s]
      else []
  }

  /** The loop over the listed files: every `.txt` file is read on its own
      and a failing one never stops the rest. */
  function LoadFiles(num: NumberSyntax, catalog: seq<Product>, files: seq<RecipeFile>): seq<Salad>
  {
    FlatMap(FileSalads(num, catalog), files)
  }

  /** `loadAllSalads`: the cache is cleared, then holds the recipes of the
      listed `.txt` files that load, in listing order; a failing walk leaves
      it empty. */
  function LoadAllSalads(num: NumberSyntax, catalog: seq<Product>, listing: Listing): (r: seq<Salad>)
    ensures listing.ListingFailed? ==> r == []
    ensures listing.Listed? ==> r == LoadFiles(num, catalog, listing.files)
  {
    match listing
    case ListingFailed => []
    case Listed(files) => LoadFiles(num, catalog, files)
  }

  /** The cache holds exactly the salads of the `.txt` files that load. */
  lemma LoadFilesMembership(num: NumberSyntax, catalog: seq<Product>, files: seq<RecipeFile>, s: Salad)
    ensures s in LoadFiles(num, catalog, files) <==>
              exists i :: 0 <= i < |files| && EndsWith(files[i].fileName, ".txt")
                          && LoadRecipe(num, catalog, files[i]) == Some(s)
  {
    FlatMapMembership(FileSalads(num, catalog), files, s);
  }

  /** Files are loaded in listing order. */
  lemma LoadFilesAppend(num: NumberSyntax, catalog: seq<Product>, a: seq<RecipeFile>, b: seq<RecipeFile>)
    ensures LoadFiles(num, catalog, a + b) == LoadFiles(num, catalog, a) + LoadFiles(num, catalog, b)
  {
    FlatMapAppend(FileSalads(num, catalog), a, b);
  }

  /** A recipe file with a bad weight contributes nothing: the cache is what
      it would be without that file. */
  lemma BadWeightDropsRecipe(num: NumberSyntax, catalog: seq<Product>, a: seq<RecipeFile>, f: RecipeFile, b: seq<RecipeFile>, i: nat)
    requires f.content.Readable? && i < |f.content.lines|
    requires ClassifyRecipeLine(num, f.content.lines[i]) == BadWeight
    ensures LoadFiles(num, catalog, a + [f] + b) == LoadFiles(num, catalog, a + b)
  {
    var load := FileSalads(num, catalog);
    ParseRecipeFails(num, catalog, f.content.lines);
    assert load(f) == [];
    assert FlatMap(load, [f]) == [] by {
      assert [f][1..] == [];
    }
    FlatMapAppend(load, a + [f], b);
    FlatMapAppend(load, a, [f]);
    FlatMapAppend(load, a, b);
    assert FlatMap(load, a) + [] == FlatMap(load, a);
  }

  /** The file a salad is saved to. */
  function RecipeFileName(name: string): string
  {
    name + ".txt"
  }

  /** The line `saveSalad` writes for an ingredient: product name, `;`, weight. */
  function RecipeLineOf(num: NumberSyntax, ing: Ingredient): string
  {
    Join([ing.product.name, num.render(ing.weight)], ';')
  }

  /** The lines of a salad's recipe file, one per ingredient in order. */
  function RecipeLines(num: NumberSyntax, s: Salad): (lines: seq<string>)
    ensures |lines| == |s.ingredients|
    ensures forall i :: 0 <= i < |lines| ==> lines[i] == RecipeLineOf(num, s.ingredients[i])
  {
    seq(|s.ingredients|, i requires 0 <= i < |s.ingredients| => RecipeLineOf(num, s.ingredients[i]))
  }

  /** `w` is written as a non-empty text free of `;` that parses back to `w`. */
  predicate ExactWeight(num: NumberSyntax, w: real)
  {
    var t := num.render(w);
    t != [] && ';' !in t && OneLine(t) && num.parse(t) == Some(w)
  }

  /** An ingredient whose saved line reads back as itself: its product name
      is one line without `;`, its weight renders exactly, and the catalog's first product
      of that name is its product. */
  predicate Restorable(num: NumberSyntax, catalog: seq<Product>, ing: Ingredient)
  {
    ';' !in ing.product.name && OneLine(ing.product.name) && ExactWeight(num, ing.weight)
    && GetProductByName(catalog, ing.product.name) == Some(ing.product)
  }

  lemma RecipeLineRoundTrip(num: NumberSyntax, catalog: seq<Product>, ing: Ingredient)
    requires Restorable(num, catalog, ing)
    ensures ClassifyRecipeLine(num, RecipeLineOf(num, ing)) == Entry(ing.product.name, ing.weight)
  {
    var fields := [ing.product.name, num.render(ing.weight)];
    var line := RecipeLineOf(num, ing);
    JavaSplitJoin(fields, ';');
    assert line[|ing.product.name|] == ';';
    assert !IsSpace(';');
  }

  /** Classified line `entry` names `ing`'s product, which the catalog finds
      first under that name, with `ing`'s weight. */
  predicate EntryOf(catalog: seq<Product>, entry: RecipeLine, ing: Ingredient)
  {
    entry == Entry(ing.product.name, ing.weight)
    && GetProductByName(catalog, ing.product.name) == Some(ing.product)
  }

  /** Entries that each name their ingredient read as exactly those ingredients. */
  lemma {:induction false} ReadEntriesOf(catalog: seq<Product>, entries: seq<RecipeLine>, ings: seq<Ingredient>)
    requires |entries| == |ings|
    requires forall i :: 0 <= i < |entries| ==> EntryOf(catalog, entries[i], ings[i])
    ensures ReadEntries(catalog, entries) == Some(ings)
  {
    if entries != [] {
      EntriesOfTail(catalog, entries, ings);
      ReadEntriesOf(catalog, entries[1..], ings[1..]);
      ReadEntriesHead(catalog, entries, ings[0]);
      assert [ings[0]] + ings[1..] == ings;
    }
  }

  lemma EntriesOfTail(catalog: seq<Product>, entries: seq<RecipeLine>, ings: seq<Ingredient>)
    requires |entries| == |ings| && entries != []
    requires forall i :: 0 <= i < |entries| ==> EntryOf(catalog, entries[i], ings[i])
    ensures forall i :: 0 <= i < |entries[1..]| ==> EntryOf(catalog, entries[1..][i], ings[1..][i])
  {
    forall i | 0 <= i < |entries[1..]|
      ensures EntryOf(catalog, entries[1..][i], ings[1..][i])
    {
      assert entries[1..][i] == entries[i + 1] && ings[1..][i] == ings[i + 1];
    }
  }

  /** An entry naming `ing` puts `ing` in front of what the rest reads as. */
  lemma ReadEntriesHead(catalog: seq<Product>, entries: seq<RecipeLine>, ing: Ingredient)
    requires entries != [] && EntryOf(catalog, entries[0], ing)
    requires ReadEntries(catalog, entries[1..]).Some?
    ensures ReadEntries(catalog, entries) == Some([ing] + ReadEntries(catalog, entries[1..]).value)
  {
    assert Resolve(catalog, ing.product.name, ing.weight) == [ing];
  }

  /** A recipe whose every line is an entry naming its ingredient's product
      reads as those ingredients. */
  lemma ParseRecipeEntries(num: NumberSyntax, catalog: seq<Product>, lines: seq<string>, ings: seq<Ingredient>)
    requires |lines| == |ings|
    requires forall i :: 0 <= i < |lines| ==>
               ClassifyRecipeLine(num, lines[i]) == Entry(ings[i].product.name, ings[i].weight)
               && GetProductByName(catalog, ings[i].product.name) == Some(ings[i].product)
    ensures ParseRecipe(num, catalog, lines) == Some(ings)
  {
    var entries := ClassifyRecipe(num, lines);
    forall i | 0 <= i < |entries|
      ensures EntryOf(catalog, entries[i], ings[i])
    {
    }
    ReadEntriesOf(catalog, entries, ings);
  }

  lemma ParseRecipeLines(num: NumberSyntax, catalog: seq<Product>, ings: seq<Ingredient>, name: string)
    requires forall i :: 0 <= i < |ings| ==> Restorable(num, catalog, ings[i])
    ensures ParseRecipe(num, catalog, RecipeLines(num, Salad(name, ings))) == Some(ings)
  {
    var lines := RecipeLines(num, Salad(name, ings));
    forall i | 0 <= i < |lines|
      ensures ClassifyRecipeLine(num, lines[i]) == Entry(ings[i].product.name, ings[i].weight)
    {
      RecipeLineRoundTrip(num, catalog, ings[i]);
    }
    ParseRecipeEntries(num, catalog, lines, ings);
  }

  /** Loading the file `saveSalad` writes gives back the salad, when every
      ingredient is restorable. */
  lemma SaveLoadRecipe(num: NumberSyntax, catalog: seq<Product>, s: Salad)
    requires forall i :: 0 <= i < |s.ingredients| ==> Restorable(num, catalog, s.ingredients[i])
    ensures EndsWith(RecipeFileName(s.name), ".txt")
    ensures LoadRecipe(num, catalog, RecipeFile(RecipeFileName(s.name), Readable(RecipeLines(num, s)))) == Some(s)
  {
    ParseRecipeLines(num, catalog, s.ingredients, s.name);
    assert RecipeLines(num, s) == RecipeLines(num, Salad(s.name, s.ingredients));
    StemOfTxt(s.name);
    var f := RecipeFileName(s.name);
    assert f[|f| - 4..] == ".txt";
  }

  /** Cache entries whose name differs from `name` ignoring case. */
  function OtherThan(name: string): Salad -> bool
  {
    (s: Salad) => !EqualsIgnoreCase(s.name, name)
  }

  /** `saveSalad`: when the file is written, every entry named like `s` is
      removed and `s` is appended; when writing fails the cache is unchanged. */
  function SaveSalad(cache: seq<Salad>, s: Salad, written: bool): (r: seq<Salad>)
    ensures !written ==> r == cache
    ensures written ==> |r| >= 1 && r[|r| - 1] == s
  {
    if written then Filter(OtherThan(s.name), cache) + [s] else cache
  }

  /** After a save the cache has exactly one entry named like `s`: `s`
      itself, in last place. */
  lemma SaveSaladUnique(cache: seq<Salad>, s: Salad, i: nat)
    requires i < |SaveSalad(cache, s, true)|
    requires EqualsIgnoreCase(SaveSalad(cache, s, true)[i].name, s.name)
    ensures i == |SaveSalad(cache, s, true)| - 1
  {
    var kept := Filter(OtherThan(s.name), cache);
    var r := SaveSalad(cache, s, true);
    if i < |kept| {
      assert r[i] == kept[i];
      FilterMembership(OtherThan(s.name), cache, kept[i]);
    }
  }

  /** Saving keeps every other entry, in its relative order, and adds nothing else. */
  lemma SaveSaladOthers(cache: seq<Salad>, s: Salad)
    ensures SaveSalad(cache, s, true)[..|SaveSalad(cache, s, true)| - 1] == Filter(OtherThan(s.name), cache)
    ensures forall t :: t in SaveSalad(cache, s, true) <==> t == s || (t in cache && !EqualsIgnoreCase(t.name, s.name))
  {
    var r := SaveSalad(cache, s, true);
    assert r[..|r| - 1] == Filter(OtherThan(s.name), cache);
    forall t
      ensures t in r <==> t == s || (t in cache && !EqualsIgnoreCase(t.name, s.name))
    {
      FilterMembership(OtherThan(s.name), cache, t);
    }
  }

  /** `deleteSalad`: when the file deletion does not fail, every entry named
      like `name` is removed and nothing else; otherwise the cache is unchanged. */
  function DeleteSalad(cache: seq<Salad>, name: string, deleted: bool): (r: seq<Salad>)
    ensures !deleted ==> r == cache
    ensures deleted ==> r == Filter(OtherThan(name), cache)
    ensures deleted ==> forall t :: t in r <==> t in cache && !EqualsIgnoreCase(t.name, name)
  {
    if deleted then
      var r := Filter(OtherThan(name), cache);
      forall t ensures t in r <==> t in cache && !EqualsIgnoreCase(t.name, name) {
        FilterMembership(OtherThan(name), cache, t);
      }
      r
    else cache
  }

  /** Deleting twice is deleting once. */
  lemma DeleteIdempotent(cache: seq<Salad>, name: string)
    ensures DeleteSalad(DeleteSalad(cache, name, true), name, true) == DeleteSalad(cache, name, true)
  {
    FilterIdempotent(OtherThan(name), cache);
  }

  /** Deleting a name no entry carries leaves the cache as it was. */
  lemma DeleteAbsent(cache: seq<Salad>, name: string)
    requires forall i :: 0 <= i < |cache| ==> !EqualsIgnoreCase(cache[i].name, name)
    ensures DeleteSalad(cache, name, true) == cache
  {
    FilterAll(OtherThan(name), cache);
  }

  /** `getSaladByName`: the first cache entry whose name equals `name`
      ignoring case, or none. */
  function FindSalad(cache: seq<Salad>, name: string): (r: Option<Salad>)
    ensures r.None? <==> forall i :: 0 <= i < |cache| ==> !EqualsIgnoreCase(cache[i].name, name)
    ensures r.Some? ==> exists i :: 0 <= i < |cache| && cache[i] == r.value
                          && EqualsIgnoreCase(cache[i].name, name)
                          && forall j :: 0 <= j < i ==> !EqualsIgnoreCase(cache[j].name, name)
  {
    match FirstMatch(Map(SaladName, cache), name)
    case None => None
    case Some(i) => Some(cache[i])
  }

  /** A saved salad is what a lookup by its name finds. */
  lemma FindAfterSave(cache: seq<Salad>, s: Salad)
    ensures FindSalad(SaveSalad(cache, s, true), s.name) == Some(s)
  {
    var r := SaveSalad(cache, s, true);
    assert EqualsIgnoreCase(s.name, s.name);
    var found := FindSalad(r, s.name);
    var i :| 0 <= i < |r| && r[i] == found.value && EqualsIgnoreCase(r[i].name, s.name);
    SaveSaladUnique(cache, s, i);
  }

  /** After a delete no lookup of that name finds anything. */
  lemma FindAfterDelete(cache: seq<Salad>, name: string)
    ensures FindSalad(DeleteSalad(cache, name, true), name).None?
  {
    var r := DeleteSalad(cache, name, true);
    forall i | 0 <= i < |r|
      ensures !EqualsIgnoreCase(r[i].name, name)
    {
      assert r[i] in r;
    }
  }

  /** Saving a salad leaves the lookup of every name not matching it as it was. */
  lemma {:induction false} FindAfterSaveOther(cache: seq<Salad>, s: Salad, name: string)
    requires !EqualsIgnoreCase(name, s.name)
    ensures FindSalad(SaveSalad(cache, s, true), name) == FindSalad(cache, name)
  {
    FindFilterOther(cache, s.name, name);
    var kept := Filter(OtherThan(s.name), cache);
    var r := SaveSalad(cache, s, true);
    if FindSalad(kept, name).None? {
      forall i | 0 <= i < |r|
        ensures !EqualsIgnoreCase(r[i].name, name)
      {
        if i < |kept| {
          assert r[i] == kept[i];
        } else {
          assert r[i] == s;
          if EqualsIgnoreCase(s.name, name) {
            EqualsIgnoreCaseSymmetric(s.name, name);
          }
        }
      }
    } else {
      var k := FirstMatch(Map(SaladName, kept), name).value;
      assert r[k] == kept[k];
      assert FirstMatch(Map(SaladName, r), name) == Some(k) by {
        FirstMatchPrefix(Map(SaladName, kept), Map(SaladName, r), name);
      }
    }
  }

  /** A first match in a list is the first match in any extension of it. */
  lemma FirstMatchPrefix(names: seq<string>, longer: seq<string>, query: string)
    requires |names| <= |longer| && longer[..|names|] == names
    requires FirstMatch(names, query).Some?
    ensures FirstMatch(longer, query) == FirstMatch(names, query)
  {
    var k := FirstMatch(names, query).value;
    assert longer[k] == names[k];
    forall j | 0 <= j < k
      ensures !EqualsIgnoreCase(longer[j], query)
    {
      assert longer[j] == names[j];
    }
    FirstMatchUnique(longer, query, k);
  }

  /** The position with a match and no earlier match is the first match. */
  lemma FirstMatchUnique(names: seq<string>, query: string, k: nat)
    requires k < |names| && EqualsIgnoreCase(names[k], query)
    requires forall j :: 0 <= j < k ==> !EqualsIgnoreCase(names[j], query)
    ensures FirstMatch(names, query) == Some(k)
  {
    var r := FirstMatch(names, query);
    assert r.Some?;
    if r.value < k {
    } else if r.value > k {
    }
  }

  /** A name that matches `other` does not match a name `other` does not match. */
  lemma MatchesExclusive(x: string, name: string, other: string)
    requires !EqualsIgnoreCase(name, other) && EqualsIgnoreCase(x, other)
    ensures !EqualsIgnoreCase(x, name)
  {
    if EqualsIgnoreCase(x, name) {
      EqualsIgnoreCaseSymmetric(x, name);
      EqualsIgnoreCaseTransitive(name, x, other);
    }
  }

  /** Removing the entries that match another name does not change which
      entry a lookup finds. */
  lemma {:induction false} FindFilterOther(cache: seq<Salad>, other: string, name: string)
    requires !EqualsIgnoreCase(name, other)
    ensures FindSalad(Filter(OtherThan(other), cache), name) == FindSalad(cache, name)
  {
    if cache != [] {
      var x, rest := cache[0], cache[1..];
      var keep := OtherThan(other);
      FindFilterOther(rest, other, name);
      assert cache == [x] + rest;
      FilterCons(keep, x, rest);
      FindCons(x, rest, name);
      if keep(x) {
        assert Filter(keep, cache) == [x] + Filter(keep, rest);
        FindCons(x, Filter(keep, rest), name);
      } else {
        assert Filter(keep, cache) == Filter(keep, rest);
        MatchesExclusive(x.name, name, other);
      }
    }
  }

  /** Lookup in a list with a known head. */
  lemma FindCons(s: Salad, rest: seq<Salad>, name: string)
    ensures FindSalad([s] + rest, name) ==
              if EqualsIgnoreCase(s.name, name) then Some(s) else FindSalad(rest, name)
  {
    var l := [s] + rest;
    assert Map(SaladName, l)[1..] == Map(SaladName, rest);
    assert l[1..] == rest;
    if !EqualsIgnoreCase(s.name, name) {
      match FirstMatch(Map(SaladName, rest), name)
      case None =>
      case Some(k) => assert l[k + 1] == rest[k];
    }
  }
}
