/**
  The product catalog (`saving/ProductRepository`): decoding of the catalog
  file line by line, the lines it writes back, and the in-memory list with
  append, remove-first-equal and case-insensitive lookup.
 */
module ProductRepository {
  import opened Wrappers
  import opened Text
  import opened Seqs
  import opened Products

  /** What reading a file gives: it does not exist, reading it fails, or its lines. */
  datatype FileState = Missing | Unreadable | Readable(lines: seq<string>)

  /** Why a catalog line produced no product. Blank lines and unknown tags
      are passed over without a diagnostic; the other two are reported. */
  datatype SkipReason = BlankLine | TooFewFields | BadField | UnknownTag

  datatype Decoded = Loaded(product: Product) | Skipped(reason: SkipReason)

  /** `parseDoubleWithLocaleFix`: commas become full stops before parsing. */
  function ParseNumber(num: NumberSyntax, s: string): Option<real>
  {
    num.parse(FixComma(s))
  }

  predicate IsTag(tag: string)
  {
    tag == "RootVegetable" || tag == "LeafyVegetable" || tag == "FruitingVegetable"
    || tag == "TuberVegetable" || tag == "Dressing" || tag == "Topping"
  }

  predicate IsVegetableTag(tag: string)
  {
    tag == "RootVegetable" || tag == "LeafyVegetable" || tag == "FruitingVegetable" || tag == "TuberVegetable"
  }

  /** Fields a line with this tag needs: `RootVegetable` five, the others four. */
  function TagFieldCount(tag: string): nat
  {
    if tag == "RootVegetable" then 5 else 4
  }

  /** When a catalog line yields a product: it is not blank, it names a known
      tag, it has that tag's number of fields, and its numeric fields parse.
      Boolean and text fields never stop a line. */
  predicate Decodable(num: NumberSyntax, line: string)
  {
    var parts := JavaSplit(line, ';');
    && !IsBlank(line)
    && |parts| >= 3
    && IsTag(parts[0])
    && |parts| >= TagFieldCount(parts[0])
    && ParseNumber(num, parts[2]).Some?
    && (IsVegetableTag(parts[0]) ==> ParseNumber(num, parts[3]).Some?)
  }

  /** Product `p` is what the fields `parts` describe; fields after the
      variant's last one play no part. */
  predicate ReadsAs(num: NumberSyntax, parts: seq<string>, p: Product)
  {
    && |parts| >= FieldCount(p)
    && parts[0] == Tag(p)
    && parts[1] == p.name
    && ParseNumber(num, parts[2]) == Some(p.calories)
    && match p
       case RootVegetable(_, _, sugar, hard) => ParseNumber(num, parts[3]) == Some(sugar) && hard == ParseBoolean(parts[4])
       case LeafyVegetable(_, _, fiber) => ParseNumber(num, parts[3]) == Some(fiber)
       case FruitingVegetable(_, _, water) => ParseNumber(num, parts[3]) == Some(water)
       case TuberVegetable(_, _, starch) => ParseNumber(num, parts[3]) == Some(starch)
       case Dressing(_, _, base) => base == parts[3]
       case Topping(_, _, crunchy) => crunchy == ParseBoolean(parts[3])
  }

  /** A numeric field at position `i`, absent when the line is too short
      (`ArrayIndexOutOfBoundsException`) or the text does not parse. */
  function NumberAt(num: NumberSyntax, parts: seq<string>, i: nat): Option<real>
  {
    if i < |parts| then ParseNumber(num, parts[i]) else None
  }

  /** The product described by the fields of a non-blank line, or why there
      is none: calories are read first, then the variant's fields by tag. */
  function DecodeFields(num: NumberSyntax, parts: seq<string>): Decoded
  {
    if |parts| < 3 then Skipped(TooFewFields)
    else
      match ParseNumber(num, parts[2])
      case None => Skipped(BadField)
      case Some(calories) =>
        var tag, name := parts[0], parts[1];
        if tag == "RootVegetable" then
          match NumberAt(num, parts, 3)
          case None => Skipped(BadField)
          case Some(sugar) =>
            if |parts| < 5 then Skipped(BadField)
            else Loaded(RootVegetable(name, calories, sugar, ParseBoolean(parts[4])))
        else if tag == "LeafyVegetable" then
          match NumberAt(num, parts, 3)
          case None => Skipped(BadField)
          case Some(fiber) => Loaded(LeafyVegetable(name, calories, fiber))
        else if tag == "FruitingVegetable" then
          match NumberAt(num, parts, 3)
          case None => Skipped(BadField)
          case Some(water) => Loaded(FruitingVegetable(name, calories, water))
        else if tag == "TuberVegetable" then
          match NumberAt(num, parts, 3)
          case None => Skipped(BadField)
          case Some(starch) => Loaded(TuberVegetable(name, calories, starch))
        else if tag == "Dressing" then
          if |parts| < 4 then Skipped(BadField) else Loaded(Dressing(name, calories, parts[3]))
        else if tag == "Topping" then
          if |parts| < 4 then Skipped(BadField) else Loaded(Topping(name, calories, ParseBoolean(parts[3])))
        else Skipped(UnknownTag)
  }

  /** One iteration of the loading loop: the product a catalog line yields,
      or why it yields none. */
  function Decode(num: NumberSyntax, line: string): Decoded
  {
    if IsBlank(line) then Skipped(BlankLine) else DecodeFields(num, JavaSplit(line, ';'))
  }

  /** What decoding a line gives, stated without following the loop: a
      product exactly for the decodable lines, and then the product its fields
      describe; blank lines, short lines and unknown tags are told apart. */
  lemma DecodeSpec(num: NumberSyntax, line: string)
    ensures Decode(num, line).Loaded? <==> Decodable(num, line)
    ensures Decode(num, line).Loaded? ==> ReadsAs(num, JavaSplit(line, ';'), Decode(num, line).product)
    ensures Decode(num, line) == Skipped(BlankLine) <==> IsBlank(line)
    ensures Decode(num, line) == Skipped(TooFewFields) <==> !IsBlank(line) && |JavaSplit(line, ';')| < 3
    ensures Decode(num, line) == Skipped(UnknownTag) <==>
              var parts := JavaSplit(line, ';');
              !IsBlank(line) && |parts| >= 3 && ParseNumber(num, parts[2]).Some? && !IsTag(parts[0])
  {
  }

  lemma FixCommaFree(s: string)
    requires ',' !in s
    ensures FixComma(s) == s
  {
  }

  /** The catalog line of an encodable product is not blank and splits back
      into its fields. */
  lemma EncodeSplits(num: NumberSyntax, p: Product)
    requires Encodable(num, p)
    ensures !IsBlank(Encode(num, p))
    ensures JavaSplit(Encode(num, p), ';') == Fields(num, p)
  {
    var fields := Fields(num, p);
    assert forall i :: 0 <= i < |fields| ==> ';' !in fields[i];
    assert fields[|fields| - 1] != [];
    JavaSplitJoin(fields, ';');
    assert fields[0][0] != ' ';
    JoinNotBlank(fields, ';');
  }

  /** The fields of an encodable product describe that product. */
  lemma DecodeFieldsOfProduct(num: NumberSyntax, p: Product)
    requires Encodable(num, p)
    ensures DecodeFields(num, Fields(num, p)) == Loaded(p)
  {
    var fields := Fields(num, p);
    FixCommaFree(num.render(p.calories));
    assert ParseNumber(num, fields[2]) == Some(p.calories);
    match p
    case RootVegetable(_, _, sugar, hard) =>
      FixCommaFree(num.render(sugar));
      ParseRenderBoolean(hard);
      assert NumberAt(num, fields, 3) == Some(sugar);
    case LeafyVegetable(_, _, fiber) =>
      FixCommaFree(num.render(fiber));
      assert NumberAt(num, fields, 3) == Some(fiber);
    case FruitingVegetable(_, _, water) =>
      FixCommaFree(num.render(water));
      assert NumberAt(num, fields, 3) == Some(water);
    case TuberVegetable(_, _, starch) =>
      FixCommaFree(num.render(starch));
      assert NumberAt(num, fields, 3) == Some(starch);
    case Dressing(_, _, _) =>
    case Topping(_, _, crunchy) => ParseRenderBoolean(crunchy);
  }

  /** A product's own catalog line reads back as that product. */
  lemma DecodeEncode(num: NumberSyntax, p: Product)
    requires Encodable(num, p)
    ensures Decode(num, Encode(num, p)) == Loaded(p)
  {
    EncodeSplits(num, p);
    DecodeFieldsOfProduct(num, p);
  }

  /** Java's `split` drops the empty field after a trailing `;`, so a dressing
      line whose base type is empty has only three fields and is skipped. */
  lemma TrailingEmptyFieldDropped(num: NumberSyntax, name: string, calories: string)
    requires ';' !in name && ';' !in calories && calories != []
    ensures Decode(num, Join(["Dressing", name, calories, ""], ';')) == Skipped(BadField)
  {
    var fields := ["Dressing", name, calories, ""];
    var line := Join(fields, ';');
    SplitOnJoin(fields, ';');
    JoinFree(fields, ';');
    assert DropTrailingEmpty(fields) == fields[..3];
    var parts := JavaSplit(line, ';');
    assert parts == ["Dressing", name, calories];
    assert fields[0][0] == 'D';
    JoinNotBlank(fields, ';');
    assert parts[0] == "Dressing";
  }

  /** The products one line contributes: its product when it loads, else none. */
  function LineProducts(num: NumberSyntax): string -> seq<Product>
  {
    (line: string) => match Decode(num, line) case Loaded(p) => [p] case Skipped(_) => []
  }

  /** The loading loop over the lines of a readable file: each line is decoded
      on its own and a bad line never stops the rest. */
  function DecodeAll(num: NumberSyntax, lines: seq<string>): (r: seq<Product>)
    ensures |r| <= |lines|
  {
    FlatMapAtMostOne(LineProducts(num), lines);
    FlatMap(LineProducts(num), lines)
  }

  /** Loading keeps exactly the decodable lines. */
  lemma DecodeAllMembership(num: NumberSyntax, lines: seq<string>, p: Product)
    ensures p in DecodeAll(num, lines) <==> exists i :: 0 <= i < |lines| && Decode(num, lines[i]) == Loaded(p)
  {
    FlatMapMembership(LineProducts(num), lines, p);
    if exists i :: 0 <= i < |lines| && p in LineProducts(num)(lines[i]) {
      var i :| 0 <= i < |lines| && p in LineProducts(num)(lines[i]);
      assert Decode(num, lines[i]) == Loaded(p);
    }
  }

  /** Loading goes line by line in file order: the products of two stretches
      of lines are those of the first followed by those of the second. */
  lemma DecodeAllAppend(num: NumberSyntax, a: seq<string>, b: seq<string>)
    ensures DecodeAll(num, a + b) == DecodeAll(num, a) + DecodeAll(num, b)
  {
    FlatMapAppend(LineProducts(num), a, b);
  }

  /** A skipped line that produces a diagnostic. */
  predicate Reported(d: Decoded)
  {
    d.Skipped? && (d.reason == TooFewFields || d.reason == BadField)
  }

  /** A skipped line passed over without a diagnostic. */
  predicate Silent(d: Decoded)
  {
    d.Skipped? && (d.reason == BlankLine || d.reason == UnknownTag)
  }

  /** Lines that produce a diagnostic. */
  function Warnings(num: NumberSyntax, lines: seq<string>): nat
  {
    if lines == [] then 0
    else (if Reported(Decode(num, lines[0])) then 1 else 0) + Warnings(num, lines[1..])
  }

  /** Lines passed over without a diagnostic: blank lines and unknown tags. */
  function SilentSkips(num: NumberSyntax, lines: seq<string>): nat
  {
    if lines == [] then 0
    else (if Silent(Decode(num, lines[0])) then 1 else 0) + SilentSkips(num, lines[1..])
  }

  /** Every line is loaded, reported, or silently passed over — exactly one of them. */
  lemma {:induction false} LoadAccounting(num: NumberSyntax, lines: seq<string>)
    ensures |DecodeAll(num, lines)| + Warnings(num, lines) + SilentSkips(num, lines) == |lines|
  {
    if lines != [] {
      LoadAccounting(num, lines[1..]);
      var d := Decode(num, lines[0]);
      assert d.Loaded? || Reported(d) || Silent(d);
    }
  }

  /** `loadFromFile`: a missing file, or one that cannot be read, leaves the
      list as it was; otherwise the list becomes the products of the
      decodable lines in file order. */
  function Load(num: NumberSyntax, file: FileState, current: seq<Product>): (r: seq<Product>)
    ensures !file.Readable? ==> r == current
    ensures file.Readable? ==> r == DecodeAll(num, file.lines)
    ensures file.Readable? ==> |r| <= |file.lines|
    ensures file.Readable? ==> forall p :: p in r <==> exists i :: 0 <= i < |file.lines| && Decode(num, file.lines[i]) == Loaded(p)
  {
    match file
    case Readable(lines) =>
      var r := DecodeAll(num, lines);
      forall p ensures p in r <==> exists i :: 0 <= i < |lines| && Decode(num, lines[i]) == Loaded(p) {
        DecodeAllMembership(num, lines, p);
      }
      r
    case _ => current
  }

  /** `saveToFile`: one line per product, in list order. */
  function SaveLines(num: NumberSyntax, products: seq<Product>): (lines: seq<string>)
    ensures |lines| == |products|
    ensures forall i :: 0 <= i < |products| ==> lines[i] == Encode(num, products[i])
  {
    if products == [] then [] else [Encode(num, products[0])] + SaveLines(num, products[1..])
  }

  /** Loading what was saved gives back the list, when every product is encodable. */
  lemma {:induction false} SaveLoadRoundTrip(num: NumberSyntax, products: seq<Product>, current: seq<Product>)
    requires forall i :: 0 <= i < |products| ==> Encodable(num, products[i])
    ensures Load(num, Readable(SaveLines(num, products)), current) == products
  {
    if products != [] {
      SaveLoadRoundTrip(num, products[1..], current);
      DecodeEncode(num, products[0]);
      var lines := SaveLines(num, products);
      assert lines[1..] == SaveLines(num, products[1..]);
    }
  }

  /** Saving, loading and saving again writes the same lines as the first save. */
  lemma SaveIdempotent(num: NumberSyntax, products: seq<Product>, current: seq<Product>)
    requires forall i :: 0 <= i < |products| ==> Encodable(num, products[i])
    ensures SaveLines(num, Load(num, Readable(SaveLines(num, products)), current)) == SaveLines(num, products)
  {
    SaveLoadRoundTrip(num, products, current);
  }

  /** `addProduct`: the product goes at the end. */
  function AddProduct(products: seq<Product>, p: Product): (r: seq<Product>)
    ensures |r| == |products| + 1 && r[..|products|] == products && r[|products|] == p
  {
    products + [p]
  }

  /** `removeProduct`: the first element equal to `p` is removed and the others
      keep their order; a list without `p` is unchanged. */
  function RemoveProduct(products: seq<Product>, p: Product): (r: seq<Product>)
    ensures p !in products ==> r == products
    ensures p in products ==>
              exists i :: 0 <= i < |products| && products[i] == p && p !in products[..i] && r == products[..i] + products[i + 1..]
  {
    var r := RemoveFirst(products, p);
    if p in products then
      var i := IndexOf(products, p);
      assert products[i] == p && p !in products[..i] && r == products[..i] + products[i + 1..];
      r
    else r
  }

  /** Removing a product just appended to a list that did not hold it gives the list back. */
  lemma AddRemoveInverse(products: seq<Product>, p: Product)
    requires p !in products
    ensures RemoveProduct(AddProduct(products, p), p) == products
  {
    var r := AddProduct(products, p);
    assert r[|products|] == p;
    assert r[..|products|] == products;
  }

  /** The position of the first product named `name` ignoring case. */
  function FindIndex(products: seq<Product>, name: string): (r: Option<nat>)
    ensures r.None? <==> forall i :: 0 <= i < |products| ==> !EqualsIgnoreCase(products[i].name, name)
    ensures r.Some? ==> r.value < |products| && EqualsIgnoreCase(products[r.value].name, name)
    ensures r.Some? ==> forall j :: 0 <= j < r.value ==> !EqualsIgnoreCase(products[j].name, name)
  {
    FirstMatch(Map(ProductName, products), name)
  }

  /** `getProductByName`: the first product whose name equals `name` ignoring
      case, or none when no name matches. */
  function GetProductByName(products: seq<Product>, name: string): (r: Option<Product>)
    ensures r.None? <==> forall i :: 0 <= i < |products| ==> !EqualsIgnoreCase(products[i].name, name)
    ensures r.Some? ==> exists i :: 0 <= i < |products| && products[i] == r.value
                          && EqualsIgnoreCase(products[i].name, name)
                          && forall j :: 0 <= j < i ==> !EqualsIgnoreCase(products[j].name, name)
  {
    match FindIndex(products, name)
    case None => None
    case Some(i) => Some(products[i])
  }

  /** A product's first equal element is the first one with its name, so
      removing the product found by name removes exactly that position. */
  lemma RemoveFound(products: seq<Product>, name: string)
    requires FindIndex(products, name).Some?
    ensures RemoveProduct(products, products[FindIndex(products, name).value])
              == RemoveAt(products, FindIndex(products, name).value)
  {
    var i := FindIndex(products, name).value;
    var p := products[i];
    var j := IndexOf(products, p);
    assert products[j] == p;
  }

  /** An appended product is found by name only when nothing before it matches. */
  lemma FindAfterAdd(products: seq<Product>, p: Product, name: string)
    ensures GetProductByName(AddProduct(products, p), name) ==
              if GetProductByName(products, name).Some? then GetProductByName(products, name)
              else if EqualsIgnoreCase(p.name, name) then Some(p)
              else None
  {
    var r := AddProduct(products, p);
    assert forall i :: 0 <= i < |products| ==> r[i] == products[i];
  }
}
