/**
  The six product variants of the catalog (the `products` package: `IProduct`,
  the `Vegetable` subclasses, `Dressing`, `Topping`), the numeric syntax they
  are written in, and their one-line text form.
 */
module Products {
  import opened Wrappers
  import opened Text

  datatype Product =
    | RootVegetable(name: string, calories: real, sugarContent: real, isHard: bool)
    | LeafyVegetable(name: string, calories: real, fiberContent: real)
    | FruitingVegetable(name: string, calories: real, waterContentPercent: real)
    | TuberVegetable(name: string, calories: real, starchContent: real)
    | Dressing(name: string, calories: real, baseType: string)
    | Topping(name: string, calories: real, isCrunchy: bool)

  /** `instanceof Vegetable` */
  predicate IsVegetable(p: Product)
  {
    p.RootVegetable? || p.LeafyVegetable? || p.FruitingVegetable? || p.TuberVegetable?
  }

  /** `getName` */
  function ProductName(p: Product): string
  {
    p.name
  }

  /** The three classes the product service filters and removes by. */
  datatype Kind = VegetableKind | DressingKind | ToppingKind

  /** `kind.isInstance(p)` */
  predicate IsKind(p: Product, kind: Kind)
  {
    match kind
    case VegetableKind => IsVegetable(p)
    case DressingKind => p.Dressing?
    case ToppingKind => p.Topping?
  }

  /** The type tag that starts a catalog line. */
  function Tag(p: Product): string
  {
    match p
    case RootVegetable(_, _, _, _) => "RootVegetable"
    case LeafyVegetable(_, _, _) => "LeafyVegetable"
    case FruitingVegetable(_, _, _) => "FruitingVegetable"
    case TuberVegetable(_, _, _) => "TuberVegetable"
    case Dressing(_, _, _) => "Dressing"
    case Topping(_, _, _) => "Topping"
  }

  /** The number of `;`-separated fields a catalog line of this variant needs. */
  function FieldCount(p: Product): nat
  {
    if p.RootVegetable? then 5 else 4
  }

  /** Java's `double` text syntax: `parse` is `Double.parseDouble` (none when it
      throws `NumberFormatException`) and `render` is `Double.toString`. Both
      are parameters of the model; the only facts used about them are the
      per-value hypotheses stated where they are needed. */
  datatype NumberSyntax = NumberSyntax(parse: string -> Option<real>, render: real -> string)

  /** `x` is written by `render` as a non-empty one-line text free of `;`
      and `,` that parses back to `x`. */
  predicate ExactNumber(num: NumberSyntax, x: real)
  {
    var t := num.render(x);
    t != [] && ';' !in t && ',' !in t && OneLine(t) && num.parse(t) == Some(x)
  }

  /** The fields of the catalog line of `p` (`toTxtLine`): tag, name,
      calories, then the variant's own fields in declaration order. */
  function Fields(num: NumberSyntax, p: Product): (fields: seq<string>)
    ensures |fields| == FieldCount(p)
    ensures fields[0] == Tag(p) && fields[1] == p.name && fields[2] == num.render(p.calories)
  {
    match p
    case RootVegetable(n, c, sugar, hard) => [Tag(p), n, num.render(c), num.render(sugar), RenderBoolean(hard)]
    case LeafyVegetable(n, c, fiber) => [Tag(p), n, num.render(c), num.render(fiber)]
    case FruitingVegetable(n, c, water) => [Tag(p), n, num.render(c), num.render(water)]
    case TuberVegetable(n, c, starch) => [Tag(p), n, num.render(c), num.render(starch)]
    case Dressing(n, c, base) => [Tag(p), n, num.render(c), base]
    case Topping(n, c, crunchy) => [Tag(p), n, num.render(c), RenderBoolean(crunchy)]
  }

  /** The catalog line of `p`: its fields joined with `;`. */
  function Encode(num: NumberSyntax, p: Product): string
  {
    Join(Fields(num, p), ';')
  }

  /** The conditions under which the catalog line of `p` reads back as `p`:
      a one-line name without `;`, numbers that render exactly, and a dressing
      base that is one line, neither empty nor holding a `;`. */
  predicate Encodable(num: NumberSyntax, p: Product)
  {
    && ';' !in p.name && OneLine(p.name)
    && ExactNumber(num, p.calories)
    && match p
       case RootVegetable(_, _, sugar, _) => ExactNumber(num, sugar)
       case LeafyVegetable(_, _, fiber) => ExactNumber(num, fiber)
       case FruitingVegetable(_, _, water) => ExactNumber(num, water)
       case TuberVegetable(_, _, starch) => ExactNumber(num, starch)
       case Dressing(_, _, base) => base != [] && ';' !in base && OneLine(base)
       case Topping(_, _, _) => true
  }
}
