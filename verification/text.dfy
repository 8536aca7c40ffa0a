/**
  The string operations of `java.lang.String` that the repositories rely on:
  case-insensitive equality, `trim`, `replace(",", ".")`, `split(";")`,
  `compareTo`, `endsWith`, `lastIndexOf` and `Boolean.parseBoolean`.
 */
module Text {
  import opened Wrappers

  /** Lower-case form of a character: ASCII letters and the basic Cyrillic
      block (including the Ukrainian letters), the alphabets the catalog uses. */
  function Fold(c: char): char
  {
    if 'A' <= c <= 'Z' then (c as int + 32) as char
    else if 0x410 <= c as int <= 0x42F then (c as int + 32) as char
    else if 0x400 <= c as int <= 0x40F then (c as int + 80) as char
    else if c as int == 0x490 then 0x491 as char
    else c
  }

  /** `String.equalsIgnoreCase`, with `Fold` as the case mapping. */
  predicate EqualsIgnoreCase(a: string, b: string)
  {
    |a| == |b| && forall i :: 0 <= i < |a| ==> Fold(a[i]) == Fold(b[i])
  }

  lemma EqualsIgnoreCaseSymmetric(a: string, b: string)
    requires EqualsIgnoreCase(a, b)
    ensures EqualsIgnoreCase(b, a)
  {
  }

  lemma EqualsIgnoreCaseTransitive(a: string, b: string, c: string)
    requires EqualsIgnoreCase(a, b) && EqualsIgnoreCase(b, c)
    ensures EqualsIgnoreCase(a, c)
  {
  }

  /** `Boolean.parseBoolean`: true exactly for "true" in any case, false for
      everything else; it never fails. */
  function ParseBoolean(s: string): (b: bool)
    ensures b <==> |s| == 4 && Fold(s[0]) == 't' && Fold(s[1]) == 'r' && Fold(s[2]) == 'u' && Fold(s[3]) == 'e'
  {
    EqualsIgnoreCase(s, "true")
  }

  /** `String.valueOf(boolean)`. */
  function RenderBoolean(b: bool): string
  {
    if b then "true" else "false"
  }

  lemma ParseRenderBoolean(b: bool)
    ensures ParseBoolean(RenderBoolean(b)) == b
  {
    if !b {
      assert RenderBoolean(b)[0] == 'f';
    }
  }

  /** The characters `String.trim` removes. */
  predicate IsSpace(c: char)
  {
    c <= ' '
  }

  /** A text that stays on one line of a file: `Files.readAllLines` splits
      at `\n`, `\r` and `\r\n`, so a text holding either would come back
      as several lines. */
  predicate OneLine(s: string)
  {
    '\n' !in s && '\r' !in s
  }

  /** `s.trim().isEmpty()` */
  predicate IsBlank(s: string)
  {
    forall i :: 0 <= i < |s| ==> IsSpace(s[i])
  }

  function TrimStart(s: string): (r: string)
    ensures |r| <= |s|
    ensures r == [] || !IsSpace(r[0])
    ensures forall i :: 0 <= i < |s| - |r| ==> IsSpace(s[i])
  {
    if s != [] && IsSpace(s[0]) then TrimStart(s[1..]) else s
  }

  function TrimEnd(s: string): (r: string)
    ensures |r| <= |s|
    ensures r == [] || !IsSpace(r[|r| - 1])
    ensures forall i :: |r| <= i < |s| ==> IsSpace(s[i])
  {
    if s != [] && IsSpace(s[|s| - 1]) then TrimEnd(s[..|s| - 1]) else s
  }

  /** `String.trim`: the string without its leading and trailing spaces. */
  function Trim(s: string): (r: string)
    ensures |r| <= |s|
    ensures r == [] <==> IsBlank(s)
    ensures r != [] ==> !IsSpace(r[0]) && !IsSpace(r[|r| - 1])
  {
    TrimBlank(s);
    TrimEnds(s);
    TrimEnd(TrimStart(s))
  }

  lemma TrimBlank(s: string)
    ensures TrimEnd(TrimStart(s)) == [] <==> IsBlank(s)
  {
    var t := TrimStart(s);
    var k := |s| - |t|;
    TrimStartSuffix(s);
    if TrimEnd(t) == [] {
      assert t == [];
    } else {
      assert t[0] == s[k];
      assert !IsSpace(s[k]);
    }
  }

  lemma TrimEnds(s: string)
    ensures var r := TrimEnd(TrimStart(s));
            r != [] ==> !IsSpace(r[0]) && !IsSpace(r[|r| - 1])
  {
    var t := TrimStart(s);
    TrimEndPrefix(t);
    if TrimEnd(t) != [] {
      assert TrimEnd(t)[0] == t[0];
    }
  }

  /** What `TrimStart` keeps is a suffix of its input. */
  lemma {:induction false} TrimStartSuffix(s: string)
    ensures TrimStart(s) == s[|s| - |TrimStart(s)|..]
  {
    if s != [] && IsSpace(s[0]) {
      TrimStartSuffix(s[1..]);
      assert s[1..][|s[1..]| - |TrimStart(s[1..])|..] == s[|s| - |TrimStart(s)|..];
    }
  }

  /** What `TrimEnd` keeps is a prefix of its input. */
  lemma {:induction false} TrimEndPrefix(s: string)
    ensures TrimEnd(s) == s[..|TrimEnd(s)|]
  {
    if s != [] && IsSpace(s[|s| - 1]) {
      TrimEndPrefix(s[..|s| - 1]);
      assert s[..|s| - 1][..|TrimEnd(s)|] == s[..|TrimEnd(s)|];
    }
  }

  /** `trim` keeps one contiguous piece of its input and drops only spaces
      around it. */
  lemma TrimInfix(s: string)
    ensures var k := |s| - |TrimStart(s)|;
            && k + |Trim(s)| <= |s|
            && Trim(s) == s[k..k + |Trim(s)|]
            && (forall i :: 0 <= i < k ==> IsSpace(s[i]))
            && (forall i :: k + |Trim(s)| <= i < |s| ==> IsSpace(s[i]))
  {
    var t := TrimStart(s);
    var k := |s| - |t|;
    TrimStartSuffix(s);
    TrimEndPrefix(t);
    assert t[..|Trim(s)|] == s[k..k + |Trim(s)|];
    forall i | k + |Trim(s)| <= i < |s|
      ensures IsSpace(s[i])
    {
      assert s[i] == t[i - k];
    }
  }

  /** `String.replace(",", ".")`: every comma becomes a full stop. */
  function FixComma(s: string): (r: string)
    ensures |r| == |s| && ',' !in r
    ensures forall i :: 0 <= i < |s| ==> r[i] == (if s[i] == ',' then '.' else s[i])
  {
    if s == [] then [] else [if s[0] == ',' then '.' else s[0]] + FixComma(s[1..])
  }

  lemma FixCommaIdempotent(s: string)
    ensures FixComma(FixComma(s)) == FixComma(s)
  {
  }

  /** A number written with a decimal comma reads as the one written with a
      decimal point. */
  lemma CommaAsDecimalPoint(whole: string, fraction: string)
    ensures FixComma(whole + "," + fraction) == FixComma(whole + "." + fraction)
  {
    var a, b := FixComma(whole + "," + fraction), FixComma(whole + "." + fraction);
    assert forall i :: 0 <= i < |a| ==> a[i] == b[i];
  }

  /** All the pieces of `s` between occurrences of `d`, empty ones included. */
  function SplitOn(s: string, d: char): (parts: seq<string>)
    ensures |parts| >= 1
    ensures forall i :: 0 <= i < |parts| ==> d !in parts[i]
    ensures Join(parts, d) == s
  {
    if s == [] then [[]]
    else
      var rest := SplitOn(s[1..], d);
      if s[0] == d then
        assert Join([[]] + rest, d) == [d] + Join(rest, d);
        [[]] + rest
      else
        var parts := [[s[0]] + rest[0]] + rest[1..];
        JoinConsChar(s[0], rest, d);
        parts
  }

  /** The pieces glued back together with `d` between them. */
  function Join(parts: seq<string>, d: char): string
    requires |parts| >= 1
  {
    if |parts| == 1 then parts[0] else parts[0] + [d] + Join(parts[1..], d)
  }

  lemma JoinConsChar(c: char, parts: seq<string>, d: char)
    requires |parts| >= 1
    ensures Join([[c] + parts[0]] + parts[1..], d) == [c] + Join(parts, d)
  {
    var q := [[c] + parts[0]] + parts[1..];
    assert q[1..] == parts[1..];
  }

  lemma SplitOnFree(a: string, d: char)
    requires d !in a
    ensures SplitOn(a, d) == [a]
  {
    if a != [] {
      SplitOnFree(a[1..], d);
    }
  }

  lemma {:induction false} SplitOnCons(a: string, b: string, d: char)
    requires d !in a
    ensures SplitOn(a + [d] + b, d) == [a] + SplitOn(b, d)
  {
    if a == [] {
      assert a + [d] + b == [d] + b;
      assert ([d] + b)[1..] == b;
    } else {
      assert (a + [d] + b)[1..] == a[1..] + [d] + b;
      SplitOnCons(a[1..], b, d);
      assert [a[0]] + a[1..] == a;
    }
  }

  /** Splitting undoes joining when no piece contains the delimiter. */
  lemma {:induction false} SplitOnJoin(parts: seq<string>, d: char)
    requires |parts| >= 1
    requires forall i :: 0 <= i < |parts| ==> d !in parts[i]
    ensures SplitOn(Join(parts, d), d) == parts
  {
    if |parts| == 1 {
      SplitOnFree(parts[0], d);
    } else {
      SplitOnJoin(parts[1..], d);
      SplitOnCons(parts[0], Join(parts[1..], d), d);
      assert [parts[0]] + parts[1..] == parts;
    }
  }

  lemma JoinFree(parts: seq<string>, d: char)
    requires |parts| >= 1
    ensures d in Join(parts, d) <==> |parts| > 1 || d in parts[0]
  {
    if |parts| > 1 {
      assert Join(parts, d)[|parts[0]|] == d;
    }
  }

  /** The list without its trailing empty strings. */
  function DropTrailingEmpty(parts: seq<string>): (r: seq<string>)
    ensures |r| <= |parts| && r == parts[..|r|]
    ensures r == [] || r[|r| - 1] != []
    ensures forall i :: |r| <= i < |parts| ==> parts[i] == []
  {
    if parts != [] && parts[|parts| - 1] == [] then DropTrailingEmpty(parts[..|parts| - 1]) else parts
  }

  /** `String.split` with a one-character delimiter and no limit: a string
      without the delimiter is returned whole, otherwise the pieces are
      returned with trailing empty pieces removed. */
  function JavaSplit(s: string, d: char): seq<string>
  {
    if d !in s then [s] else DropTrailingEmpty(SplitOn(s, d))
  }

  /** Splitting a line built by `Join` gives back its fields, provided no
      field contains the delimiter and the last one is not empty. */
  lemma JavaSplitJoin(parts: seq<string>, d: char)
    requires |parts| >= 1
    requires forall i :: 0 <= i < |parts| ==> d !in parts[i]
    requires parts[|parts| - 1] != []
    ensures JavaSplit(Join(parts, d), d) == parts
  {
    JoinFree(parts, d);
    if |parts| > 1 {
      SplitOnJoin(parts, d);
    }
  }

  lemma JoinPrefix(parts: seq<string>, d: char)
    requires |parts| >= 1
    ensures |parts[0]| <= |Join(parts, d)| && Join(parts, d)[..|parts[0]|] == parts[0]
  {
  }

  /** A joined line is never blank when its first field starts with a visible character. */
  lemma JoinNotBlank(parts: seq<string>, d: char)
    requires |parts| >= 1 && parts[0] != [] && !IsSpace(parts[0][0])
    ensures !IsBlank(Join(parts, d))
  {
    JoinPrefix(parts, d);
    assert Join(parts, d)[0] == parts[0][0];
  }

  /** `String.compareTo(a, b) <= 0`: lexicographic order on characters, a
      proper prefix coming first. */
  predicate StringLe(a: string, b: string)
  {
    if a == [] then true
    else if b == [] then false
    else if a[0] != b[0] then a[0] < b[0]
    else StringLe(a[1..], b[1..])
  }

  lemma {:induction false} StringLeTotal(a: string, b: string)
    ensures StringLe(a, b) || StringLe(b, a)
  {
    if a != [] && b != [] && a[0] == b[0] {
      StringLeTotal(a[1..], b[1..]);
    }
  }

  lemma {:induction false} StringLeTransitive(a: string, b: string, c: string)
    requires StringLe(a, b) && StringLe(b, c)
    ensures StringLe(a, c)
  {
    if a != [] && b != [] && c != [] && a[0] == b[0] && b[0] == c[0] {
      StringLeTransitive(a[1..], b[1..], c[1..]);
    }
  }

  lemma {:induction false} StringLeAntisymmetric(a: string, b: string)
    requires StringLe(a, b) && StringLe(b, a)
    ensures a == b
  {
    if a != [] && b != [] {
      StringLeAntisymmetric(a[1..], b[1..]);
      assert a == [a[0]] + a[1..] && b == [b[0]] + b[1..];
    }
  }

  /** `String.endsWith`. */
  predicate EndsWith(s: string, suffix: string)
  {
    |suffix| <= |s| && s[|s| - |suffix|..] == suffix
  }

  /** `String.lastIndexOf(char)`: the position of the last `c`, or -1. */
  function LastIndexOf(s: string, c: char): (k: int)
    ensures -1 <= k < |s|
    ensures k == -1 <==> c !in s
  {
    if s == [] then -1
    else if s[|s| - 1] == c then |s| - 1
    else
      var k := LastIndexOf(s[..|s| - 1], c);
      assert s == s[..|s| - 1] + [s[|s| - 1]];
      k
  }

  /** The position found holds `c` and no `c` follows it. */
  lemma {:induction false} LastIndexOfSpec(s: string, c: char)
    requires c in s
    ensures s[LastIndexOf(s, c)] == c && c !in s[LastIndexOf(s, c) + 1..]
  {
    if s[|s| - 1] != c {
      var init := s[..|s| - 1];
      assert s == init + [s[|s| - 1]];
      LastIndexOfSpec(init, c);
      var k := LastIndexOf(init, c);
      assert s[k + 1..] == init[k + 1..] + [s[|s| - 1]];
    }
  }

  /** A file name up to its last full stop. */
  function Stem(fileName: string): string
    requires '.' in fileName
  {
    fileName[..LastIndexOf(fileName, '.')]
  }

  /** The stem is followed by the last full stop of the name. */
  lemma StemSpec(fileName: string)
    requires '.' in fileName
    ensures |Stem(fileName)| < |fileName| && fileName[|Stem(fileName)|] == '.'
    ensures fileName[..|Stem(fileName)|] == Stem(fileName)
    ensures '.' !in fileName[|Stem(fileName)| + 1..]
  {
    LastIndexOfSpec(fileName, '.');
  }

  /** The stem of `name + ".txt"` is `name`, whatever full stops `name` holds. */
  lemma StemOfTxt(name: string)
    ensures '.' in name + ".txt"
    ensures Stem(name + ".txt") == name
  {
    var f := name + ".txt";
    assert f[|name|] == '.';
    StemSpec(f);
    var stem := Stem(f);
    assert f[|name| + 1..] == "txt";
  }
}
